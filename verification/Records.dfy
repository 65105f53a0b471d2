/** The node record, the configuration and the constants of the protocol. */
module Records {

  type U8 = x: int | 0 <= x < 0x100
  type U16 = x: int | 0 <= x < 0x1_0000
  type U32 = x: int | 0 <= x < 0x1_0000_0000
  type U64 = x: int | 0 <= x < 0x1_0000_0000_0000_0000

  const VERSION_ID: U16 := 1
  const NODES_MAX_SIZE := 10000
  const MAX_PAYLOAD_BYTESIZE := 32768

  // Payload types, as they appear on the wire.
  const RND_NOREQ: U8 := 0
  const RND_REQ: U8 := 1
  const IMP_NOREQ: U8 := 2
  const IMP_REQ: U8 := 3
  const INTERNAL: U8 := 4

  /** One peer. ID 0 marks a deleted record; `utility` is a local cache and never travels. */
  datatype Node = Node(
    nodeID: U32, lat: real, lon: real, coordRange: U16, ipAddr: U32, port: U16,
    timeStamp: U32, radacIp: U32, radacPort: U16, utility: real)
  {
    /** What a peer can see of the record: everything but the cached utility. */
    function Wire(): Node {
      this.(utility := 0.0)
    }
  }

  /** The global configuration. Local requests change only position and range. */
  datatype Config = Config(
    originPeerIP: U32, originPeerPort: U16, ownIP: U32, port: U16,
    id: U32, lat: real, lon: real, coordRange: U16,
    nodeMaxAge: U32, timeout: U16, n: U16, m: U16, k: U16,
    radacIp: U32, radacPort: U16)
  {
    /** Limits the tables rely on: the 16-bit capacities 2N and M+K do not wrap, one more record
        fits in front of a full table, and the own ID is not the deletion mark. */
    predicate Sound() {
      id != 0 && 2 * n < 0x1_0000 && m + k < 0x1_0000 && m < 0xffff
    }

    /** The part of the configuration that no local request can touch. */
    function Fixed(): Config {
      this.(lat := 0.0, lon := 0.0, coordRange := 0)
    }
  }

  /** The record a node publishes about itself at time `now`. */
  function OwnNode(cfg: Config, now: U32): Node {
    Node(cfg.id, cfg.lat, cfg.lon, cfg.coordRange, cfg.ownIP, cfg.port, now,
         cfg.radacIp, cfg.radacPort, 0.0)
  }

  /** The record used only to compute utilities: the networking fields stay empty. */
  function InternalNode(cfg: Config, now: U32): Node {
    Node(cfg.id, cfg.lat, cfg.lon, cfg.coordRange, 0, 0, now, 0, 0, 0.0)
  }

  predicate DistinctIDs(s: seq<Node>) {
    forall i, j :: 0 <= i < j < |s| ==> s[i].nodeID != s[j].nodeID
  }

  predicate HasID(s: seq<Node>, id: U32) {
    exists i :: 0 <= i < |s| && s[i].nodeID == id
  }

  predicate AllLive(s: seq<Node>) {
    forall i :: 0 <= i < |s| ==> s[i].nodeID != 0
  }

  /** Equal record by record, except for the cached utility. */
  predicate SameWire(s: seq<Node>, t: seq<Node>) {
    |s| == |t| && forall i :: 0 <= i < |s| ==> s[i].Wire() == t[i].Wire()
  }
}
