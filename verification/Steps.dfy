/** One node as a value, and what each of its reactions may do: receiving a collection, handling a
    local request, and the periodic cleanup with its requests and its delivery. */
module Steps {
  import opened Collections
  import opened Records
  import opened Sorting
  import opened Dedup
  import opened Geometry
  import opened TableSpec
  import opened Merging
  import opened Subscribers

  datatype HostState = HostState(
    cfg: Config, rn: seq<Node>, im: seq<Node>, imMax: nat, subs: seq<Subscriber>, lastCleanup: int)

  /** A datagram: sender, destination address, and the decoded collection. */
  datatype Packet = Packet(from: nat, destIP: U32, destPort: U16, ptype: U8, nodes: seq<Node>)

  // Local request types.
  const SET_POSITION := 0
  const SET_COORDINATION_RANGE := 1
  const SET_POS_AND_RANGE := 2
  const SUB_CANDNODES := 3
  const UNSUB_CANDNODES := 4

  datatype LocalRequest = LocalRequest(rtype: int, lat: real, lon: real, coordRange: U16, sockAddr: string)

  function OnWire(s: seq<Node>): (w: seq<Node>)
    ensures |w| == |s| && forall i :: 0 <= i < |s| ==> w[i] == s[i].Wire()
  {
    seq(|s|, i requires 0 <= i < |s| => s[i].Wire())
  }

  /** The state in which a node starts: empty tables. */
  function Initial(cfg: Config, now: U32): HostState {
    HostState(cfg, [], [], cfg.m + cfg.k, [], now)
  }

  // ----- Receiving -----

  ghost predicate RandomReceived(swap: Swap, lib: MathLib, h: HostState, now: U32, nc: seq<Node>, rn1: seq<Node>,
                                 h': HostState)
  {
    && RandomMerge(swap, h.cfg.id, 2 * h.cfg.n, h.rn, nc, rn1)
    && h'.rn == Scored(lib, InternalNode(h.cfg, now), rn1)
    && ImportantMerge(swap, h.cfg.id, h.cfg.k, h.im, h.imMax, h'.rn, h'.im, h'.imMax)
    && h' == h.(rn := h'.rn, im := h'.im, imMax := h'.imMax)
  }

  ghost predicate ImportantReceived(swap: Swap, lib: MathLib, h: HostState, now: U32, nc: seq<Node>, h': HostState) {
    && ImportantMerge(swap, h.cfg.id, h.cfg.k, h.im, h.imMax,
                      Scored(lib, InternalNode(h.cfg, now), nc), h'.im, h'.imMax)
    && h' == h.(im := h'.im, imMax := h'.imMax)
  }

  function RandomPacket(host: nat, h: HostState, now: U32, ptype: U8, peer: Node): Packet {
    Packet(host, peer.ipAddr, peer.port, ptype, OnWire(RandomMessage(OwnNode(h.cfg, now), h.rn)))
  }

  function ImportantPacket(host: nat, h: HostState, now: U32, ptype: U8, peer: Node, sel: seq<Node>): Packet {
    Packet(host, peer.ipAddr, peer.port, ptype, OnWire([OwnNode(h.cfg, now)] + sel))
  }

  ghost predicate ImportantSent(lib: MathLib, host: nat, h: HostState, now: U32, ptype: U8, peer: Node, pkt: Packet) {
    exists sel :: Selected(lib, h.cfg.k, h.im, peer, sel) && pkt == ImportantPacket(host, h, now, ptype, peer, sel)
  }

  /** Protocol_receiveFromPeer for the collection `nc` as it stands in memory after unpacking. */
  ghost predicate ReceiveStep(swap: Swap, lib: MathLib, host: nat, h: HostState, now: U32, ptype: U8, nc: seq<Node>,
                              h': HostState, sent: seq<Packet>)
  {
    nc != [] &&
    if ptype == RND_NOREQ then
      && sent == []
      && exists rn1 :: RandomReceived(swap, lib, h, now, nc, rn1, h')
    else if ptype == RND_REQ then
      && sent == [RandomPacket(host, h, now, RND_NOREQ, nc[0])]
      && exists rn1 :: RandomReceived(swap, lib, h, now, nc, rn1, h')
    else if ptype == IMP_NOREQ then
      && sent == []
      && ImportantReceived(swap, lib, h, now, nc, h')
    else if ptype == IMP_REQ then
      && |sent| == 1 && ImportantSent(lib, host, h, now, IMP_NOREQ, nc[0], sent[0])
      && ImportantReceived(swap, lib, h, now, nc, h')
    else
      sent == [] && h' == h
  }

  // ----- Local requests -----

  /** LocalIO_handleRequest */
  function Handled(h: HostState, lr: LocalRequest): HostState {
    if lr.rtype == SET_POSITION then h.(cfg := h.cfg.(lat := lr.lat, lon := lr.lon))
    else if lr.rtype == SET_COORDINATION_RANGE then h.(cfg := h.cfg.(coordRange := lr.coordRange))
    else if lr.rtype == SET_POS_AND_RANGE then
      h.(cfg := h.cfg.(lat := lr.lat, lon := lr.lon, coordRange := lr.coordRange))
    else if lr.rtype == SUB_CANDNODES then h.(subs := Handle(h.subs, Sub(lr.sockAddr)))
    else if lr.rtype == UNSUB_CANDNODES then h.(subs := Handle(h.subs, Unsub(lr.sockAddr)))
    else h
  }

  /** Requests that move the node or change its range. */
  predicate Moves(lr: LocalRequest) {
    lr.rtype == SET_POSITION || lr.rtype == SET_COORDINATION_RANGE || lr.rtype == SET_POS_AND_RANGE
  }

  // ----- The periodic cleanup -----

  /** Both tables after the expiry, the important one sorted by utility again. */
  ghost predicate Cleaned(h: HostState, now: U32, h': HostState) {
    var cutoff := now - h.cfg.nodeMaxAge;
    && ExpiryOf(ByNodeID, cutoff, h.rn, h'.rn)
    && ExpiryOf(ByUtility, cutoff, h.im, h'.im)
    && h' == h.(rn := h'.rn, im := h'.im, lastCleanup := now)
  }

  ghost predicate RandomRequest(host: nat, h: HostState, now: U32, peer: Option<Node>, pkt: Packet) {
    && PeerChoice(h.rn, |h.rn|, h.cfg.id, peer)
    && pkt == match peer
              case Some(n) => RandomPacket(host, h, now, RND_REQ, n)
              case None => Bootstrap(host, h.cfg, now)
  }

  /** Protocol_bootstrap: the own record alone, to the configured first peer. */
  function Bootstrap(host: nat, cfg: Config, now: U32): Packet {
    Packet(host, cfg.originPeerIP, cfg.originPeerPort, RND_REQ, OnWire([OwnNode(cfg, now)]))
  }

  ghost predicate ImportantRequest(lib: MathLib, host: nat, h: HostState, now: U32, peer: Option<Node>,
                                   pkts: seq<Packet>) {
    && PeerChoice(h.im, PeerRange(h.im), h.cfg.id, peer)
    && match peer
       case Some(n) => |pkts| == 1 && ImportantSent(lib, host, h, now, IMP_REQ, n, pkts[0])
       case None => pkts == []
  }

  ghost predicate Requests(lib: MathLib, host: nat, h: HostState, now: U32, sent: seq<Packet>) {
    exists p, q :: RequestsVia(lib, host, h, now, p, q, sent)
  }

  ghost predicate RequestsVia(lib: MathLib, host: nat, h: HostState, now: U32, p: Option<Node>, q: Option<Node>,
                              sent: seq<Packet>)
  {
    && sent != []
    && RandomRequest(host, h, now, p, sent[0])
    && ImportantRequest(lib, host, h, now, q, sent[1..])
  }

  /** The collection LocalIO_sendCandidateNodes builds. */
  function CandidateList(own: Node, im: seq<Node>): seq<Node> {
    var cn := Filter(Candidate(), im);
    Appended([own], |cn| + 1, cn, own.nodeID)
  }

  /** What goes out to the local subscribers: a collection, and the sockets it goes to. */
  datatype Dispatch = Dispatch(versionID: U16, ptype: U8, nodes: seq<Node>, to: seq<string>)

  function Delivery(h: HostState, now: U32): Option<Dispatch> {
    if h.subs == [] then None
    else Some(Dispatch(VERSION_ID, INTERNAL, CandidateList(OwnNode(h.cfg, now), h.im), Addresses(h.subs)))
  }

  predicate CleanupDue(h: HostState, now: U32) {
    now - h.lastCleanup > h.cfg.timeout
  }

  /** Protocol_timeout followed by the delivery to local subscribers. */
  ghost predicate CleanupStep(lib: MathLib, host: nat, h: HostState, now: U32, h': HostState, sent: seq<Packet>,
                              delivered: Option<Dispatch>)
  {
    && Cleaned(h, now, h')
    && Requests(lib, host, h', now, sent)
    && delivered == Delivery(h', now)
  }
}
