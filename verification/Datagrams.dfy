/** The datagrams of whole runs: they can be encoded exactly, fit the receive buffer, and are read
    back as they were sent. */
module Datagrams {
  import opened Records
  import opened Dedup
  import opened Geometry
  import opened Ieee754
  import opened Steps
  import opened HostLaws
  import opened Network
  import opened Provenance
  import opened Wire
  import opened Bytes
  import opened Visible
  import PythonWire
  import TwoCodecs

  /** Position given by zero or normal doubles. */
  ghost predicate Placed(cfg: Config) {
    Representable(cfg.lat) && Representable(cfg.lon)
  }

  ghost predicate HostsPlaced(w: World) {
    forall host :: host in w.hosts ==> Placed(w.hosts[host].cfg)
  }

  /** Every position that enters the run, by configuration or by local request, is so given. */
  ghost predicate AllPlaced(ws: seq<World>, steps: seq<Step>)
    requires |ws| == |steps| + 1
  {
    && HostsPlaced(ws[0])
    && (forall i :: 0 <= i < |steps| ==> PlacingStep(steps[i]))
  }

  ghost predicate PlacingStep(s: Step) {
    && (s.Join? ==> Placed(s.cfg))
    && (s.Local? ==> Representable(s.lr.lat) && Representable(s.lr.lon))
  }

  lemma {:induction false} ReactionKeepsPlaced(w: World, host: nat, h': HostState, w': World)
    requires HostsPlaced(w) && w'.hosts == w.hosts[host := h'] && Placed(h'.cfg)
    ensures HostsPlaced(w')
  {
  }

  lemma {:induction false} ReceiveKeepsPlaced(swap: Swap, lib: MathLib, w: World, s: Step, w': World)
    requires WorldInv(w) && Next(swap, lib, w, s, w') && s.Receive? && HostsPlaced(w)
    ensures HostsPlaced(w')
  {
    var nc, h' := ReceiveOf(swap, lib, w, s, w');
    SameWireLiveOf(w, s, nc);
    ReceiveKeeps(swap, lib, s.host, w.hosts[s.host], w.clock, s.pkt.ptype, nc, h', s.sent);
    ReactionKeepsPlaced(w, s.host, h', w');
  }

  lemma {:induction false} CleanupKeepsPlaced(swap: Swap, lib: MathLib, w: World, s: Step, w': World)
    requires WorldInv(w) && Next(swap, lib, w, s, w') && s.Cleanup? && HostsPlaced(w)
    ensures HostsPlaced(w')
  {
    var h' := CleanupOf(swap, lib, w, s, w');
    CleanupKeeps(lib, s.host, w.hosts[s.host], w.clock, h', s.sent, s.delivered);
    ReactionKeepsPlaced(w, s.host, h', w');
  }

  lemma {:induction false} StepKeepsPlaced(swap: Swap, lib: MathLib, w: World, s: Step, w': World)
    requires WorldInv(w) && Next(swap, lib, w, s, w') && PlacingStep(s) && HostsPlaced(w)
    ensures HostsPlaced(w')
  {
    if s.Receive? {
      ReceiveKeepsPlaced(swap, lib, w, s, w');
    } else if s.Cleanup? {
      CleanupKeepsPlaced(swap, lib, w, s, w');
    } else if s.Join? {
      ReactionKeepsPlaced(w, s.host, Initial(s.cfg, w.clock), w');
    } else if s.Local? {
      ReactionKeepsPlaced(w, s.host, Handled(w.hosts[s.host], s.lr), w');
    }
  }

  lemma {:induction false} SameWireLiveOf(w: World, s: Step, nc: seq<Node>)
    requires WorldInv(w) && s.Receive? && s.pkt in w.net && SameWire(nc, s.pkt.nodes)
    ensures AllLive(nc)
  {
    assert PacketInv(w, s.pkt);
    SameWireLive(nc, s.pkt.nodes);
  }

  lemma {:induction false} AlwaysPlaced(swap: Swap, lib: MathLib, ws: seq<World>, steps: seq<Step>, i: nat)
    requires Run(swap, lib, ws, steps) && AllPlaced(ws, steps) && i < |ws|
    ensures HostsPlaced(ws[i])
    decreases i
  {
    if i > 0 {
      AlwaysPlaced(swap, lib, ws, steps, i - 1);
      RunKeepsPlaced(swap, lib, ws, steps, i - 1);
    }
  }

  lemma {:induction false} RunKeepsPlaced(swap: Swap, lib: MathLib, ws: seq<World>, steps: seq<Step>, k: nat)
    requires Run(swap, lib, ws, steps) && AllPlaced(ws, steps) && k < |steps| && HostsPlaced(ws[k])
    ensures HostsPlaced(ws[k + 1])
  {
    RunInvariant(swap, lib, ws, steps, k);
    StepKeepsPlaced(swap, lib, ws[k], steps[k], ws[k + 1]);
  }

  lemma {:induction false} RecordsEncodable(swap: Swap, lib: MathLib, ws: seq<World>, steps: seq<Step>, i: nat, x: Node)
    requires Run(swap, lib, ws, steps) && AllPlaced(ws, steps) && i < |ws| && InWorld(ws[i], x)
    ensures Encodable(x)
  {
    EveryRecordOriginates(swap, lib, ws, steps, i, x);
    var j :| 0 <= j < i && PublishedIn(ws[j], steps[j], x);
    var host :| host in ws[j].hosts && Publishes(steps[j], host) && x == OwnNode(ws[j].hosts[host].cfg, ws[j].clock);
    AlwaysPlaced(swap, lib, ws, steps, j);
  }

  /** The collection a packet carries. */
  function Payload(p: Packet): Collection {
    Collection(VERSION_ID, p.ptype, p.nodes)
  }

  lemma {:induction false} PacketEncodable(swap: Swap, lib: MathLib, ws: seq<World>, steps: seq<Step>, i: nat,
                                           p: Packet)
    requires Run(swap, lib, ws, steps) && AllPlaced(ws, steps) && i < |ws| && p in ws[i].net
    ensures AllEncodable(p.nodes)
  {
    forall k | 0 <= k < |p.nodes|
      ensures Encodable(p.nodes[k])
    {
      WireIn(p.nodes, p.nodes[k]);
      RecordsEncodable(swap, lib, ws, steps, i, p.nodes[k].Wire());
    }
  }

  /** What a node with tables of these sizes sends fits the receive buffer. */
  predicate SmallTables(cfg: Config) {
    cfg.n <= 862 && cfg.k <= 861
  }

  lemma {:induction false} FitsIff(c: Collection)
    requires AllEncodable(c.nodes)
    ensures |PackedBytes(c)| <= MAX_PAYLOAD_BYTESIZE <==> |c.nodes| <= 862
    ensures |c.nodes| <= 862 ==> |PackedBytes(c)| <= 32761
  {
  }

  lemma {:induction false} WireOfShaped(s: seq<Node>)
    requires forall n :: n in s ==> n.utility == 0.0
    ensures OnWire(s) == s
  {
    forall i | 0 <= i < |s|
      ensures s[i].Wire() == s[i]
    {
      assert s[i] in s;
    }
  }

  /** In every run, whatever is in flight from a node with small tables is at most 32761 bytes on
      the wire, fits the receive buffer, and is unpacked as exactly the collection that was sent;
      Python reads the same collection. */
  lemma {:induction false} DatagramsArriveIntact(swap: Swap, lib: MathLib, ws: seq<World>, steps: seq<Step>, i: nat,
                                                 p: Packet)
    requires Run(swap, lib, ws, steps) && AllPlaced(ws, steps) && i < |ws| && p in ws[i].net
    requires p.from in ws[i].hosts ==> SmallTables(ws[i].hosts[p.from].cfg)
    ensures AllEncodable(p.nodes)
    ensures |PackedBytes(Payload(p))| <= 32761 < MAX_PAYLOAD_BYTESIZE
    ensures WellSized(PackedBytes(Payload(p))) && Unpacked(PackedBytes(Payload(p))) == Payload(p)
    ensures PythonWire.PyUnpacked(PackedBytes(Payload(p))).Some?
    ensures TwoCodecs.SameCollection(Payload(p), PythonWire.PyUnpacked(PackedBytes(Payload(p))).value)
  {
    RunInvariant(swap, lib, ws, steps, i);
    assert PacketInv(ws[i], p);
    PacketEncodable(swap, lib, ws, steps, i, p);
    FitsIff(Payload(p));
    UnpackPack(Payload(p));
    WireOfShaped(p.nodes);
    TwoCodecs.PythonReadsPacked(Payload(p));
  }

  // ----- The layout, byte by byte -----

  /** A number in network byte order. */
  predicate NumberAt(b: seq<U8>, lo: nat, hi: nat, v: nat) {
    lo <= hi <= |b| && FromBigEndian(b[lo..hi]) == v
  }

  /** The pattern of a double that denotes this number. */
  predicate DoubleAt(b: seq<U8>, lo: nat, f: real) {
    lo + 8 <= |b| && var p := FromBigEndian(b[lo..lo + 8]); p < 0x1_0000_0000_0000_0000 && StandardValue(p) == f
  }

  /** Where the fields of a record are, in a datagram in which it starts at `o`. */
  predicate RecordAt(b: seq<U8>, o: nat, n: Node) {
    && NumberAt(b, o, o + 4, n.nodeID)
    && DoubleAt(b, o + 4, n.lat) && DoubleAt(b, o + 12, n.lon)
    && NumberAt(b, o + 20, o + 22, n.coordRange)
    && NumberAt(b, o + 22, o + 26, n.ipAddr) && NumberAt(b, o + 26, o + 28, n.port)
    && NumberAt(b, o + 28, o + 32, n.radacIp) && NumberAt(b, o + 32, o + 34, n.radacPort)
    && NumberAt(b, o + 34, o + 38, n.timeStamp)
  }

  /** Version 1, type and count in the first five bytes, then 38 bytes per record. */
  predicate LaidOut(b: seq<U8>, ptype: U8, nodes: seq<Node>) {
    && |b| == 5 + 38 * |nodes|
    && b[0] == 0 && b[1] == 1 && b[2] == ptype && NumberAt(b, 3, 5, |nodes|)
    && forall i :: 0 <= i < |nodes| ==> RecordAt(b, 5 + 38 * i, nodes[i])
  }

  lemma {:induction false} PacketIsLaidOut(p: Packet)
    requires AllEncodable(p.nodes) && |p.nodes| < 0x1_0000
    ensures LaidOut(PackedBytes(Payload(p)), p.ptype, p.nodes)
  {
    var b := PackedBytes(Payload(p));
    HeaderIsLaidOut(b, Payload(p));
    assert b[5..] == NodesBytes(p.nodes);
    RecordsAreLaidOut(b, p.nodes);
  }

  lemma {:induction false} HeaderIsLaidOut(b: seq<U8>, c: Collection)
    requires |c.nodes| < 0x1_0000 && |b| >= 5 && b[..5] == HeaderBytes(c) && c.versionID == 1
    ensures b[0] == 0 && b[1] == 1 && b[2] == c.ptype && NumberAt(b, 3, 5, |c.nodes|)
  {
    HeaderReadBack(b, c);
    VersionBytes(b);
    assert b[3..5] == b[3..3 + 2];
  }

  lemma {:induction false} RecordsAreLaidOut(b: seq<U8>, s: seq<Node>)
    requires AllEncodable(s) && |b| == Offset(|s|) && b[5..] == NodesBytes(s)
    ensures forall i :: 0 <= i < |s| ==> RecordAt(b, 5 + 38 * i, s[i])
  {
    forall i | 0 <= i < |s|
      ensures RecordAt(b, 5 + 38 * i, s[i])
    {
      NodeReadBackAt(b, s, i);
      NodesBytesAt(s, i);
      SliceFrom(b, 38 * i, 38);
      RecordIsLaidOut(b, Offset(i), s[i]);
    }
  }

  lemma {:induction false} SliceFrom(b: seq<U8>, o: nat, n: nat)
    requires 5 + o + n <= |b|
    ensures b[5 + o..5 + o + n] == b[5..][o..o + n]
  {
    var s, t := b[5 + o..5 + o + n], b[5..][o..o + n];
    forall k | 0 <= k < n
      ensures s[k] == t[k]
    {
      assert t[k] == b[5..][o + k] == b[5 + (o + k)];
    }
  }

  lemma {:induction false} VersionBytes(b: seq<U8>)
    requires |b| >= 5 && UnpackU16(b, 0) == 1
    ensures b[0] == 0 && b[1] == 1
  {
    Horner([], b[0]);
    Horner([b[0]], b[1]);
    assert b[0..2] == [b[0]] + [b[1]] && [] + [b[0]] == [b[0]];
  }

  lemma {:induction false} RecordIsLaidOut(b: seq<U8>, o: nat, n: Node)
    requires o + 38 <= |b| && Encodable(n) && b[o..o + 38] == NodeBytes(n) && NodeAt(b, o) == n.Wire()
    ensures RecordAt(b, o, n)
  {
    var w := n.Wire();
    assert w.nodeID == n.nodeID && w.coordRange == n.coordRange && w.timeStamp == n.timeStamp;
    assert w.ipAddr == n.ipAddr && w.port == n.port && w.radacIp == n.radacIp && w.radacPort == n.radacPort;
    PatternsAt(b, o, n);
    TwoCodecs.NumberOf(n.lat);
    TwoCodecs.NumberOf(n.lon);
  }

  lemma {:induction false} PatternsAt(b: seq<U8>, o: nat, n: Node)
    requires o + 38 <= |b| && Encodable(n) && b[o..o + 38] == NodeBytes(n)
    ensures UnpackU64(b, o + 4) == Encode(n.lat) && UnpackU64(b, o + 12) == Encode(n.lon)
  {
    var t := NodeTail(n);
    Split(b, o, BigEndian(4, n.nodeID), t[1]);
    Split(b, o + 4, BigEndian(8, Encode(n.lat)), t[2]);
    Split(b, o + 12, BigEndian(8, Encode(n.lon)), t[3]);
    Powers();
    BigEndianRoundTrip(8, Encode(n.lat));
    BigEndianRoundTrip(8, Encode(n.lon));
  }

  /** In every run with zero or normal coordinates and small tables, whatever is in flight is laid out
      so, field by field. */
  lemma {:induction false} DatagramsAreLaidOut(swap: Swap, lib: MathLib, ws: seq<World>, steps: seq<Step>, i: nat,
                                               p: Packet)
    requires Run(swap, lib, ws, steps) && AllPlaced(ws, steps) && i < |ws| && p in ws[i].net
    requires p.from in ws[i].hosts ==> SmallTables(ws[i].hosts[p.from].cfg)
    ensures AllEncodable(p.nodes) && LaidOut(PackedBytes(Payload(p)), p.ptype, p.nodes)
  {
    RunInvariant(swap, lib, ws, steps, i);
    assert PacketInv(ws[i], p);
    PacketEncodable(swap, lib, ws, steps, i, p);
    PacketIsLaidOut(p);
  }

  /** On the wire: a datagram whose third byte is 1 is answered by one whose third byte is 0, 3 is
      answered by 2, and nothing else by anything. */
  lemma {:induction false} ThirdByteDecides(swap: Swap, lib: MathLib, ws: seq<World>, steps: seq<Step>, i: nat)
    requires Run(swap, lib, ws, steps) && AllPlaced(ws, steps) && i < |steps| && steps[i].Receive?
    ensures AllEncodable(steps[i].pkt.nodes) && forall p :: p in steps[i].sent ==> AllEncodable(p.nodes)
    ensures var t := PackedBytes(Payload(steps[i].pkt))[2];
            && |steps[i].sent| == (if t == 1 || t == 3 then 1 else 0)
            && (t == 1 ==> PackedBytes(Payload(steps[i].sent[0]))[2] == 0)
            && (t == 3 ==> PackedBytes(Payload(steps[i].sent[0]))[2] == 2)
  {
    var s := steps[i];
    var nc, h' := ReceiveOf(swap, lib, ws[i], s, ws[i + 1]);
    PacketEncodable(swap, lib, ws, steps, i, s.pkt);
    TypeByte(s.pkt);
    AnswersGoBack(swap, lib, ws, steps, i);
    forall p | p in s.sent
      ensures AllEncodable(p.nodes) && PackedBytes(Payload(p))[2] == p.ptype
    {
      assert p in ws[i + 1].net;
      PacketEncodable(swap, lib, ws, steps, i + 1, p);
      TypeByte(p);
    }
  }

  lemma {:induction false} TypeByte(p: Packet)
    requires AllEncodable(p.nodes)
    ensures PackedBytes(Payload(p))[2] == p.ptype
  {
    var c := Payload(p);
    assert HeaderBytes(c)[2] == BigEndian(1, c.ptype)[0] == c.ptype;
  }
}
