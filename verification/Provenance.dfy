/** Where records come from, over whole runs, and when they are gone. */
module Provenance {
  import opened Collections
  import opened Records
  import opened Dedup
  import opened Geometry
  import opened TableSpec
  import opened Merging
  import opened Steps
  import opened HostLaws
  import opened Network

  // ----- The flow of records through one reaction -----

  /** The records of a collection as a peer would see them. */
  function Wires(s: seq<Node>): set<Node> {
    set n | n in s :: n.Wire()
  }

  /** Everything a node holds in its two tables. */
  function Known(h: HostState): set<Node> {
    Wires(h.rn) + Wires(h.im)
  }

  lemma {:induction false} WireIn(s: seq<Node>, n: Node)
    requires n in s
    ensures n.Wire() in Wires(s)
  {
  }

  lemma {:induction false} WiresWithin(s: seq<Node>, t: seq<Node>)
    requires forall n :: n in s ==> n in t
    ensures Wires(s) <= Wires(t)
  {
  }

  lemma {:induction false} WiresOfSum(s: seq<Node>, t: seq<Node>)
    ensures Wires(s + t) == Wires(s) + Wires(t)
  {
    forall x
      ensures x in Wires(s + t) <==> x in Wires(s) + Wires(t)
    {
      if x in Wires(s + t) {
        var n :| n in s + t && n.Wire() == x;
        assert n in s || n in t;
      }
      if x in Wires(s) {
        var n :| n in s && n.Wire() == x;
        assert n in s + t;
      }
      if x in Wires(t) {
        var n :| n in t && n.Wire() == x;
        assert n in s + t;
      }
    }
  }

  lemma {:induction false} SameWireWires(s: seq<Node>, t: seq<Node>)
    requires SameWire(s, t)
    ensures Wires(s) == Wires(t)
  {
    forall x
      ensures x in Wires(s) <==> x in Wires(t)
    {
      if x in Wires(s) {
        var i :| 0 <= i < |s| && s[i].Wire() == x;
        assert t[i] in t;
      }
      if x in Wires(t) {
        var i :| 0 <= i < |t| && t[i].Wire() == x;
        assert s[i] in s;
      }
    }
  }

  lemma {:induction false} OnWireWires(s: seq<Node>)
    ensures Wires(OnWire(s)) == Wires(s)
  {
    assert SameWire(OnWire(s), s);
    SameWireWires(OnWire(s), s);
  }

  lemma {:induction false} ScoredWires(lib: MathLib, from: Node, s: seq<Node>)
    ensures Wires(Scored(lib, from, s)) == Wires(s)
  {
    ScoredFacts(lib, from, s);
    SameWireWires(Scored(lib, from, s), s);
  }

  lemma {:induction false} MergedWires(own: U32, a: seq<Node>, b: seq<Node>, r: seq<Node>)
    requires Merged(own, a, b, r)
    ensures Wires(r) <= Wires(a) + Wires(b)
  {
    WiresOfSum(a, b);
    WiresWithin(r, a + b);
  }

  lemma {:induction false} SendsWires(sel: seq<Node>, im: seq<Node>)
    requires forall n :: n in sel ==> Sends(im, n)
    ensures Wires(sel) <= Wires(im)
  {
    forall n | n in sel
      ensures n.Wire() in Wires(im)
    {
      var m :| m in im && m.Wire() == n.Wire();
    }
  }

  lemma {:induction false} RandomReceivedFlow(swap: Swap, lib: MathLib, h: HostState, now: U32, nc: seq<Node>,
                                              rn1: seq<Node>, h': HostState)
    requires h.cfg.id != 0 && RandomReceived(swap, lib, h, now, nc, rn1, h')
    ensures Known(h') <= Known(h) + Wires(nc)
  {
    RandomMergeKeeps(swap, h.cfg.id, 2 * h.cfg.n, h.rn, nc, rn1);
    MergedWires(h.cfg.id, h.rn, nc, rn1);
    ScoredWires(lib, InternalNode(h.cfg, now), rn1);
    ImportantMergeKeeps(swap, h.cfg.id, h.cfg.k, h.im, h.imMax, h'.rn, h'.im, h'.imMax);
    MergedWires(h.cfg.id, h.im, h'.rn, h'.im);
  }

  lemma {:induction false} ImportantReceivedFlow(swap: Swap, lib: MathLib, h: HostState, now: U32, nc: seq<Node>,
                                                 h': HostState)
    requires h.cfg.id != 0 && ImportantReceived(swap, lib, h, now, nc, h')
    ensures Known(h') <= Known(h) + Wires(nc)
  {
    var scored := Scored(lib, InternalNode(h.cfg, now), nc);
    ScoredWires(lib, InternalNode(h.cfg, now), nc);
    ImportantMergeKeeps(swap, h.cfg.id, h.cfg.k, h.im, h.imMax, scored, h'.im, h'.imMax);
    MergedWires(h.cfg.id, h.im, scored, h'.im);
  }

  lemma {:induction false} MessageWires(h: HostState, now: U32, body: seq<Node>)
    requires Wires(body) <= Known(h)
    ensures Wires(OnWire([OwnNode(h.cfg, now)] + body)) <= Known(h) + {OwnNode(h.cfg, now)}
  {
    var own := OwnNode(h.cfg, now);
    OnWireWires([own] + body);
    WiresOfSum([own], body);
    assert own.Wire() == own;
  }

  lemma {:induction false} RandomPacketFlow(host: nat, h: HostState, now: U32, ptype: U8, peer: Node)
    ensures Wires(RandomPacket(host, h, now, ptype, peer).nodes) <= Known(h) + {OwnNode(h.cfg, now)}
  {
    var body := if |h.rn| > 1 then h.rn[..|h.rn| - 1] else [];
    WiresWithin(body, h.rn);
    assert RandomMessage(OwnNode(h.cfg, now), h.rn) == [OwnNode(h.cfg, now)] + body;
    MessageWires(h, now, body);
  }

  lemma {:induction false} ImportantSentFlow(lib: MathLib, host: nat, h: HostState, now: U32, ptype: U8, peer: Node,
                                             pkt: Packet)
    requires DistinctIDs(h.im) && ImportantSent(lib, host, h, now, ptype, peer, pkt)
    ensures Wires(pkt.nodes) <= Known(h) + {OwnNode(h.cfg, now)}
  {
    var sel :| Selected(lib, h.cfg.k, h.im, peer, sel) && pkt == ImportantPacket(host, h, now, ptype, peer, sel);
    TopKForPeer(lib, h.cfg.k, h.im, peer, sel);
    SendsWires(sel, h.im);
    MessageWires(h, now, sel);
  }

  /** Does this type of message ask for a reply? */
  predicate AsksReply(ptype: U8) {
    ptype == RND_REQ || ptype == IMP_REQ
  }

  lemma {:induction false} ReceiveFlow(swap: Swap, lib: MathLib, host: nat, h: HostState, now: U32, ptype: U8,
                                       nc: seq<Node>, h': HostState, sent: seq<Packet>)
    requires h.cfg.id != 0 && ReceiveStep(swap, lib, host, h, now, ptype, nc, h', sent)
    ensures Known(h') <= Known(h) + Wires(nc)
  {
    if ptype == RND_NOREQ || ptype == RND_REQ {
      var rn1 :| RandomReceived(swap, lib, h, now, nc, rn1, h');
      RandomReceivedFlow(swap, lib, h, now, nc, rn1, h');
    } else if ptype == IMP_NOREQ || ptype == IMP_REQ {
      ImportantReceivedFlow(swap, lib, h, now, nc, h');
    }
  }

  /** The packets name only what the node holds, and itself. */
  ghost predicate SentFrom(h: HostState, now: U32, sent: seq<Packet>) {
    forall p :: p in sent ==> Wires(p.nodes) <= Known(h) + {OwnNode(h.cfg, now)}
  }

  lemma {:induction false} ReplyFlow(swap: Swap, lib: MathLib, host: nat, h: HostState, now: U32, ptype: U8,
                                     nc: seq<Node>, h': HostState, sent: seq<Packet>)
    requires DistinctIDs(h.im) && ReceiveStep(swap, lib, host, h, now, ptype, nc, h', sent)
    ensures SentFrom(h, now, sent)
    ensures sent != [] ==> AsksReply(ptype)
  {
    ReceiveReplies(swap, lib, host, h, now, ptype, nc, h', sent);
    RepliedFlow(lib, host, h, now, ptype, nc[0], sent);
  }

  lemma {:induction false} RepliedFlow(lib: MathLib, host: nat, h: HostState, now: U32, ptype: U8, peer: Node,
                                       sent: seq<Packet>)
    requires DistinctIDs(h.im) && Replied(lib, host, h, now, ptype, peer, sent)
    ensures SentFrom(h, now, sent)
    ensures sent != [] ==> AsksReply(ptype)
  {
    if ptype == RND_REQ {
      RandomPacketFlow(host, h, now, RND_NOREQ, peer);
    } else if ptype == IMP_REQ {
      ImportantSentFlow(lib, host, h, now, IMP_NOREQ, peer, sent[0]);
    }
  }

  lemma {:induction false} CleanedFlow(h: HostState, now: U32, h': HostState)
    requires HostInv(h) && Cleaned(h, now, h')
    ensures Known(h') <= Known(h)
  {
    ExpiryKeepsTheNew(h, now, h');
    WiresWithin(h'.rn, h.rn);
    WiresWithin(h'.im, h.im);
  }

  lemma {:induction false} RequestsFlow(lib: MathLib, host: nat, h: HostState, now: U32, sent: seq<Packet>)
    requires HostInv(h) && RequestsToPeers(lib, host, h, now, sent)
    ensures SentFrom(h, now, sent)
  {
    RandomRequestFlow(lib, host, h, now, sent);
    if h.im != [] {
      ImportantRequestFlow(lib, host, h, now, sent);
    }
    forall p | p in sent
      ensures Wires(p.nodes) <= Known(h) + {OwnNode(h.cfg, now)}
    {
      var i :| 0 <= i < |sent| && sent[i] == p;
    }
  }

  lemma {:induction false} RandomRequestFlow(lib: MathLib, host: nat, h: HostState, now: U32, sent: seq<Packet>)
    requires RequestsToPeers(lib, host, h, now, sent)
    ensures Wires(sent[0].nodes) <= Known(h) + {OwnNode(h.cfg, now)}
  {
    if h.rn == [] {
      assert [OwnNode(h.cfg, now)] + [] == [OwnNode(h.cfg, now)];
      MessageWires(h, now, []);
    } else {
      var peer :| peer in h.rn && peer.nodeID != h.cfg.id && sent[0] == RandomPacket(host, h, now, RND_REQ, peer);
      RandomPacketFlow(host, h, now, RND_REQ, peer);
    }
  }

  lemma {:induction false} ImportantRequestFlow(lib: MathLib, host: nat, h: HostState, now: U32, sent: seq<Packet>)
    requires HostInv(h) && RequestsToPeers(lib, host, h, now, sent) && h.im != []
    ensures Wires(sent[1].nodes) <= Known(h) + {OwnNode(h.cfg, now)}
  {
    var r :| 0 <= r < PeerRange(h.im) && r < |h.im| && ImportantSent(lib, host, h, now, IMP_REQ, h.im[r], sent[1]);
    ImportantSentFlow(lib, host, h, now, IMP_REQ, h.im[r], sent[1]);
  }

  // ----- The flow through one step of the world -----

  /** Is the record in some table or in flight? */
  ghost predicate InWorld(w: World, x: Node) {
    || (exists host :: host in w.hosts && x in Known(w.hosts[host]))
    || (exists p :: p in w.net && x in Wires(p.nodes))
  }

  /** Does this step make the node publish its own record? Answering a request and cleaning up do. */
  predicate Publishes(s: Step, host: nat) {
    || (s.Receive? && s.host == host && AsksReply(s.pkt.ptype))
    || (s.Cleanup? && s.host == host)
  }

  ghost predicate PublishedIn(w: World, s: Step, x: Node) {
    exists host :: host in w.hosts && Publishes(s, host) && x == OwnNode(w.hosts[host].cfg, w.clock)
  }

  /** One node reacts: what is new in the world is at most its own record. */
  lemma {:induction false} ReactionFlow(w: World, host: nat, h': HostState, net': multiset<Packet>, sent: seq<Packet>,
                                        x: Node)
    requires host in w.hosts
    requires forall y :: y in Known(h') ==> InWorld(w, y)
    requires forall p :: p in net' ==> p in w.net || p in sent
    requires SentFrom(w.hosts[host], w.clock, sent)
    requires InWorld(w.(hosts := w.hosts[host := h'], net := net'), x)
    ensures InWorld(w, x) || (sent != [] && x == OwnNode(w.hosts[host].cfg, w.clock))
  {
    var w' := w.(hosts := w.hosts[host := h'], net := net');
    if p :| p in w'.net && x in Wires(p.nodes) {
      if p !in w.net {
        assert x in Known(w.hosts[host]) + {OwnNode(w.hosts[host].cfg, w.clock)};
      }
    } else {
      var g :| g in w'.hosts && x in Known(w'.hosts[g]);
    }
  }

  lemma {:induction false} ReceiveStepFlow(swap: Swap, lib: MathLib, w: World, s: Step, w': World, x: Node)
    requires WorldInv(w) && Next(swap, lib, w, s, w') && s.Receive? && InWorld(w', x)
    ensures InWorld(w, x) || PublishedIn(w, s, x)
  {
    var nc, h' := ReceiveOf(swap, lib, w, s, w');
    ReceivedFlow(swap, lib, w, s, nc, h');
    ReactionFlow(w, s.host, h', w'.net, s.sent, x);
    assert s.sent != [] ==> Publishes(s, s.host);
  }

  lemma {:induction false} ReceivedFlow(swap: Swap, lib: MathLib, w: World, s: Step, nc: seq<Node>, h': HostState)
    requires WorldInv(w) && s.Receive? && s.host in w.hosts && s.pkt in w.net
    requires Received(swap, lib, s.host, w.hosts[s.host], w.clock, s.pkt, nc, h', s.sent)
    ensures forall y :: y in Known(h') ==> InWorld(w, y)
    ensures SentFrom(w.hosts[s.host], w.clock, s.sent)
    ensures s.sent != [] ==> AsksReply(s.pkt.ptype)
  {
    var h := w.hosts[s.host];
    ReceiveFlow(swap, lib, s.host, h, w.clock, s.pkt.ptype, nc, h', s.sent);
    ReplyFlow(swap, lib, s.host, h, w.clock, s.pkt.ptype, nc, h', s.sent);
    SameWireWires(nc, s.pkt.nodes);
  }

  lemma {:induction false} CleanupStepFlow(swap: Swap, lib: MathLib, w: World, s: Step, w': World, x: Node)
    requires WorldInv(w) && Next(swap, lib, w, s, w') && s.Cleanup? && InWorld(w', x)
    ensures InWorld(w, x) || PublishedIn(w, s, x)
  {
    var h' := CleanupOf(swap, lib, w, s, w');
    var h := w.hosts[s.host];
    CleanupFlow(lib, s.host, h, w.clock, h', s.sent, s.delivered);
    ReactionFlow(w, s.host, h', w'.net, s.sent, x);
    assert Publishes(s, s.host);
  }

  lemma {:induction false} CleanupFlow(lib: MathLib, host: nat, h: HostState, now: U32, h': HostState,
                                       sent: seq<Packet>, delivered: Option<Dispatch>)
    requires HostInv(h) && CleanupStep(lib, host, h, now, h', sent, delivered)
    ensures Known(h') <= Known(h)
    ensures SentFrom(h, now, sent) && SentFrom(h', now, sent)
  {
    CleanupKeeps(lib, host, h, now, h', sent, delivered);
    CleanedFlow(h, now, h');
    RequestsFlow(lib, host, h', now, sent);
  }

  /** One table holds nothing new, and no new datagram appears. */
  lemma {:induction false} NothingNew(w: World, host: nat, h': HostState, w': World, x: Node)
    requires w'.hosts == w.hosts[host := h'] && w'.net == w.net && InWorld(w', x)
    requires Known(h') <= if host in w.hosts then Known(w.hosts[host]) else {}
    ensures InWorld(w, x)
  {
    if p :| p in w'.net && x in Wires(p.nodes) {
      assert p in w.net;
    } else {
      var g :| g in w'.hosts && x in Known(w'.hosts[g]);
    }
  }

  lemma {:induction false} TrafficFlow(w: World, w': World, x: Node)
    requires w'.hosts == w.hosts && (forall p :: p in w'.net ==> p in w.net) && InWorld(w', x)
    ensures InWorld(w, x)
  {
    if p :| p in w'.net && x in Wires(p.nodes) {
      assert p in w.net;
    }
  }

  lemma {:induction false} QuietStepFlow(swap: Swap, lib: MathLib, w: World, s: Step, w': World, x: Node)
    requires Next(swap, lib, w, s, w') && !s.Receive? && !s.Cleanup? && InWorld(w', x)
    ensures InWorld(w, x)
  {
    if s.Local? {
      NothingNew(w, s.host, Handled(w.hosts[s.host], s.lr), w', x);
    } else if s.Join? {
      NothingNew(w, s.host, Initial(s.cfg, w.clock), w', x);
    } else {
      TrafficFlow(w, w', x);
    }
  }

  lemma {:induction false} StepFlow(swap: Swap, lib: MathLib, w: World, s: Step, w': World, x: Node)
    requires WorldInv(w) && Next(swap, lib, w, s, w') && InWorld(w', x)
    ensures InWorld(w, x) || PublishedIn(w, s, x)
  {
    if s.Receive? {
      ReceiveStepFlow(swap, lib, w, s, w', x);
    } else if s.Cleanup? {
      CleanupStepFlow(swap, lib, w, s, w', x);
    } else {
      QuietStepFlow(swap, lib, w, s, w', x);
    }
  }

  // ----- Provenance over whole runs -----

  /** Before world `i` some node published exactly this record about itself. */
  ghost predicate Originates(ws: seq<World>, steps: seq<Step>, i: nat, x: Node)
    requires |ws| == |steps| + 1 && i < |ws|
  {
    exists j :: 0 <= j < i && PublishedIn(ws[j], steps[j], x)
  }

  /** In every run, every record in any table or in flight is, up to the cached utility, one that
      the node with that ID published about itself: nothing is invented and no two records are
      ever mixed, whatever the interleaving, loss, duplication and reordering. This holds for the
      code as it is and for the documented swap alike. */
  lemma {:induction false} EveryRecordOriginates(swap: Swap, lib: MathLib, ws: seq<World>, steps: seq<Step>, i: nat,
                                                 x: Node)
    requires Run(swap, lib, ws, steps) && i < |ws| && InWorld(ws[i], x)
    ensures Originates(ws, steps, i, x)
    decreases i
  {
    if i == 0 {
      NothingAtStart(ws[0], x);
    } else {
      var k := i - 1;
      RunFlow(swap, lib, ws, steps, k, x);
      if InWorld(ws[k], x) {
        EveryRecordOriginates(swap, lib, ws, steps, k, x);
        var j :| 0 <= j < k && PublishedIn(ws[j], steps[j], x);
        assert 0 <= j < i;
      }
    }
  }

  lemma {:induction false} RunFlow(swap: Swap, lib: MathLib, ws: seq<World>, steps: seq<Step>, k: nat, x: Node)
    requires Run(swap, lib, ws, steps) && k < |steps| && InWorld(ws[k + 1], x)
    ensures InWorld(ws[k], x) || PublishedIn(ws[k], steps[k], x)
  {
    RunInvariant(swap, lib, ws, steps, k);
    StepFlow(swap, lib, ws[k], steps[k], ws[k + 1], x);
  }

  lemma {:induction false} NothingAtStart(w: World, x: Node)
    requires Start(w)
    ensures !InWorld(w, x)
  {
    forall host | host in w.hosts
      ensures x !in Known(w.hosts[host])
    {
      var cfg: Config :| cfg.Sound() && w.hosts[host] == Initial(cfg, w.clock);
    }
  }

  /** What the origin of a record says: a node with that ID exists and no timestamp is ahead of
      the clock. */
  lemma {:induction false} OriginFacts(swap: Swap, lib: MathLib, ws: seq<World>, steps: seq<Step>, i: nat, x: Node)
    requires Run(swap, lib, ws, steps) && i < |ws| && InWorld(ws[i], x)
    ensures exists host :: host in ws[i].hosts && ws[i].hosts[host].cfg.id == x.nodeID
    ensures x.timeStamp <= ws[i].clock
  {
    EveryRecordOriginates(swap, lib, ws, steps, i, x);
    var j :| 0 <= j < i && PublishedIn(ws[j], steps[j], x);
    RunAdvances(swap, lib, ws, steps, j, i);
    var host :| host in ws[j].hosts && Publishes(steps[j], host) && x == OwnNode(ws[j].hosts[host].cfg, ws[j].clock);
    assert ws[i].hosts[host].cfg.Fixed().id == ws[j].hosts[host].cfg.Fixed().id;
  }

  /** The first record of the packet is one that its sender published about itself earlier. */
  ghost predicate Signed(ws: seq<World>, steps: seq<Step>, i: nat, p: Packet)
    requires |ws| == |steps| + 1 && i < |ws|
  {
    exists j :: 0 <= j < i && SignedAt(ws[j], steps[j], p)
  }

  ghost predicate SignedAt(w: World, s: Step, p: Packet) {
    p.from in w.hosts && Publishes(s, p.from) && OwnOnTop(w.hosts[p.from].cfg, w.clock, p)
  }

  lemma {:induction false} StepSigns(swap: Swap, lib: MathLib, w: World, s: Step, w': World, p: Packet)
    requires WorldInv(w) && Next(swap, lib, w, s, w') && p in w'.net && p !in w.net
    ensures SignedAt(w, s, p)
  {
    if s.Receive? {
      ReceiveSigns(swap, lib, w, s, w', p);
    } else {
      CleanupSigns(swap, lib, w, s, w', p);
    }
  }

  lemma {:induction false} ReceiveSigns(swap: Swap, lib: MathLib, w: World, s: Step, w': World, p: Packet)
    requires WorldInv(w) && Next(swap, lib, w, s, w') && p in w'.net && p !in w.net && s.Receive?
    ensures SignedAt(w, s, p)
  {
    var nc, h' := ReceiveOf(swap, lib, w, s, w');
    assert p in s.sent;
    ReplySigned(swap, lib, w, s, nc, h', p);
  }

  lemma {:induction false} CleanupSigns(swap: Swap, lib: MathLib, w: World, s: Step, w': World, p: Packet)
    requires WorldInv(w) && Next(swap, lib, w, s, w') && p in w'.net && p !in w.net && !s.Receive?
    ensures SignedAt(w, s, p)
  {
    var h' := CleanupOf(swap, lib, w, s, w');
    assert p in s.sent;
    RequestSigned(lib, w, s, h', p);
  }

  lemma {:induction false} RequestSigned(lib: MathLib, w: World, s: Step, h': HostState, p: Packet)
    requires s.Cleanup? && s.host in w.hosts && HostInv(w.hosts[s.host]) && p in s.sent
    requires CleanupStep(lib, s.host, w.hosts[s.host], w.clock, h', s.sent, s.delivered)
    ensures SignedAt(w, s, p)
  {
    CleanupKeeps(lib, s.host, w.hosts[s.host], w.clock, h', s.sent, s.delivered);
  }

  lemma {:induction false} ReplySigned(swap: Swap, lib: MathLib, w: World, s: Step, nc: seq<Node>, h': HostState,
                                       p: Packet)
    requires s.Receive? && s.host in w.hosts && HostInv(w.hosts[s.host]) && p in s.sent
    requires ReceiveStep(swap, lib, s.host, w.hosts[s.host], w.clock, s.pkt.ptype, nc, h', s.sent)
    ensures SignedAt(w, s, p)
  {
    RepliesShaped(swap, lib, s.host, w.hosts[s.host], w.clock, s.pkt.ptype, nc, h', s.sent);
    ReceiveReplies(swap, lib, s.host, w.hosts[s.host], w.clock, s.pkt.ptype, nc, h', s.sent);
    assert AsksReply(s.pkt.ptype);
  }

  /** In every run every datagram in flight starts with a record that its sender, not just any node
      with that ID, published about itself earlier. */
  lemma {:induction false} DatagramsAreSigned(swap: Swap, lib: MathLib, ws: seq<World>, steps: seq<Step>, i: nat,
                                              p: Packet)
    requires Run(swap, lib, ws, steps) && i < |ws| && p in ws[i].net
    ensures Signed(ws, steps, i, p)
    decreases i
  {
    if i > 0 {
      var k := i - 1;
      if p in ws[k].net {
        DatagramsAreSigned(swap, lib, ws, steps, k, p);
        var j :| 0 <= j < k && SignedAt(ws[j], steps[j], p);
      } else {
        RunSigns(swap, lib, ws, steps, k, p);
      }
    }
  }

  lemma {:induction false} RunSigns(swap: Swap, lib: MathLib, ws: seq<World>, steps: seq<Step>, k: nat, p: Packet)
    requires Run(swap, lib, ws, steps) && k < |steps| && p in ws[k + 1].net && p !in ws[k].net
    ensures SignedAt(ws[k], steps[k], p)
  {
    RunInvariant(swap, lib, ws, steps, k);
    StepSigns(swap, lib, ws[k], steps[k], ws[k + 1], p);
  }

  // ----- Ageing out -----

  /** Up to world `i` the ID `p` was last published at time `last`. */
  ghost predicate LastPublished(ws: seq<World>, steps: seq<Step>, i: nat, p: U32, last: int)
    requires |ws| == |steps| + 1 && i < |ws|
  {
    forall j, host :: 0 <= j < i && host in ws[j].hosts && Publishes(steps[j], host) && ws[j].hosts[host].cfg.id == p
                      ==> ws[j].clock <= last
  }

  lemma {:induction false} TimestampBound(swap: Swap, lib: MathLib, ws: seq<World>, steps: seq<Step>, i: nat, p: U32,
                                          last: int, x: Node)
    requires Run(swap, lib, ws, steps) && i < |ws| && InWorld(ws[i], x)
    requires LastPublished(ws, steps, i, p, last) && x.nodeID == p
    ensures x.timeStamp <= last
  {
    EveryRecordOriginates(swap, lib, ws, steps, i, x);
    var j :| 0 <= j < i && PublishedIn(ws[j], steps[j], x);
    var host :| host in ws[j].hosts && Publishes(steps[j], host) && x == OwnNode(ws[j].hosts[host].cfg, ws[j].clock);
  }

  /** The collection of the node `own` names `p` only if that is the node itself, and only on top. */
  ghost predicate NamesOnlyItself(nodes: seq<Node>, own: U32, p: U32) {
    forall k :: 0 <= k < |nodes| && nodes[k].nodeID == p ==> k == 0 && p == own
  }

  /** Once node `p` has been silent for the age limit, any cleanup of any node removes it from both
      tables, and neither the requests nor the subscriber list of that cleanup name it, unless the
      node cleaning up is `p` itself, which then speaks of itself again. */
  lemma {:induction false} SilentNodesAgeOut(swap: Swap, lib: MathLib, ws: seq<World>, steps: seq<Step>, i: nat,
                                             p: U32, last: int)
    requires Run(swap, lib, ws, steps) && i < |steps| && steps[i].Cleanup?
    requires LastPublished(ws, steps, i, p, last)
    requires steps[i].host in ws[i].hosts
    requires ws[i].clock >= last + ws[i].hosts[steps[i].host].cfg.nodeMaxAge
    ensures steps[i].host in ws[i + 1].hosts
    ensures !HasID(ws[i + 1].hosts[steps[i].host].rn, p)
    ensures !HasID(ws[i + 1].hosts[steps[i].host].im, p)
    ensures forall pkt :: pkt in steps[i].sent ==> NamesOnlyItself(pkt.nodes, ws[i].hosts[steps[i].host].cfg.id, p)
    ensures steps[i].delivered.Some? ==>
              NamesOnlyItself(steps[i].delivered.value.nodes, ws[i].hosts[steps[i].host].cfg.id, p)
  {
    RunInvariant(swap, lib, ws, steps, i);
    var s := steps[i];
    var h := ws[i].hosts[s.host];
    var h' := CleanupOf(swap, lib, ws[i], s, ws[i + 1]);
    ExpiryKeepsTheNew(h, ws[i].clock, h');
    forall n | n in h'.rn || n in h'.im
      ensures n.nodeID != p
    {
      if n.nodeID == p {
        assert n.Wire() in Known(h);
        TimestampBound(swap, lib, ws, steps, i, p, last, n.Wire());
      }
    }
    CleanupNames(lib, s.host, h, ws[i].clock, h', s.sent, s.delivered, p);
  }

  /** A cleanup names only nodes that are still in the tables. */
  lemma {:induction false} CleanupNames(lib: MathLib, host: nat, h: HostState, now: U32, h': HostState,
                                        sent: seq<Packet>, delivered: Option<Dispatch>, p: U32)
    requires HostInv(h) && CleanupStep(lib, host, h, now, h', sent, delivered)
    requires forall n :: n in h'.rn || n in h'.im ==> n.nodeID != p
    ensures !HasID(h'.rn, p) && !HasID(h'.im, p)
    ensures forall pkt :: pkt in sent ==> NamesOnlyItself(pkt.nodes, h.cfg.id, p)
    ensures delivered.Some? ==> NamesOnlyItself(delivered.value.nodes, h.cfg.id, p)
  {
    CleanupKeeps(lib, host, h, now, h', sent, delivered);
    CleanupFlow(lib, host, h, now, h', sent, delivered);
    forall pkt | pkt in sent
      ensures NamesOnlyItself(pkt.nodes, h.cfg.id, p)
    {
      PacketNames(host, h', now, pkt, p);
    }
    if delivered.Some? {
      DeliveredList(lib, host, h, now, h', sent, delivered.value);
      ListNames(OwnNode(h.cfg, now), h'.im, CandidateCount(h'.im), p);
    }
  }

  lemma {:induction false} ListNames(own: Node, im: seq<Node>, n: nat, p: U32)
    requires forall x :: x in im ==> x.nodeID != p
    ensures NamesOnlyItself([own] + Take(im, n), own.nodeID, p)
  {
    var list := [own] + Take(im, n);
    forall k | 1 <= k < |list|
      ensures list[k].nodeID != p
    {
      assert list[k] == im[k - 1];
    }
  }

  lemma {:induction false} PacketNames(host: nat, h: HostState, now: U32, pkt: Packet, p: U32)
    requires PacketShape(host, h.cfg, pkt)
    requires Wires(pkt.nodes) <= Known(h) + {OwnNode(h.cfg, now)}
    requires forall n :: n in h.rn || n in h.im ==> n.nodeID != p
    ensures NamesOnlyItself(pkt.nodes, h.cfg.id, p)
  {
    forall k | 1 <= k < |pkt.nodes|
      ensures pkt.nodes[k].nodeID != p
    {
      var x := pkt.nodes[k];
      WireIn(pkt.nodes, x);
      assert pkt.nodes[0].nodeID != x.nodeID;
      assert x.Wire().nodeID == x.nodeID;
      if x.Wire() in Wires(h.rn) {
        var n :| n in h.rn && n.Wire() == x.Wire();
        assert n.Wire().nodeID == n.nodeID;
      } else if x.Wire() in Wires(h.im) {
        var n :| n in h.im && n.Wire() == x.Wire();
        assert n.Wire().nodeID == n.nodeID;
      }
    }
  }
}
