/** The protocol as a peer sees it: what the records say, where the messages go, and which entries
    may be asked. Everything is stated through the fields of configurations, records and packets,
    with payload types and limits as plain numbers. */
module Visible {
  import opened Collections
  import opened Records
  import opened Sorting
  import opened Dedup
  import opened Geometry
  import opened TableSpec
  import opened Merging
  import opened Steps
  import opened HostLaws
  import opened Network
  import opened Provenance

  // ----- What the records say -----

  /** The record tells the ID, place, range and addresses of this configuration, at this time. */
  predicate Describes(x: Node, cfg: Config, now: U32) {
    && x.nodeID == cfg.id && x.timeStamp == now
    && x.lat == cfg.lat && x.lon == cfg.lon && x.coordRange == cfg.coordRange
    && x.ipAddr == cfg.ownIP && x.port == cfg.port
    && x.radacIp == cfg.radacIp && x.radacPort == cfg.radacPort
  }

  lemma {:induction false} OwnNodeDescribes(x: Node, cfg: Config, now: U32)
    requires x.Wire() == OwnNode(cfg, now)
    ensures Describes(x, cfg, now)
  {
    var w := x.Wire();
    assert w.nodeID == x.nodeID && w.lat == x.lat && w.lon == x.lon && w.coordRange == x.coordRange;
    assert w.ipAddr == x.ipAddr && w.port == x.port && w.timeStamp == x.timeStamp;
    assert w.radacIp == x.radacIp && w.radacPort == x.radacPort;
  }

  /** Is the record in a table or in a datagram in flight? */
  ghost predicate Present(w: World, x: Node) {
    || (exists g :: g in w.hosts && (x in w.hosts[g].rn || x in w.hosts[g].im))
    || (exists p :: p in w.net && x in p.nodes)
  }

  lemma {:induction false} PresentInWorld(w: World, x: Node)
    requires Present(w, x)
    ensures InWorld(w, x.Wire())
  {
    if g :| g in w.hosts && (x in w.hosts[g].rn || x in w.hosts[g].im) {
      assert x.Wire() in Known(w.hosts[g]);
    } else {
      var p :| p in w.net && x in p.nodes;
      WireIn(p.nodes, x);
    }
  }

  /** At that world the node had this configuration, and the step made it speak. */
  ghost predicate Spoke(w: World, s: Step, host: nat) {
    && host in w.hosts
    && match s
       case Receive(g, pkt, _) => g == host && (pkt.ptype == 1 || pkt.ptype == 3)
       case Cleanup(g, _, _) => g == host
       case _ => false
  }

  ghost predicate SaidBy(w: World, s: Step, host: nat, x: Node) {
    Spoke(w, s, host) && Describes(x, w.hosts[host].cfg, w.clock)
  }

  /** In every run, every record in a table or in flight tells, field by field, the ID, place, range,
      address and RADAC address that its node had when it published the record: at an earlier world,
      as it answered a request or cleaned up. */
  lemma {:induction false} RecordsDescribeNodes(swap: Swap, lib: MathLib, ws: seq<World>, steps: seq<Step>, i: nat,
                                                x: Node)
    requires Run(swap, lib, ws, steps) && i < |ws| && Present(ws[i], x)
    ensures exists j, host :: 0 <= j < i && SaidBy(ws[j], steps[j], host, x)
  {
    PresentInWorld(ws[i], x);
    EveryRecordOriginates(swap, lib, ws, steps, i, x.Wire());
    var j :| 0 <= j < i && PublishedIn(ws[j], steps[j], x.Wire());
    var host :| host in ws[j].hosts && Publishes(steps[j], host)
                && x.Wire() == OwnNode(ws[j].hosts[host].cfg, ws[j].clock);
    OwnNodeDescribes(x, ws[j].hosts[host].cfg, ws[j].clock);
    assert SaidBy(ws[j], steps[j], host, x);
  }

  /** The first record describes the node that sends. */
  predicate TopDescribes(nodes: seq<Node>, cfg: Config, now: U32) {
    nodes != [] && Describes(nodes[0], cfg, now)
  }

  /** In every run every reply starts with a description of the node that replies. */
  lemma {:induction false} RepliesDescribeSender(swap: Swap, lib: MathLib, ws: seq<World>, steps: seq<Step>, i: nat)
    requires Run(swap, lib, ws, steps) && i < |steps| && steps[i].Receive?
    ensures steps[i].host in ws[i].hosts
    ensures forall p :: p in steps[i].sent ==> TopDescribes(p.nodes, ws[i].hosts[steps[i].host].cfg, ws[i].clock)
  {
    RunInvariant(swap, lib, ws, steps, i);
    var s, w := steps[i], ws[i];
    var nc, h' := ReceiveOf(swap, lib, w, s, ws[i + 1]);
    RepliesShaped(swap, lib, s.host, w.hosts[s.host], w.clock, s.pkt.ptype, nc, h', s.sent);
  }

  /** In every run every request of a cleanup, and every list it delivers, starts with a description
      of the node that cleans up; the list is a collection of version 1 and type 4. */
  lemma {:induction false} CleanupsDescribeSender(swap: Swap, lib: MathLib, ws: seq<World>, steps: seq<Step>, i: nat)
    requires Run(swap, lib, ws, steps) && i < |steps| && steps[i].Cleanup?
    ensures steps[i].host in ws[i].hosts
    ensures forall p :: p in steps[i].sent ==> TopDescribes(p.nodes, ws[i].hosts[steps[i].host].cfg, ws[i].clock)
    ensures steps[i].delivered.Some? ==>
              var d := steps[i].delivered.value;
              d.versionID == 1 && d.ptype == 4 && TopDescribes(d.nodes, ws[i].hosts[steps[i].host].cfg, ws[i].clock)
  {
    RunInvariant(swap, lib, ws, steps, i);
    var s, w := steps[i], ws[i];
    var h' := CleanupOf(swap, lib, w, s, ws[i + 1]);
    CleanupKeeps(lib, s.host, w.hosts[s.host], w.clock, h', s.sent, s.delivered);
    if s.delivered.Some? {
      DeliveredList(lib, s.host, w.hosts[s.host], w.clock, h', s.sent, s.delivered.value);
    }
  }

  // ----- Where the messages go -----

  /** The packet goes to the address the record tells. */
  predicate GoesTo(p: Packet, n: Node) {
    p.destIP == n.ipAddr && p.destPort == n.port
  }

  lemma {:induction false} SameAddress(m: Node, n: Node)
    requires m.Wire() == n.Wire()
    ensures m.ipAddr == n.ipAddr && m.port == n.port
  {
    assert m.Wire().ipAddr == m.ipAddr && n.Wire().ipAddr == n.ipAddr;
    assert m.Wire().port == m.port && n.Wire().port == n.port;
  }

  /** A random message of type 1 is answered by one of type 0, an important one of type 3 by one of
      type 2, no other by any. The answer goes to the address in the first record of the request. */
  ghost predicate AnsweredRight(host: nat, pkt: Packet, sent: seq<Packet>) {
    && (pkt.ptype != 1 && pkt.ptype != 3 ==> sent == [])
    && (pkt.ptype == 1 || pkt.ptype == 3 ==>
          && |sent| == 1 && pkt.nodes != []
          && sent[0].from == host && sent[0].ptype == (if pkt.ptype == 1 then 0 else 2)
          && GoesTo(sent[0], pkt.nodes[0]))
  }

  /** In every run every message is answered so. */
  lemma {:induction false} AnswersGoBack(swap: Swap, lib: MathLib, ws: seq<World>, steps: seq<Step>, i: nat)
    requires Run(swap, lib, ws, steps) && i < |steps| && steps[i].Receive?
    ensures AnsweredRight(steps[i].host, steps[i].pkt, steps[i].sent)
  {
    var s, w := steps[i], ws[i];
    var nc, h' := ReceiveOf(swap, lib, w, s, ws[i + 1]);
    ReceiveReplies(swap, lib, s.host, w.hosts[s.host], w.clock, s.pkt.ptype, nc, h', s.sent);
    SameAddress(nc[0], s.pkt.nodes[0]);
  }

  /** May this entry of the important table be asked? Any while there are fewer than ten; otherwise
      any candidate if there are ten of them, and one of the first nine if not. */
  predicate Eligible(im: seq<Node>, r: int) {
    && 0 <= r < |im|
    && (|im| >= 10 ==> if im[9].utility >= 1.0 then im[r].utility >= 1.0 else r < 9)
  }

  lemma {:induction false} EligibleIff(im: seq<Node>, r: nat)
    requires Descending(ByUtility, im)
    ensures r < PeerRange(im) && r < |im| <==> Eligible(im, r)
  {
    if r < |im| {
      CandidateAt(im, r);
    }
    if |im| >= 10 {
      CandidateAt(im, 9);
    }
  }

  lemma {:induction false} CandidateAt(im: seq<Node>, r: nat)
    requires Descending(ByUtility, im) && r < |im|
    ensures im[r].utility >= 1.0 <==> r < CandidateCount(im)
  {
    var c := Filter(Candidate(), im);
    CandidatePrefix(im);
    FilterMembers(Candidate(), im);
    if r < |c| {
      assert c[r] in c && c[r] == im[r];
    } else if im[r].utility >= 1.0 {
      assert im[r] in im && im[r] in c;
      var q :| 0 <= q < |c| && c[q] == im[r];
      AllAtLeast(im, r);
      PrefixOfCandidates(im, r);
    }
  }

  lemma {:induction false} AllAtLeast(im: seq<Node>, r: nat)
    requires Descending(ByUtility, im) && r < |im| && im[r].utility >= 1.0
    ensures forall n :: n in im[..r + 1] ==> n.utility >= 1.0
  {
    forall n | n in im[..r + 1]
      ensures n.utility >= 1.0
    {
      var q :| 0 <= q < r + 1 && im[..r + 1][q] == n;
      assert q < r ==> Rank(ByUtility, im[q]) >= Rank(ByUtility, im[r]);
    }
  }

  lemma {:induction false} PrefixOfCandidates(im: seq<Node>, r: nat)
    requires r < |im| && forall n :: n in im[..r + 1] ==> n.utility >= 1.0
    ensures CandidateCount(im) > r
  {
    assert im == im[..r + 1] + im[r + 1..];
    FilterConcat(Candidate(), im[..r + 1], im[r + 1..]);
    FilterAll(Candidate(), im[..r + 1]);
  }

  /** The requests of a cleanup, with the tables it leaves: one of type 1 to an entry of the random
      table, or to the configured first peer if that is empty; and one of type 3 to an eligible entry
      of the important table unless that is empty. */
  ghost predicate RequestedRight(host: nat, cfg: Config, rn: seq<Node>, im: seq<Node>, sent: seq<Packet>) {
    && |sent| == (if im == [] then 1 else 2)
    && (forall p :: p in sent ==> p.from == host)
    && sent[0].ptype == 1
    && (rn == [] ==>
          sent[0].destIP == cfg.originPeerIP && sent[0].destPort == cfg.originPeerPort && |sent[0].nodes| == 1)
    && (rn != [] ==> exists n :: n in rn && GoesTo(sent[0], n))
    && (im != [] ==> sent[1].ptype == 3 && exists r :: Eligible(im, r) && GoesTo(sent[1], im[r]))
  }

  lemma {:induction false} RequestsAreRight(lib: MathLib, host: nat, h: HostState, now: U32, sent: seq<Packet>)
    requires HostInv(h) && RequestsToPeers(lib, host, h, now, sent) && Descending(ByUtility, h.im)
    ensures RequestedRight(host, h.cfg, h.rn, h.im, sent)
  {
    RequestsShaped(lib, host, h, now, sent);
    if h.rn != [] {
      var n :| n in h.rn && n.nodeID != h.cfg.id && sent[0] == RandomPacket(host, h, now, RND_REQ, n);
      assert GoesTo(sent[0], n);
    }
    if h.im != [] {
      var r :| 0 <= r < PeerRange(h.im) && r < |h.im| && ImportantSent(lib, host, h, now, IMP_REQ, h.im[r], sent[1]);
      EligibleIff(h.im, r);
      assert GoesTo(sent[1], h.im[r]) && sent[1].ptype == 3;
    }
  }

  /** In every run every cleanup asks so. */
  lemma {:induction false} CleanupsAsk(swap: Swap, lib: MathLib, ws: seq<World>, steps: seq<Step>, i: nat)
    requires Run(swap, lib, ws, steps) && i < |steps| && steps[i].Cleanup?
    ensures steps[i].host in ws[i + 1].hosts
    ensures var h := ws[i + 1].hosts[steps[i].host]; RequestedRight(steps[i].host, h.cfg, h.rn, h.im, steps[i].sent)
  {
    RunInvariant(swap, lib, ws, steps, i);
    var s, w := steps[i], ws[i];
    var h' := CleanupOf(swap, lib, w, s, ws[i + 1]);
    ExpiryKeepsTheNew(w.hosts[s.host], w.clock, h');
    CleanupKeeps(lib, s.host, w.hosts[s.host], w.clock, h', s.sent, s.delivered);
    RequestsAreRight(lib, s.host, h', w.clock, s.sent);
  }

  // ----- Every such choice is possible -----

  /** Whatever tables the expiry leaves, any entry of the random one and any eligible entry of the
      important one may be asked. */
  lemma {:induction false} AnyPeerMayBeAsked(lib: MathLib, host: nat, h: HostState, now: U32, h': HostState, n: Node,
                                             r: int) returns (sent: seq<Packet>, delivered: Option<Dispatch>)
    requires HostInv(h) && Cleaned(h, now, h') && n in h'.rn && Eligible(h'.im, r)
    ensures CleanupStep(lib, host, h, now, h', sent, delivered)
    ensures |sent| == 2 && GoesTo(sent[0], n) && GoesTo(sent[1], h'.im[r])
  {
    ExpiryKeepsTheNew(h, now, h');
    EligibleIff(h'.im, r);
    var sel := SelectionExists(lib, h'.cfg.k, h'.im, h'.im[r]);
    var first := RandomPacket(host, h', now, RND_REQ, n);
    var second := ImportantPacket(host, h', now, IMP_REQ, h'.im[r], sel);
    sent, delivered := [first, second], Delivery(h', now);
    MayBeDrawn(h'.cfg.id, h'.rn, |h'.rn|, n);
    MayBeDrawn(h'.cfg.id, h'.im, PeerRange(h'.im), h'.im[r]);
    assert sent[1..] == [second];
    assert ImportantSent(lib, host, h', now, IMP_REQ, h'.im[r], second);
    assert RequestsVia(lib, host, h', now, Some(n), Some(h'.im[r]), sent);
  }

  lemma {:induction false} MayBeDrawn(own: U32, s: seq<Node>, range: int, n: Node)
    requires TableInv(own, s) && exists r :: 0 <= r < range && r < |s| && s[r] == n
    ensures PeerChoice(s, range, own, Some(n))
  {
  }
}
