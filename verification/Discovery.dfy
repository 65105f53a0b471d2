/** How knowledge spreads: what a node is sure to learn from a message and from one exchange. */
module Discovery {
  import opened Collections
  import opened Records
  import opened Sorting
  import opened Dedup
  import opened Geometry
  import opened TableSpec
  import opened Merging
  import opened Outcomes
  import opened Steps
  import opened HostLaws
  import opened Network

  // ----- One message -----

  /** The records that compete when the node receives this message of important nodes: its table
      followed by as much of the foreign part as fits, scored for its own position. */
  function ExpectedMerge(lib: MathLib, h: HostState, now: U32, msg: seq<Node>): seq<Node>
    requires |h.im| <= h.imMax
  {
    Appended(h.im, h.imMax, Scored(lib, InternalNode(h.cfg, now), msg), h.cfg.id)
  }

  /** Those of them that may survive the deduplication. */
  function Contenders(swap: Swap, lib: MathLib, h: HostState, now: U32, msg: seq<Node>): seq<Node>
    requires |h.im| <= h.imMax
  {
    Pool(swap, ExpectedMerge(lib, h, now, msg))
  }

  lemma {:induction false} ScoredOnWire(lib: MathLib, from: Node, s: seq<Node>, t: seq<Node>)
    requires SameWire(s, t)
    ensures Scored(lib, from, s) == Scored(lib, from, t)
  {
    forall i | 0 <= i < |s|
      ensures Scored(lib, from, s)[i] == Scored(lib, from, t)[i]
    {
      UtilityIgnoresIdentity(lib, from, from, s[i], t[i]);
      SameBut(s[i], t[i], Utility(lib, from, t[i]));
    }
  }

  lemma {:induction false} SameBut(m: Node, n: Node, u: real)
    requires m.Wire() == n.Wire()
    ensures m.(utility := u) == n.(utility := u)
  {
    assert m.Wire().(utility := u) == n.Wire().(utility := u);
  }

  /** After receiving important nodes an ID is in the important table in any case exactly if it is
      in the merge and no contender for it may fall below the cut. */
  lemma {:induction false} ReceiverLearnsIff(swap: Swap, lib: MathLib, h: HostState, now: U32, msg: seq<Node>, id: U32)
    requires HostInv(h)
    ensures (forall nc, h' ::
               SameWire(nc, msg) && ImportantReceived(swap, lib, h, now, nc, h') ==> HasID(h'.im, id))
       <==> Secured(h.cfg.k, h.imMax, Contenders(swap, lib, h, now, msg), id)
  {
    var scored := Scored(lib, InternalNode(h.cfg, now), msg);
    ImportantSecuresIff(swap, h.cfg.id, h.cfg.k, h.im, h.imMax, scored, id);
    if Secured(h.cfg.k, h.imMax, Contenders(swap, lib, h, now, msg), id) {
      forall nc, h' | SameWire(nc, msg) && ImportantReceived(swap, lib, h, now, nc, h')
        ensures HasID(h'.im, id)
      {
        ScoredOnWire(lib, InternalNode(h.cfg, now), nc, msg);
      }
    } else {
      var im', imMax' :| ImportantMerge(swap, h.cfg.id, h.cfg.k, h.im, h.imMax, scored, im', imMax')
                         && !HasID(im', id);
      var h' := h.(im := im', imMax := imMax');
      assert SameWire(msg, msg) && ImportantReceived(swap, lib, h, now, msg, h');
    }
  }

  // ----- When that is so -----

  /** Is the ID among the foreign records of the message that fit the free slots? */
  ghost predicate Fits(h: HostState, msg: seq<Node>, id: U32)
    requires |h.im| <= h.imMax
  {
    HasID(Take(Filter(NotIgnored(h.cfg.id), msg), h.imMax - |h.im|), id)
  }

  /** Whichever contender wins for this ID, it is a candidate of the node. */
  predicate WinsAsCandidate(pool: seq<Node>, id: U32) {
    forall n :: n in pool && n.nodeID == id ==> n.utility >= 1.0
  }

  function PossibleCandidates(pool: seq<Node>): set<U32> {
    set x | x in pool && x.utility >= 1.0 :: x.nodeID
  }

  /** The candidates fit above the cut as it is, or the table may still grow. */
  predicate RoomForCandidates(k: nat, capacity: nat, pool: seq<Node>) {
    |PossibleCandidates(pool)| + k <= capacity || capacity + k <= NODES_MAX_SIZE
  }

  lemma {:induction false} CandidatesAreSecured(k: nat, capacity: nat, pool: seq<Node>, id: U32)
    requires HasID(pool, id) && WinsAsCandidate(pool, id) && RoomForCandidates(k, capacity, pool)
    ensures Secured(k, capacity, pool, id)
  {
    forall n | n in pool && n.nodeID == id
      ensures !MayBeLost(k, capacity, pool, n)
    {
      var rivals := RivalIDs(pool, n);
      assert rivals + {id} <= PossibleCandidates(pool);
      SubsetSize(rivals + {id}, PossibleCandidates(pool));
    }
  }

  /** The record with its utility for that node. */
  function ForPeer(lib: MathLib, peer: Node, m: Node): Node {
    m.(utility := Utility(lib, peer, m))
  }

  lemma {:induction false} ScoredAt(lib: MathLib, from: Node, s: seq<Node>, i: nat)
    requires i < |s|
    ensures |Scored(lib, from, s)| == |s| && Scored(lib, from, s)[i] == ForPeer(lib, from, s[i])
  {
  }

  lemma {:induction false} FilterScored(lib: MathLib, from: Node, own: U32, s: seq<Node>)
    ensures Filter(NotIgnored(own), Scored(lib, from, s)) == Scored(lib, from, Filter(NotIgnored(own), s))
  {
    if s != [] {
      var n, rest := s[0], s[1..];
      FilterScored(lib, from, own, rest);
      assert s == [n] + rest;
      ScoredCons(lib, from, n, rest);
      ScoredCons(lib, from, n, Filter(NotIgnored(own), rest));
      var m := ForPeer(lib, from, n);
      assert ([m] + Scored(lib, from, rest))[1..] == Scored(lib, from, rest);
    }
  }

  lemma {:induction false} ScoredCons(lib: MathLib, from: Node, n: Node, s: seq<Node>)
    ensures Scored(lib, from, [n] + s) == [ForPeer(lib, from, n)] + Scored(lib, from, s)
  {
    var t := [n] + s;
    var a, b := Scored(lib, from, t), [ForPeer(lib, from, n)] + Scored(lib, from, s);
    assert |a| == |b|;
    forall i | 0 <= i < |t|
      ensures a[i] == b[i]
    {
      ScoredAt(lib, from, t, i);
      if i > 0 {
        ScoredAt(lib, from, s, i - 1);
      }
    }
  }

  lemma {:induction false} AppendedHas(own: U32, a: seq<Node>, capacity: nat, b: seq<Node>, i: nat)
    requires |a| <= capacity && i < |Filter(NotIgnored(own), b)| && |a| + i < capacity
    ensures HasID(Appended(a, capacity, b, own), Filter(NotIgnored(own), b)[i].nodeID)
  {
    var foreign := Filter(NotIgnored(own), b);
    assert Appended(a, capacity, b, own)[|a| + i] == Take(foreign, capacity - |a|)[i] == foreign[i];
  }

  lemma {:induction false} FittingIsContended(swap: Swap, lib: MathLib, h: HostState, now: U32, msg: seq<Node>, id: U32)
    requires |h.im| <= h.imMax && Fits(h, msg, id)
    ensures HasID(Contenders(swap, lib, h, now, msg), id)
  {
    var from, foreign := InternalNode(h.cfg, now), Filter(NotIgnored(h.cfg.id), msg);
    var fitting := Take(foreign, h.imMax - |h.im|);
    var i :| 0 <= i < |fitting| && fitting[i].nodeID == id;
    assert fitting[i] == foreign[i];
    FilterScored(lib, from, h.cfg.id, msg);
    ScoredAt(lib, from, foreign, i);
    AppendedHas(h.cfg.id, h.im, h.imMax, Scored(lib, from, msg), i);
    PoolIDs(swap, ExpectedMerge(lib, h, now, msg));
  }

  /** After receiving important nodes, every ID among the foreign records that fit the free slots,
      if it can only be won by a candidate, is in the important table, unless there are too many
      candidates and the hard limit forbids to grow. */
  lemma {:induction false} ReceiverLearns(swap: Swap, lib: MathLib, h: HostState, now: U32, nc: seq<Node>,
                                          msg: seq<Node>, h': HostState, id: U32)
    requires HostInv(h) && SameWire(nc, msg) && ImportantReceived(swap, lib, h, now, nc, h')
    requires Fits(h, msg, id) && WinsAsCandidate(Contenders(swap, lib, h, now, msg), id)
    requires RoomForCandidates(h.cfg.k, h.imMax, Contenders(swap, lib, h, now, msg))
    ensures HasID(h'.im, id)
  {
    FittingIsContended(swap, lib, h, now, msg, id);
    CandidatesAreSecured(h.cfg.k, h.imMax, Contenders(swap, lib, h, now, msg), id);
    ReceiverLearnsIff(swap, lib, h, now, msg, id);
  }

  /** The foreign part of a message with at most K foreign nodes always fits: between updates the
      table keeps K slots free. */
  lemma {:induction false} KForeignNodesFit(h: HostState, msg: seq<Node>, id: U32)
    requires HostInv(h) && |Filter(NotIgnored(h.cfg.id), msg)| <= h.cfg.k
    requires HasID(msg, id) && id != h.cfg.id
    ensures Fits(h, msg, id)
  {
    var foreign := Filter(NotIgnored(h.cfg.id), msg);
    FilterMembers(NotIgnored(h.cfg.id), msg);
    var i :| 0 <= i < |msg| && msg[i].nodeID == id;
    assert msg[i] in foreign;
    var j :| 0 <= j < |foreign| && foreign[j] == msg[i];
  }

  // ----- What the code may forget -----

  /** The code can lose a node although its newest record is a candidate and the table has room: the
      old record survives and the cut takes it. With the documented swap the node stays. */
  lemma {:induction false} CodedForgetsCandidate(own: U32, first: Node, newer: Node, rival: Node)
    requires own != 0 && !HasID([first, rival], own)
    requires first.nodeID == newer.nodeID && first.nodeID != rival.nodeID && first.timeStamp < newer.timeStamp
    requires first.utility <= rival.utility < 1.0 <= newer.utility
    ensures exists im', capacity' ::
              ImportantMerge(WordSwap, own, 3, [first], 4, [newer, rival], im', capacity') && !HasID(im', first.nodeID)
    ensures forall im', capacity' ::
              ImportantMerge(RecordSwap, own, 3, [first], 4, [newer, rival], im', capacity')
              ==> HasID(im', first.nodeID)
  {
    var merged := [first, newer, rival];
    assert [first, rival][0] == first && [first, rival][1] == rival;
    FilterAll(NotIgnored(own), [newer, rival]);
    assert Appended([first], 4, [newer, rival], own) == merged;
    assert merged[0] == first && merged[1] == newer && merged[2] == rival;
    CodedMayLose(first, newer, rival);
    ImportantSecuresIff(WordSwap, own, 3, [first], 4, [newer, rival], first.nodeID);
    DocumentedSecures(first, newer, rival);
    ImportantSecuresIff(RecordSwap, own, 3, [first], 4, [newer, rival], first.nodeID);
  }

  lemma {:induction false} CodedMayLose(first: Node, newer: Node, rival: Node)
    requires first.nodeID == newer.nodeID && first.nodeID != rival.nodeID
    requires first.utility <= rival.utility < 1.0
    ensures !Secured(3, 4, Pool(WordSwap, [first, newer, rival]), first.nodeID)
  {
    var pool := [first, newer, rival];
    assert first in pool && rival in pool;
    assert {rival.nodeID} <= RivalIDs(pool, first);
    SubsetSize({rival.nodeID}, RivalIDs(pool, first));
    assert SureIDs(pool, first) == {};
  }

  lemma {:induction false} DocumentedSecures(first: Node, newer: Node, rival: Node)
    requires first.nodeID == newer.nodeID && first.nodeID != rival.nodeID && first.timeStamp < newer.timeStamp
    requires newer.utility >= 1.0
    ensures Secured(3, 4, Pool(RecordSwap, [first, newer, rival]), first.nodeID)
  {
    var merged := [first, newer, rival];
    var pool := Pool(RecordSwap, merged);
    PoolMembers(RecordSwap, merged);
    PoolIDs(RecordSwap, merged);
    assert merged[1] == newer && newer in merged;
    assert HasID(merged, newer.nodeID);
    CandidatesAreSecured(3, 4, pool, first.nodeID);
  }

  // ----- One exchange -----

  /** Fewer than K other entries are at least as useful to the peer, or there are at most K at all. */
  predicate AlwaysSent(lib: MathLib, k: nat, im: seq<Node>, peer: Node, m: Node) {
    |im| <= k || |Filter(RivalTo(ForPeer(lib, peer, m)), Scored(lib, peer, im))| < k
  }

  /** An entry is in every selection for the peer exactly if that is so. */
  lemma {:induction false} AlwaysSentIff(lib: MathLib, k: nat, im: seq<Node>, peer: Node, m: Node)
    requires DistinctIDs(im) && m in im
    ensures (forall sel :: Selected(lib, k, im, peer, sel) ==> Sends(sel, m)) <==> AlwaysSent(lib, k, im, peer, m)
  {
    if AlwaysSent(lib, k, im, peer, m) {
      forall sel | Selected(lib, k, im, peer, sel)
        ensures Sends(sel, m)
      {
        SureToBeSent(lib, k, im, peer, sel, m);
      }
    } else {
      var sel := SelectionWithout(lib, k, im, peer, m);
    }
  }

  lemma {:induction false} SureToBeSent(lib: MathLib, k: nat, im: seq<Node>, peer: Node, sel: seq<Node>, m: Node)
    requires DistinctIDs(im) && m in im && Selected(lib, k, im, peer, sel) && AlwaysSent(lib, k, im, peer, m)
    ensures Sends(sel, m)
  {
    if |im| <= k {
      TopKForPeer(lib, k, im, peer, sel);
    } else if !Sends(sel, m) {
      SelectionIsTop(lib, k, im, peer, sel);
      WithheldIsScored(lib, im, peer, sel, m);
      ScoredFacts(lib, peer, im);
      DroppedHasRivals(k, Scored(lib, peer, im), sel, ForPeer(lib, peer, m));
    }
  }

  /** Everything kept when `x` is dropped is a rival of `x`. */
  lemma {:induction false} DroppedHasRivals(k: nat, d: seq<Node>, r: seq<Node>, x: Node)
    requires |d| > k && Top(ByUtility, k, d, r) && x in d && x !in r
    ensures |Filter(RivalTo(x), d)| >= k
  {
    var rivals := Filter(RivalTo(x), d);
    FilterMembers(RivalTo(x), d);
    assert forall y :: y in r ==> Rank(ByUtility, x) <= Rank(ByUtility, y) && y in rivals;
    DistinctWithin(r, rivals);
  }

  lemma {:induction false} SelectionWithout(lib: MathLib, k: nat, im: seq<Node>, peer: Node, m: Node)
    returns (sel: seq<Node>)
    requires DistinctIDs(im) && m in im && !AlwaysSent(lib, k, im, peer, m)
    ensures Selected(lib, k, im, peer, sel) && !Sends(sel, m)
  {
    var scored, x := Scored(lib, peer, im), ForPeer(lib, peer, m);
    ScoredFacts(lib, peer, im);
    var t := CutWithout(scored, x, k);
    sel := Take(t, k);
    assert SelectedVia(lib, k, im, peer, t, sel);
    SameBag(scored, t);
    NotSent(scored, sel, x, m);
  }

  lemma {:induction false} CutWithout(d: seq<Node>, x: Node, k: nat) returns (t: seq<Node>)
    requires DistinctIDs(d) && x in d && |Filter(RivalTo(x), d)| >= k
    ensures IsSort(ByUtility, d, t) && x !in Take(t, k)
  {
    t := SortedAgainst(d, x);
    var more := Take(t, |Filter(RivalTo(x), d)|);
    assert forall i :: 0 <= i < |Take(t, k)| ==> Take(t, k)[i] == more[i];
  }

  lemma {:induction false} NotSent(d: seq<Node>, sel: seq<Node>, x: Node, m: Node)
    requires DistinctIDs(d) && x in d && x !in sel && x.Wire() == m.Wire()
    requires forall n :: n in sel ==> n in d
    ensures !Sends(sel, m)
  {
    forall n | n in sel
      ensures n.Wire() != m.Wire()
    {
      assert n.Wire().nodeID == n.nodeID && x.Wire().nodeID == x.nodeID;
      if n.nodeID == x.nodeID {
        SameRecord(d, n, x);
      }
    }
  }

  /** With at most K candidates of the peer in the table every one of them is sure to be sent. */
  lemma {:induction false} FewCandidatesAreSent(lib: MathLib, k: nat, im: seq<Node>, peer: Node, m: Node)
    requires DistinctIDs(im) && m in im && Utility(lib, peer, m) >= 1.0
    requires CandidateCount(Scored(lib, peer, im)) <= k
    ensures AlwaysSent(lib, k, im, peer, m)
  {
    forall sel | Selected(lib, k, im, peer, sel)
      ensures Sends(sel, m)
    {
      PeerCandidatesSent(lib, k, im, peer, sel);
    }
    AlwaysSentIff(lib, k, im, peer, m);
  }

  /** Does `b`, asked by `peer`, have to mention this ID? Itself, and what is always sent. */
  ghost predicate Offers(lib: MathLib, b: HostState, peer: Node, id: U32) {
    id == b.cfg.id || exists m :: m in b.im && m.nodeID == id && AlwaysSent(lib, b.cfg.k, b.im, peer, m)
  }

  /** An answer with important nodes is sure to mention an ID exactly if it has to be offered. */
  lemma {:induction false} AnswerNamesIff(lib: MathLib, host: nat, b: HostState, now: U32, ptype: U8, peer: Node,
                                          id: U32)
    requires HostInv(b)
    ensures (forall pkt :: ImportantSent(lib, host, b, now, ptype, peer, pkt) ==> HasID(pkt.nodes, id))
       <==> Offers(lib, b, peer, id)
  {
    if Offers(lib, b, peer, id) {
      forall pkt | ImportantSent(lib, host, b, now, ptype, peer, pkt)
        ensures HasID(pkt.nodes, id)
      {
        AnswerNames(lib, host, b, now, ptype, peer, pkt, id);
      }
    } else {
      var sel := SelectionWithoutID(lib, b, peer, id);
      AnswerOmits(OwnNode(b.cfg, now), sel, id);
      assert ImportantSent(lib, host, b, now, ptype, peer, ImportantPacket(host, b, now, ptype, peer, sel));
    }
  }

  lemma {:induction false} SelectionWithoutID(lib: MathLib, b: HostState, peer: Node, id: U32) returns (sel: seq<Node>)
    requires HostInv(b) && id != b.cfg.id && !Offers(lib, b, peer, id)
    ensures Selected(lib, b.cfg.k, b.im, peer, sel) && !HasID(sel, id)
  {
    if m :| m in b.im && m.nodeID == id {
      sel := SelectionWithout(lib, b.cfg.k, b.im, peer, m);
      OmitsID(lib, b.cfg.k, b.im, peer, sel, m);
    } else {
      sel := b.im;
      if |b.im| > b.cfg.k {
        var t := SortExists(ByUtility, Scored(lib, peer, b.im));
        sel := Take(t, b.cfg.k);
        assert SelectedVia(lib, b.cfg.k, b.im, peer, t, sel);
      }
      NoNewIDs(lib, b.cfg.k, b.im, peer, sel, id);
    }
  }

  lemma {:induction false} OmitsID(lib: MathLib, k: nat, im: seq<Node>, peer: Node, sel: seq<Node>, m: Node)
    requires DistinctIDs(im) && m in im && Selected(lib, k, im, peer, sel) && !Sends(sel, m)
    ensures !HasID(sel, m.nodeID)
  {
    TopKForPeer(lib, k, im, peer, sel);
    forall i | 0 <= i < |sel|
      ensures sel[i].nodeID != m.nodeID
    {
      assert sel[i] in sel;
      var n :| n in im && n.Wire() == sel[i].Wire();
      assert n.Wire().nodeID == n.nodeID && sel[i].Wire().nodeID == sel[i].nodeID;
      if n.nodeID == m.nodeID {
        SameRecord(im, n, m);
      }
    }
  }

  lemma {:induction false} NoNewIDs(lib: MathLib, k: nat, im: seq<Node>, peer: Node, sel: seq<Node>, id: U32)
    requires DistinctIDs(im) && Selected(lib, k, im, peer, sel) && forall m :: m in im ==> m.nodeID != id
    ensures !HasID(sel, id)
  {
    TopKForPeer(lib, k, im, peer, sel);
    forall i | 0 <= i < |sel|
      ensures sel[i].nodeID != id
    {
      assert sel[i] in sel;
      var n :| n in im && n.Wire() == sel[i].Wire();
      assert n.Wire().nodeID == n.nodeID && sel[i].Wire().nodeID == sel[i].nodeID;
    }
  }

  lemma {:induction false} AnswerOmits(own: Node, sel: seq<Node>, id: U32)
    requires own.nodeID != id && !HasID(sel, id)
    ensures !HasID(OnWire([own] + sel), id)
  {
    var s := [own] + sel;
    forall i | 0 <= i < |s|
      ensures OnWire(s)[i].nodeID != id
    {
      assert i > 0 ==> s[i] == sel[i - 1];
    }
  }

  /** One exchange: `b` answers a request of `a` with its important nodes, and `a` receives the
      answer at some later time. Then `a` has in its important table everything `b` had to offer
      that can only be won by a candidate of `a`, provided it fits the free slots and the candidates
      fit above the cut or the table may still grow. */
  lemma {:induction false} OneExchangeDiscovers(swap: Swap, lib: MathLib, w0: World, ask: Step, w1: World, w2: World,
                                                answer: Step, w3: World, id: U32)
    requires WorldInv(w0) && Next(swap, lib, w0, ask, w1) && ask.Receive? && ask.pkt.ptype == IMP_REQ
    requires WorldInv(w2) && Next(swap, lib, w2, answer, w3) && answer.Receive?
    requires ask.sent == [answer.pkt]
    requires ask.host in w0.hosts && answer.host in w2.hosts
    requires ask.pkt.nodes != [] && Offers(lib, w0.hosts[ask.host], ask.pkt.nodes[0], id)
    requires id != w2.hosts[answer.host].cfg.id
    requires var a, msg := w2.hosts[answer.host], answer.pkt.nodes;
             var pool := Contenders(swap, lib, a, w2.clock, msg);
             && (HasID(msg, id) ==> Fits(a, msg, id))
             && WinsAsCandidate(pool, id)
             && RoomForCandidates(a.cfg.k, a.imMax, pool)
    ensures answer.host in w3.hosts && HasID(w3.hosts[answer.host].im, id)
  {
    AnswerOf(swap, lib, w0, ask, w1, answer.pkt, id);
    var nc, a' := ReceiveOf(swap, lib, w2, answer, w3);
    ReceiverLearns(swap, lib, w2.hosts[answer.host], w2.clock, nc, answer.pkt.nodes, a', id);
  }

  lemma {:induction false} AnswerOf(swap: Swap, lib: MathLib, w: World, ask: Step, w': World, pkt: Packet, id: U32)
    requires WorldInv(w) && Next(swap, lib, w, ask, w') && ask.Receive? && ask.pkt.ptype == IMP_REQ
    requires ask.sent == [pkt] && ask.host in w.hosts
    requires ask.pkt.nodes != [] && Offers(lib, w.hosts[ask.host], ask.pkt.nodes[0], id)
    ensures pkt.ptype == IMP_NOREQ && HasID(pkt.nodes, id)
  {
    var nc, _ := ReceiveOf(swap, lib, w, ask, w');
    OffersOnWire(lib, w.hosts[ask.host], nc[0], ask.pkt.nodes[0], id);
    AnswerNames(lib, ask.host, w.hosts[ask.host], w.clock, IMP_NOREQ, nc[0], pkt, id);
  }

  /** Only what travels of the peer's record enters the selection. */
  lemma {:induction false} OffersOnWire(lib: MathLib, b: HostState, p: Node, q: Node, id: U32)
    requires p.Wire() == q.Wire()
    ensures Offers(lib, b, p, id) <==> Offers(lib, b, q, id)
  {
    assert p.Wire().lat == p.lat && p.Wire().lon == p.lon && p.Wire().coordRange == p.coordRange;
    assert q.Wire().lat == q.lat && q.Wire().lon == q.lon && q.Wire().coordRange == q.coordRange;
    forall m: Node
      ensures Utility(lib, p, m) == Utility(lib, q, m)
    {
      UtilityIgnoresIdentity(lib, p, q, m, m);
    }
    assert Scored(lib, p, b.im) == Scored(lib, q, b.im);
    assert forall m: Node :: ForPeer(lib, p, m) == ForPeer(lib, q, m);
  }

  /** The answer mentions what has to be offered. */
  lemma {:induction false} AnswerNames(lib: MathLib, host: nat, b: HostState, now: U32, ptype: U8, peer: Node,
                                       pkt: Packet, id: U32)
    requires HostInv(b) && ImportantSent(lib, host, b, now, ptype, peer, pkt) && Offers(lib, b, peer, id)
    ensures pkt.ptype == ptype && HasID(pkt.nodes, id)
  {
    var sel :| Selected(lib, b.cfg.k, b.im, peer, sel) && pkt == ImportantPacket(host, b, now, ptype, peer, sel);
    if id == b.cfg.id {
      AnswerNamesItself(OwnNode(b.cfg, now), sel);
    } else {
      var m :| m in b.im && m.nodeID == id && AlwaysSent(lib, b.cfg.k, b.im, peer, m);
      SureToBeSent(lib, b.cfg.k, b.im, peer, sel, m);
      AnswerNamesSelected(OwnNode(b.cfg, now), sel, m);
    }
  }

  lemma {:induction false} AnswerNamesItself(own: Node, sel: seq<Node>)
    ensures HasID(OnWire([own] + sel), own.nodeID)
  {
    assert OnWire([own] + sel)[0].nodeID == own.nodeID;
  }

  lemma {:induction false} AnswerNamesSelected(own: Node, sel: seq<Node>, m: Node)
    requires Sends(sel, m)
    ensures HasID(OnWire([own] + sel), m.nodeID)
  {
    var n: Node :| n in sel && n.Wire() == m.Wire();
    assert n.Wire().nodeID == n.nodeID && m.Wire().nodeID == m.nodeID;
    var i :| 0 <= i < |sel| && sel[i] == n;
    assert ([own] + sel)[i + 1] == n;
    assert OnWire([own] + sel)[i + 1].nodeID == m.nodeID;
  }
}
