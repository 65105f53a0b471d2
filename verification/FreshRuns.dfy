/** May an entry of a table go back in time, over the reactions of a node and over whole runs. */
module FreshRuns {
  import opened Collections
  import opened Records
  import opened Sorting
  import opened Dedup
  import opened Geometry
  import opened TableSpec
  import opened Merging
  import opened Outcomes
  import opened Freshness
  import opened Steps
  import opened HostLaws
  import opened Network

  // ----- One reaction -----

  lemma {:induction false} NeverOlderThroughScoring(lib: MathLib, from: Node, a: seq<Node>, r: seq<Node>)
    ensures NeverOlder(a, r) <==> NeverOlder(a, Scored(lib, from, r))
  {
    var t := Scored(lib, from, r);
    assert forall i :: 0 <= i < |r| ==>
        t[i].nodeID == r[i].nodeID && t[i].timeStamp == r[i].timeStamp && t[i] in t && r[i] in r;
  }

  lemma {:induction false} NeverOlderThroughRemoval(a: seq<Node>, r: seq<Node>)
    requires DistinctIDs(a) && forall n :: n in r ==> n in a
    ensures NeverOlder(a, r)
  {
  }

  /** Both tables of the node are as new as before. */
  ghost predicate Advanced(h: HostState, h': HostState) {
    NeverOlder(h.rn, h'.rn) && NeverOlder(h.im, h'.im)
  }

  ghost predicate ImportantSafe(swap: Swap, h: HostState, nc: seq<Node>)
    requires HostInv(h)
  {
    ImportantStaysFresh(swap, h.cfg.id, h.cfg.k, h.im, h.imMax, nc)
  }

  /** The updates that follow this message leave no stale record above a cut; `nc` is the message as
      it stands in memory after unpacking. */
  ghost predicate MessageSafe(swap: Swap, lib: MathLib, h: HostState, now: U32, ptype: U8, nc: seq<Node>)
    requires HostInv(h)
  {
    if ptype == RND_NOREQ || ptype == RND_REQ then
      && RandomStaysFresh(swap, h.cfg.id, 2 * h.cfg.n, h.rn, nc)
      && forall rn1 :: RandomMerge(swap, h.cfg.id, 2 * h.cfg.n, h.rn, nc, rn1)
                       ==> ImportantSafe(swap, h, Scored(lib, InternalNode(h.cfg, now), rn1))
    else if ptype == IMP_NOREQ || ptype == IMP_REQ then
      ImportantSafe(swap, h, Scored(lib, InternalNode(h.cfg, now), nc))
    else
      true
  }

  lemma {:induction false} ImportantMergeExists(swap: Swap, own: U32, k: nat, im: seq<Node>, capacity: nat,
                                                nc: seq<Node>) returns (im': seq<Node>, capacity': nat)
    requires |im| <= capacity && k <= capacity
    ensures ImportantMerge(swap, own, k, im, capacity, nc, im', capacity')
  {
    var d := DedupExists(swap, Appended(im, capacity, nc, own));
    var t := SortExists(ByUtility, d);
    capacity' := Regrown(capacity, k, CandidateCount(t));
    im' := Take(t, capacity' - k);
    assert ImportantMergeVia(swap, own, k, im, capacity, nc, d, t, im', capacity');
  }

  /** Whatever the updates yield is a reaction, with some reply. */
  lemma {:induction false} ReactionExists(swap: Swap, lib: MathLib, host: nat, h: HostState, now: U32, ptype: U8,
                                          nc: seq<Node>, rn1: seq<Node>, h': HostState) returns (sent: seq<Packet>)
    requires nc != []
    requires ptype == RND_NOREQ || ptype == RND_REQ ==> RandomReceived(swap, lib, h, now, nc, rn1, h')
    requires ptype == IMP_NOREQ || ptype == IMP_REQ ==> ImportantReceived(swap, lib, h, now, nc, h')
    requires ptype > IMP_REQ ==> h' == h
    ensures ReceiveStep(swap, lib, host, h, now, ptype, nc, h', sent)
  {
    sent := [];
    if ptype == RND_REQ {
      sent := [RandomPacket(host, h, now, RND_NOREQ, nc[0])];
    } else if ptype == IMP_REQ {
      var sel := SelectionExists(lib, h.cfg.k, h.im, nc[0]);
      sent := [ImportantPacket(host, h, now, IMP_NOREQ, nc[0], sel)];
    }
  }

  /** Receiving a message is sure not to move any entry of either table back in time exactly if the
      message is safe for the tables. */
  lemma {:induction false} ReceiveAdvancesIff(swap: Swap, lib: MathLib, host: nat, h: HostState, now: U32, ptype: U8,
                                              nc: seq<Node>)
    requires HostInv(h) && nc != []
    ensures (forall h', sent :: ReceiveStep(swap, lib, host, h, now, ptype, nc, h', sent) ==> Advanced(h, h'))
       <==> MessageSafe(swap, lib, h, now, ptype, nc)
  {
    if MessageSafe(swap, lib, h, now, ptype, nc) {
      forall h', sent | ReceiveStep(swap, lib, host, h, now, ptype, nc, h', sent)
        ensures Advanced(h, h')
      {
        SafeAdvances(swap, lib, host, h, now, ptype, nc, h', sent);
      }
    } else {
      var h', sent := UnsafeGoesBack(swap, lib, host, h, now, ptype, nc);
    }
  }

  lemma {:induction false} SafeAdvances(swap: Swap, lib: MathLib, host: nat, h: HostState, now: U32, ptype: U8,
                                        nc: seq<Node>, h': HostState, sent: seq<Packet>)
    requires HostInv(h) && ReceiveStep(swap, lib, host, h, now, ptype, nc, h', sent)
    requires MessageSafe(swap, lib, h, now, ptype, nc)
    ensures Advanced(h, h')
  {
    NeverOlderThroughRemoval(h.rn, h.rn);
    NeverOlderThroughRemoval(h.im, h.im);
    if ptype == RND_NOREQ || ptype == RND_REQ {
      var rn1 :| RandomReceived(swap, lib, h, now, nc, rn1, h');
      RandomAdvancesIff(swap, h.cfg.id, 2 * h.cfg.n, h.rn, nc);
      NeverOlderThroughScoring(lib, InternalNode(h.cfg, now), h.rn, rn1);
      ImportantAdvancesIff(swap, h.cfg.id, h.cfg.k, h.im, h.imMax, h'.rn);
    } else if ptype == IMP_NOREQ || ptype == IMP_REQ {
      ImportantAdvancesIff(swap, h.cfg.id, h.cfg.k, h.im, h.imMax, Scored(lib, InternalNode(h.cfg, now), nc));
    }
  }

  lemma {:induction false} UnsafeGoesBack(swap: Swap, lib: MathLib, host: nat, h: HostState, now: U32, ptype: U8,
                                          nc: seq<Node>) returns (h': HostState, sent: seq<Packet>)
    requires HostInv(h) && nc != [] && !MessageSafe(swap, lib, h, now, ptype, nc)
    ensures ReceiveStep(swap, lib, host, h, now, ptype, nc, h', sent) && !Advanced(h, h')
  {
    var rn1 := [];
    if ptype == RND_NOREQ || ptype == RND_REQ {
      rn1, h' := UnsafeRandom(swap, lib, h, now, nc);
    } else {
      h' := UnsafeImportant(swap, h, Scored(lib, InternalNode(h.cfg, now), nc));
    }
    sent := ReactionExists(swap, lib, host, h, now, ptype, nc, rn1, h');
  }

  lemma {:induction false} UnsafeImportant(swap: Swap, h: HostState, nc: seq<Node>) returns (h': HostState)
    requires HostInv(h) && !ImportantSafe(swap, h, nc)
    ensures ImportantMerge(swap, h.cfg.id, h.cfg.k, h.im, h.imMax, nc, h'.im, h'.imMax)
    ensures h' == h.(im := h'.im, imMax := h'.imMax) && !NeverOlder(h.im, h'.im)
  {
    ImportantAdvancesIff(swap, h.cfg.id, h.cfg.k, h.im, h.imMax, nc);
    var im', imMax' :| ImportantMerge(swap, h.cfg.id, h.cfg.k, h.im, h.imMax, nc, im', imMax')
                       && !NeverOlder(h.im, im');
    h' := h.(im := im', imMax := imMax');
  }

  lemma {:induction false} UnsafeRandom(swap: Swap, lib: MathLib, h: HostState, now: U32, nc: seq<Node>)
    returns (rn1: seq<Node>, h': HostState)
    requires HostInv(h) && !MessageSafe(swap, lib, h, now, RND_REQ, nc)
    ensures RandomReceived(swap, lib, h, now, nc, rn1, h') && !Advanced(h, h')
  {
    var from := InternalNode(h.cfg, now);
    if RandomStaysFresh(swap, h.cfg.id, 2 * h.cfg.n, h.rn, nc) {
      rn1 :| RandomMerge(swap, h.cfg.id, 2 * h.cfg.n, h.rn, nc, rn1) && !ImportantSafe(swap, h, Scored(lib, from, rn1));
      h' := UnsafeImportant(swap, h, Scored(lib, from, rn1));
      h' := h'.(rn := Scored(lib, from, rn1));
    } else {
      RandomAdvancesIff(swap, h.cfg.id, 2 * h.cfg.n, h.rn, nc);
      rn1 :| RandomMerge(swap, h.cfg.id, 2 * h.cfg.n, h.rn, nc, rn1) && !NeverOlder(h.rn, rn1);
      NeverOlderThroughScoring(lib, from, h.rn, rn1);
      var im', imMax' := ImportantMergeExists(swap, h.cfg.id, h.cfg.k, h.im, h.imMax, Scored(lib, from, rn1));
      h' := h.(rn := Scored(lib, from, rn1), im := im', imMax := imMax');
    }
  }

  /** With the documented swap every message is safe. */
  lemma {:induction false} DocumentedIsSafe(lib: MathLib, h: HostState, now: U32, ptype: U8, nc: seq<Node>)
    requires HostInv(h)
    ensures MessageSafe(RecordSwap, lib, h, now, ptype, nc)
  {
    DocumentedPoolIsFresh(h.cfg.id, 2 * h.cfg.n, h.rn, nc);
    forall b: seq<Node>
      ensures ImportantSafe(RecordSwap, h, b)
    {
      DocumentedPoolIsFresh(h.cfg.id, h.imMax, h.im, b);
    }
  }

  /** Nothing in the message is older than what the tables hold about the same node, and for random
      messages nothing in the random table is older than in the important one. */
  predicate NothingStale(h: HostState, ptype: U8, nc: seq<Node>) {
    && (forall n :: n in nc ==> !Stale(h.im, n))
    && (ptype == RND_NOREQ || ptype == RND_REQ ==>
          (forall n :: n in nc ==> !Stale(h.rn, n)) && (forall n :: n in h.rn ==> !Stale(h.im, n)))
  }

  /** A check on the message alone under which the code, too, moves no entry back. */
  lemma {:induction false} NothingStaleIsSafe(swap: Swap, lib: MathLib, h: HostState, now: U32, ptype: U8,
                                              nc: seq<Node>)
    requires HostInv(h) && NothingStale(h, ptype, nc)
    ensures MessageSafe(swap, lib, h, now, ptype, nc)
  {
    var from := InternalNode(h.cfg, now);
    if ptype == RND_NOREQ || ptype == RND_REQ {
      FreshMergeIsSafe(swap, h.cfg.id, h.rn, 2 * h.cfg.n, nc);
      forall rn1 | RandomMerge(swap, h.cfg.id, 2 * h.cfg.n, h.rn, nc, rn1)
        ensures ImportantSafe(swap, h, Scored(lib, from, rn1))
      {
        RandomMergeKeeps(swap, h.cfg.id, 2 * h.cfg.n, h.rn, nc, rn1);
        ScoredFresh(lib, from, h.im, rn1);
        FreshMergeIsSafe(swap, h.cfg.id, h.im, h.imMax, Scored(lib, from, rn1));
      }
    } else {
      ScoredFresh(lib, from, h.im, nc);
      FreshMergeIsSafe(swap, h.cfg.id, h.im, h.imMax, Scored(lib, from, nc));
    }
  }

  lemma {:induction false} ScoredFresh(lib: MathLib, from: Node, a: seq<Node>, s: seq<Node>)
    requires forall n :: n in s ==> !Stale(a, n)
    ensures forall n :: n in Scored(lib, from, s) ==> !Stale(a, n)
  {
    NeverOlderIff(a, s);
    NeverOlderThroughScoring(lib, from, a, s);
    NeverOlderIff(a, Scored(lib, from, s));
  }

  lemma {:induction false} FreshMergeIsSafe(swap: Swap, own: U32, a: seq<Node>, capacity: nat, b: seq<Node>)
    requires DistinctIDs(a) && |a| <= capacity && forall n :: n in b ==> !Stale(a, n)
    ensures forall n :: n in Pool(swap, Appended(a, capacity, b, own)) ==> !Stale(a, n)
  {
    PoolMembers(swap, Appended(a, capacity, b, own));
    AppendedMembers(a, capacity, b, own);
    NeverOlderThroughRemoval(a, a);
    NeverOlderIff(a, a);
  }

  /** No record of an important entry's node that is older than the entry may pass the update of the
      random table. */
  ghost predicate NoneArrivesStale(swap: Swap, h: HostState, nc: seq<Node>)
    requires HostInv(h)
  {
    var pool := Pool(swap, Appended(h.rn, 2 * h.cfg.n, nc, h.cfg.id));
    forall n :: n in pool && Stale(h.im, n) ==> |AboveIDs(ByTimeStamp, pool, n)| >= h.cfg.n
  }

  /** A sharper check on a random message, in terms of the first update alone. */
  lemma {:induction false} NoneArrivesIsSafe(swap: Swap, lib: MathLib, h: HostState, now: U32, ptype: U8,
                                             nc: seq<Node>)
    requires HostInv(h) && (ptype == RND_NOREQ || ptype == RND_REQ)
    requires RandomStaysFresh(swap, h.cfg.id, 2 * h.cfg.n, h.rn, nc) && NoneArrivesStale(swap, h, nc)
    ensures MessageSafe(swap, lib, h, now, ptype, nc)
  {
    var from := InternalNode(h.cfg, now);
    forall rn1 | RandomMerge(swap, h.cfg.id, 2 * h.cfg.n, h.rn, nc, rn1)
      ensures ImportantSafe(swap, h, Scored(lib, from, rn1))
    {
      forall n | n in rn1
        ensures !Stale(h.im, n)
      {
        RandomKept(swap, h.cfg.id, 2 * h.cfg.n, h.rn, nc, rn1, n);
      }
      ScoredFresh(lib, from, h.im, rn1);
      FreshMergeIsSafe(swap, h.cfg.id, h.im, h.imMax, Scored(lib, from, rn1));
    }
  }

  lemma {:induction false} IDsAtMost(s: seq<Node>)
    ensures |IDs(s)| <= |s|
  {
    if s != [] {
      IDsAtMost(s[1..]);
      assert s == [s[0]] + s[1..];
      assert IDs(s) == {s[0].nodeID} + IDs(s[1..]);
    }
  }

  lemma {:induction false} AboveFewer(key: SortKey, s: seq<Node>, n: Node)
    requires n in s
    ensures |AboveIDs(key, s, n)| < |s|
  {
    var above := AboveIDs(key, s, n);
    assert n.nodeID !in above;
    assert above + {n.nodeID} <= IDs(s);
    SubsetSize(above + {n.nodeID}, IDs(s));
    IDsAtMost(s);
  }

  /** While the important table has room for N more records above the cut, that check is exact for
      the code: a stale record that arrives stays. */
  lemma {:induction false} RoomyMessageSafeIff(lib: MathLib, h: HostState, now: U32, ptype: U8, nc: seq<Node>)
    requires HostInv(h) && (ptype == RND_NOREQ || ptype == RND_REQ)
    requires |h.im| + h.cfg.n + h.cfg.k <= h.imMax
    ensures MessageSafe(WordSwap, lib, h, now, ptype, nc)
       <==> RandomStaysFresh(WordSwap, h.cfg.id, 2 * h.cfg.n, h.rn, nc) && NoneArrivesStale(WordSwap, h, nc)
  {
    var own, capacity := h.cfg.id, 2 * h.cfg.n;
    if NoneArrivesStale(WordSwap, h, nc) {
      if RandomStaysFresh(WordSwap, own, capacity, h.rn, nc) {
        NoneArrivesIsSafe(WordSwap, lib, h, now, ptype, nc);
      }
    } else {
      var merged := Appended(h.rn, capacity, nc, own);
      var n :| n in merged && Stale(h.im, n) && |AboveIDs(ByTimeStamp, merged, n)| < h.cfg.n;
      RandomKeepsIff(WordSwap, own, capacity, h.rn, nc, n);
      var rn1 :| RandomMerge(WordSwap, own, capacity, h.rn, nc, rn1) && n in rn1;
      RandomMergeKeeps(WordSwap, own, capacity, h.rn, nc, rn1);
      assert forall x :: x in h.rn ==> x.nodeID != own;
      ArrivalStays(lib, h, now, rn1, n);
    }
  }

  lemma {:induction false} ArrivalStays(lib: MathLib, h: HostState, now: U32, rn1: seq<Node>, n: Node)
    requires HostInv(h) && |h.im| + |rn1| + h.cfg.k <= h.imMax && n in rn1 && Stale(h.im, n)
    requires forall x :: x in rn1 ==> x.nodeID != h.cfg.id
    ensures !ImportantSafe(WordSwap, h, Scored(lib, InternalNode(h.cfg, now), rn1))
  {
    var from := InternalNode(h.cfg, now);
    var scored := Scored(lib, from, rn1);
    var m := ScoredStale(lib, from, h.im, rn1, n);
    ScoredForeign(lib, from, h.cfg.id, rn1);
    RoomForStale(h.cfg.id, h.cfg.k, h.im, h.imMax, scored, m);
  }

  lemma {:induction false} ScoredStale(lib: MathLib, from: Node, a: seq<Node>, s: seq<Node>, n: Node) returns (m: Node)
    requires n in s && Stale(a, n)
    ensures m in Scored(lib, from, s) && Stale(a, m)
  {
    ScoredFacts(lib, from, s);
    m := n.(utility := Utility(lib, from, n));
  }

  lemma {:induction false} RoomForStale(own: U32, k: nat, a: seq<Node>, capacity: nat, b: seq<Node>, m: Node)
    requires |a| + |b| + k <= capacity && m in b && Stale(a, m) && forall x :: x in b ==> x.nodeID != own
    ensures !ImportantStaysFresh(WordSwap, own, k, a, capacity, b)
  {
    WholeMerge(own, a, capacity, b);
    AboveFewer(ByUtility, a + b, m);
  }

  lemma {:induction false} ScoredForeign(lib: MathLib, from: Node, own: U32, s: seq<Node>)
    requires forall x :: x in s ==> x.nodeID != own
    ensures forall x :: x in Scored(lib, from, s) ==> x.nodeID != own
  {
    var t := Scored(lib, from, s);
    forall x | x in t
      ensures x.nodeID != own
    {
      var i :| 0 <= i < |t| && t[i] == x;
      assert t[i].nodeID == s[i].nodeID && s[i] in s;
    }
  }

  /** What is foreign and fits is appended as it is. */
  lemma {:induction false} WholeMerge(own: U32, a: seq<Node>, capacity: nat, b: seq<Node>)
    requires |a| + |b| <= capacity && forall x :: x in b ==> x.nodeID != own
    ensures Appended(a, capacity, b, own) == a + b
  {
    FilterAll(NotIgnored(own), b);
  }

  // ----- Whole runs -----

  /** The message is safe in whatever way unpacking leaves the utilities. */
  ghost predicate PacketSafe(swap: Swap, lib: MathLib, h: HostState, now: U32, pkt: Packet) {
    HostInv(h) && forall nc :: SameWire(nc, pkt.nodes) ==> MessageSafe(swap, lib, h, now, pkt.ptype, nc)
  }

  /** In every world a run can reach, handing a datagram to a node is sure not to move any of its
      entries back in time exactly if the datagram is safe for its tables. */
  lemma {:induction false} DeliveryAdvancesIff(swap: Swap, lib: MathLib, ws: seq<World>, steps: seq<Step>, i: nat,
                                               host: nat, pkt: Packet)
    requires Run(swap, lib, ws, steps) && i < |ws| && host in ws[i].hosts && pkt in ws[i].net
    ensures (forall sent, w' :: Next(swap, lib, ws[i], Receive(host, pkt, sent), w')
                                ==> host in w'.hosts && Advanced(ws[i].hosts[host], w'.hosts[host]))
       <==> PacketSafe(swap, lib, ws[i].hosts[host], ws[i].clock, pkt)
  {
    RunInvariant(swap, lib, ws, steps, i);
    assert PacketInv(ws[i], pkt);
    StepAdvancesIff(swap, lib, ws[i], host, pkt);
  }

  lemma {:induction false} StepAdvancesIff(swap: Swap, lib: MathLib, w: World, host: nat, pkt: Packet)
    requires WorldInv(w) && host in w.hosts && pkt in w.net && pkt.nodes != []
    ensures (forall sent, w' :: Next(swap, lib, w, Receive(host, pkt, sent), w')
                                ==> host in w'.hosts && Advanced(w.hosts[host], w'.hosts[host]))
       <==> PacketSafe(swap, lib, w.hosts[host], w.clock, pkt)
  {
    var h := w.hosts[host];
    if PacketSafe(swap, lib, h, w.clock, pkt) {
      forall sent, w' | Next(swap, lib, w, Receive(host, pkt, sent), w')
        ensures host in w'.hosts && Advanced(h, w'.hosts[host])
      {
        ReceiptAdvances(swap, lib, w, Receive(host, pkt, sent), w');
      }
    } else {
      var s, w' := UnsafeDelivery(swap, lib, w, host, pkt);
      assert Next(swap, lib, w, Receive(host, pkt, s.sent), w');
    }
  }

  lemma {:induction false} Delivered(swap: Swap, lib: MathLib, w: World, host: nat, pkt: Packet, nc: seq<Node>,
                                     h': HostState, sent: seq<Packet>) returns (w': World)
    requires host in w.hosts && pkt in w.net
    requires Received(swap, lib, host, w.hosts[host], w.clock, pkt, nc, h', sent)
    ensures w' == w.(hosts := w.hosts[host := h'], net := w.net - multiset{pkt} + multiset(sent))
    ensures Next(swap, lib, w, Receive(host, pkt, sent), w')
  {
    w' := w.(hosts := w.hosts[host := h'], net := w.net - multiset{pkt} + multiset(sent));
  }

  lemma {:induction false} ReceiptAdvances(swap: Swap, lib: MathLib, w: World, s: Step, w': World)
    requires WorldInv(w) && Next(swap, lib, w, s, w') && s.Receive? && s.host in w.hosts
    requires PacketSafe(swap, lib, w.hosts[s.host], w.clock, s.pkt)
    ensures s.host in w'.hosts && Advanced(w.hosts[s.host], w'.hosts[s.host])
  {
    var nc, h' := ReceiveOf(swap, lib, w, s, w');
    SafeAdvances(swap, lib, s.host, w.hosts[s.host], w.clock, s.pkt.ptype, nc, h', s.sent);
  }

  /** Only a datagram that is not safe can move an entry back: at every other step of every run, for
      the code and for the documented swap, an ID that stays in a table never goes back in time. */
  lemma {:induction false} SafeStepsAdvance(swap: Swap, lib: MathLib, ws: seq<World>, steps: seq<Step>, i: nat,
                                            host: nat)
    requires Run(swap, lib, ws, steps) && i < |steps| && host in ws[i].hosts
    requires steps[i].Receive? && steps[i].host == host
             ==> PacketSafe(swap, lib, ws[i].hosts[host], ws[i].clock, steps[i].pkt)
    ensures host in ws[i + 1].hosts && Advanced(ws[i].hosts[host], ws[i + 1].hosts[host])
  {
    RunInvariant(swap, lib, ws, steps, i);
    var w, s, w' := ws[i], steps[i], ws[i + 1];
    if s.Receive? && s.host == host {
      ReceiptAdvances(swap, lib, w, s, w');
    } else {
      OtherStepAdvances(swap, lib, w, s, w', host);
    }
  }

  lemma {:induction false} OtherStepAdvances(swap: Swap, lib: MathLib, w: World, s: Step, w': World, host: nat)
    requires WorldInv(w) && Next(swap, lib, w, s, w') && host in w.hosts && !(s.Receive? && s.host == host)
    ensures host in w'.hosts && Advanced(w.hosts[host], w'.hosts[host])
  {
    var h := w.hosts[host];
    if s.Cleanup? && s.host == host {
      var h' := CleanupOf(swap, lib, w, s, w');
      ExpiryKeepsTheNew(h, w.clock, h');
      NeverOlderThroughRemoval(h.rn, h'.rn);
      NeverOlderThroughRemoval(h.im, h'.im);
    } else {
      SameTables(swap, lib, w, s, w', host);
      NeverOlderThroughRemoval(h.rn, h.rn);
      NeverOlderThroughRemoval(h.im, h.im);
    }
  }

  /** With the documented swap, an ID that stays in a table never goes back in time, at any step of
      any run. */
  lemma {:induction false} TablesNeverGetOlder(lib: MathLib, ws: seq<World>, steps: seq<Step>, i: nat, host: nat)
    requires Run(RecordSwap, lib, ws, steps) && i < |steps| && host in ws[i].hosts
    ensures host in ws[i + 1].hosts && Advanced(ws[i].hosts[host], ws[i + 1].hosts[host])
  {
    RunInvariant(RecordSwap, lib, ws, steps, i);
    forall pkt: Packet
      ensures PacketSafe(RecordSwap, lib, ws[i].hosts[host], ws[i].clock, pkt)
    {
      forall nc | SameWire(nc, pkt.nodes)
        ensures MessageSafe(RecordSwap, lib, ws[i].hosts[host], ws[i].clock, pkt.ptype, nc)
      {
        DocumentedIsSafe(lib, ws[i].hosts[host], ws[i].clock, pkt.ptype, nc);
      }
    }
    SafeStepsAdvance(RecordSwap, lib, ws, steps, i, host);
  }

  // ----- A run of the code that goes back -----

  /** Two nodes, nothing in flight. */
  function Pair(a: Config, b: Config): World {
    World(0, map[0 := Initial(a, 0), 1 := Initial(b, 0)], multiset{})
  }

  /** A node with empty tables cleans up: all that happens is the bootstrap message. */
  lemma {:induction false} Bootstraps(swap: Swap, lib: MathLib, w: World, host: nat) returns (s: Step, w': World)
    requires host in w.hosts && w.hosts[host].rn == [] && w.hosts[host].im == [] && w.hosts[host].subs == []
    requires CleanupDue(w.hosts[host], w.clock)
    ensures Next(swap, lib, w, s, w')
    ensures w' == w.(hosts := w.hosts[host := w.hosts[host].(lastCleanup := w.clock)],
                     net := w.net + multiset{Bootstrap(host, w.hosts[host].cfg, w.clock)})
  {
    var h := w.hosts[host];
    var h', pkt := h.(lastCleanup := w.clock), Bootstrap(host, h.cfg, w.clock);
    s := Cleanup(host, [pkt], None);
    w' := w.(hosts := w.hosts[host := h'], net := w.net + multiset([pkt]));
    assert [pkt][1..] == [];
    assert RequestsVia(lib, host, h', w.clock, None, None, [pkt]);
    assert CleanupStep(lib, host, h, w.clock, h', [pkt], None);
  }

  lemma {:induction false} FirstMerge(swap: Swap, own: U32, capacity: nat, x: Node)
    requires capacity >= 2 && x.nodeID != own
    ensures RandomMerge(swap, own, capacity, [], [x], [x])
  {
    FilterAll(NotIgnored(own), [x]);
    assert Appended([], capacity, [x], own) == [x];
    assert [x][0] == x;
    assert DedupSpec(swap, [x], [x]);
    assert Top(ByTimeStamp, capacity / 2, [x], [x]);
    RandomMergeClosedForm(swap, own, capacity, [], [x], [x]);
  }

  lemma {:induction false} FirstEntry(swap: Swap, lib: MathLib, h: HostState, now: U32, x: Node) returns (h': HostState)
    requires h.rn == [] && h.im == [] && h.cfg.n >= 1 && h.imMax >= h.cfg.k && x.nodeID != h.cfg.id
    ensures RandomReceived(swap, lib, h, now, [x], [x], h')
    ensures h'.cfg == h.cfg && h'.rn == Scored(lib, InternalNode(h.cfg, now), [x])
  {
    var rn := Scored(lib, InternalNode(h.cfg, now), [x]);
    FirstMerge(swap, h.cfg.id, 2 * h.cfg.n, x);
    var im', imMax' := ImportantMergeExists(swap, h.cfg.id, h.cfg.k, h.im, h.imMax, rn);
    h' := h.(rn := rn, im := im', imMax := imMax');
  }

  /** A node with empty tables takes in the bootstrap message of another one. */
  lemma {:induction false} TakesIn(swap: Swap, lib: MathLib, w: World, host: nat, pkt: Packet, x: Node)
    returns (s: Step, w': World)
    requires host in w.hosts && w.hosts[host].rn == [] && w.hosts[host].im == [] && pkt in w.net
    requires w.hosts[host].cfg.n >= 1 && w.hosts[host].imMax >= w.hosts[host].cfg.k
    requires pkt.ptype == RND_REQ && pkt.nodes == [x] && x.nodeID != w.hosts[host].cfg.id
    ensures Next(swap, lib, w, s, w') && w'.clock == w.clock
    ensures host in w'.hosts && w'.hosts[host].cfg == w.hosts[host].cfg
    ensures w'.hosts[host].rn == Scored(lib, InternalNode(w.hosts[host].cfg, w.clock), [x])
    ensures forall p :: p in w.net && p != pkt ==> p in w'.net
  {
    var h, nc := w.hosts[host], [x];
    var h' := FirstEntry(swap, lib, h, w.clock, x);
    var sent := ReactionExists(swap, lib, host, h, w.clock, RND_REQ, nc, nc, h');
    s := Receive(host, pkt, sent);
    w' := Delivered(swap, lib, w, host, pkt, nc, h', sent);
  }

  /** An older record of the only node in the random table is not safe for the code. */
  lemma {:induction false} OvertakenIsUnsafe(lib: MathLib, h: HostState, now: U32, pkt: Packet, x: Node, y: Node)
    requires HostInv(h) && h.cfg.n >= 1 && h.rn == [x] && pkt.ptype == RND_REQ && pkt.nodes == [y]
    requires x.nodeID == y.nodeID && y.timeStamp < x.timeStamp
    ensures !PacketSafe(WordSwap, lib, h, now, pkt)
  {
    var own, capacity := h.cfg.id, 2 * h.cfg.n;
    assert h.rn[0] == x;
    FilterAll(NotIgnored(own), [y]);
    assert Appended([x], capacity, [y], own) == [x, y];
    assert x in h.rn && y in [x, y] && Stale(h.rn, y);
    assert AboveIDs(ByTimeStamp, [x, y], y) == {};
    assert !RandomStaysFresh(WordSwap, own, capacity, h.rn, [y]);
    assert SameWire([y], pkt.nodes);
  }

  lemma {:induction false} RunExtends(swap: Swap, lib: MathLib, ws: seq<World>, steps: seq<Step>, s: Step, w': World)
    requires Run(swap, lib, ws, steps) && Next(swap, lib, ws[|steps|], s, w')
    ensures Run(swap, lib, ws + [w'], steps + [s])
  {
    var ws', steps' := ws + [w'], steps + [s];
    forall i | 0 <= i < |steps'|
      ensures Next(swap, lib, ws'[i], steps'[i], ws'[i + 1])
    {
      assert i < |steps| ==> ws'[i] == ws[i] && steps'[i] == steps[i] && ws'[i + 1] == ws[i + 1];
    }
  }

  lemma {:induction false} PairStarts(swap: Swap, lib: MathLib, a: Config, b: Config)
    requires a.Sound() && b.Sound()
    ensures Run(swap, lib, [Pair(a, b)], [])
  {
    var w := Pair(a, b);
    assert w.hosts[0] == Initial(a, w.clock) && w.hosts[1] == Initial(b, w.clock);
  }

  /** One of the two sends its bootstrap message, some time later. */
  lemma {:induction false} BootstrapsAt(swap: Swap, lib: MathLib, ws: seq<World>, steps: seq<Step>, a: Config, now: U32)
    returns (ws': seq<World>, steps': seq<Step>)
    requires Run(swap, lib, ws, steps) && ws[|steps|].clock <= now
    requires var w := ws[|steps|];
             0 in w.hosts && w.hosts[0] == Initial(a, 0).(lastCleanup := w.hosts[0].lastCleanup)
             && CleanupDue(w.hosts[0], now)
    ensures Run(swap, lib, ws', steps') && |steps'| == |steps| + 2
    ensures var w := ws[|steps|];
            ws'[|steps'|] == World(now, w.hosts[0 := Initial(a, now)], w.net + multiset{Bootstrap(0, a, now)})
  {
    var n := |steps|;
    var ticked := ws[n].(clock := now);
    RunExtends(swap, lib, ws, steps, Tick(now), ticked);
    ws', steps' := BootstrapsNow(swap, lib, ws + [ticked], steps + [Tick(now)]);
  }

  lemma {:induction false} BootstrapsNow(swap: Swap, lib: MathLib, ws: seq<World>, steps: seq<Step>)
    returns (ws': seq<World>, steps': seq<Step>)
    requires Run(swap, lib, ws, steps)
    requires var w := ws[|steps|];
             0 in w.hosts && w.hosts[0].rn == [] && w.hosts[0].im == [] && w.hosts[0].subs == []
             && CleanupDue(w.hosts[0], w.clock)
    ensures Run(swap, lib, ws', steps') && |steps'| == |steps| + 1
    ensures var w := ws[|steps|];
            ws'[|steps'|] == w.(hosts := w.hosts[0 := w.hosts[0].(lastCleanup := w.clock)],
                                net := w.net + multiset{Bootstrap(0, w.hosts[0].cfg, w.clock)})
  {
    var s, w' := Bootstraps(swap, lib, ws[|steps|], 0);
    RunExtends(swap, lib, ws, steps, s, w');
    ws', steps' := ws + [w'], steps + [s];
  }

  /** Both messages are on their way, and the later one arrives first. */
  lemma {:induction false} Overtaking(swap: Swap, lib: MathLib, a: Config, b: Config, t: U32)
    returns (ws: seq<World>, steps: seq<Step>)
    requires a.Sound() && b.Sound() && a.id != b.id && b.n >= 1
    requires a.timeout < t && 2 * t < 0x1_0000_0000
    ensures Run(swap, lib, ws, steps) && |steps| == 5
    ensures ws[5].clock == 2 * t && Bootstrap(0, a, t) in ws[5].net
    ensures 1 in ws[5].hosts && ws[5].hosts[1].cfg == b
    ensures ws[5].hosts[1].rn == Scored(lib, InternalNode(b, 2 * t), [OwnNode(a, 2 * t)])
  {
    PairStarts(swap, lib, a, b);
    ws, steps := BootstrapsAt(swap, lib, [Pair(a, b)], [], a, t);
    ws, steps := BootstrapsAt(swap, lib, ws, steps, a, 2 * t);
    var early, late, x := Bootstrap(0, a, t), Bootstrap(0, a, 2 * t), OwnNode(a, 2 * t);
    BootstrapNodes(a, t);
    BootstrapNodes(a, 2 * t);
    var s, w' := TakesIn(swap, lib, ws[4], 1, late, x);
    RunExtends(swap, lib, ws, steps, s, w');
    ws, steps := ws + [w'], steps + [s];
  }

  lemma {:induction false} BootstrapNodes(a: Config, now: U32)
    ensures Bootstrap(0, a, now).nodes == [OwnNode(a, now)]
    ensures Bootstrap(0, a, now).nodes[0].timeStamp == now
  {
  }

  /** Then the earlier one arrives. */
  lemma {:induction false} EarlyArrives(lib: MathLib, w: World, a: Config, b: Config, t: U32)
    returns (s: Step, w': World)
    requires 0 < t && 2 * t < 0x1_0000_0000 && b.n >= 1
    requires WorldInv(w) && w.clock == 2 * t && Bootstrap(0, a, t) in w.net
    requires 1 in w.hosts && w.hosts[1].cfg == b
    requires w.hosts[1].rn == Scored(lib, InternalNode(b, 2 * t), [OwnNode(a, 2 * t)])
    ensures Next(WordSwap, lib, w, s, w')
    ensures 1 in w'.hosts && !Advanced(w.hosts[1], w'.hosts[1])
  {
    BootstrapNodes(a, t);
    var x := OwnNode(a, 2 * t).(utility := Utility(lib, InternalNode(b, 2 * t), OwnNode(a, 2 * t)));
    assert w.hosts[1].rn == [x];
    OvertakenIsUnsafe(lib, w.hosts[1], w.clock, Bootstrap(0, a, t), x, OwnNode(a, t));
    s, w' := UnsafeDelivery(WordSwap, lib, w, 1, Bootstrap(0, a, t));
  }

  /** For any two nodes the code has a run in which an entry goes back in time: of two bootstrap
      messages of `a` the later overtakes the earlier on the way to `b`. */
  lemma {:induction false} OvertakenRunGoesBack(lib: MathLib, a: Config, b: Config)
    returns (ws: seq<World>, steps: seq<Step>)
    requires a.Sound() && b.Sound() && a.id != b.id && b.n >= 1
    ensures Run(WordSwap, lib, ws, steps) && |steps| == 6
    ensures 1 in ws[5].hosts && 1 in ws[6].hosts && !Advanced(ws[5].hosts[1], ws[6].hosts[1])
  {
    var t := a.timeout + 1;
    ws, steps := Overtaking(WordSwap, lib, a, b, t);
    RunInvariant(WordSwap, lib, ws, steps, 5);
    var s, w' := EarlyArrives(lib, ws[5], a, b, t);
    RunExtends(WordSwap, lib, ws, steps, s, w');
    ws, steps := ws + [w'], steps + [s];
  }

  lemma {:induction false} UnsafeDelivery(swap: Swap, lib: MathLib, w: World, host: nat, pkt: Packet)
    returns (s: Step, w': World)
    requires WorldInv(w) && host in w.hosts && pkt in w.net && pkt.nodes != []
    requires !PacketSafe(swap, lib, w.hosts[host], w.clock, pkt)
    ensures s.Receive? && s.host == host && s.pkt == pkt && Next(swap, lib, w, s, w')
    ensures host in w'.hosts && !Advanced(w.hosts[host], w'.hosts[host])
  {
    var h := w.hosts[host];
    var nc :| SameWire(nc, pkt.nodes) && !MessageSafe(swap, lib, h, w.clock, pkt.ptype, nc);
    var h', sent := UnsafeGoesBack(swap, lib, host, h, w.clock, pkt.ptype, nc);
    s := Receive(host, pkt, sent);
    w' := Delivered(swap, lib, w, host, pkt, nc, h', sent);
  }
}
