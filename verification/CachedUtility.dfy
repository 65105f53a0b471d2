/** The utilities cached with the table entries: where they come from, when they agree with a fresh
    computation, and what a move does to them. */
module CachedUtility {
  import opened Collections
  import opened Records
  import opened Dedup
  import opened Geometry
  import opened TableSpec
  import opened Merging
  import opened Subscribers
  import opened Steps
  import opened HostLaws
  import opened Network
  import opened Outcomes
  import opened Discovery
  import Ieee754

  // ----- Where a cached utility comes from -----

  /** The cached utility of the entry is the one for a node with this position and range. */
  ghost predicate ScoredFor(lib: MathLib, cfg: Config, n: Node) {
    n.utility == Utility(lib, InternalNode(cfg, 0), n)
  }

  ghost predicate Current(lib: MathLib, cfg: Config, s: seq<Node>) {
    forall n :: n in s ==> ScoredFor(lib, cfg, n)
  }

  ghost predicate UtilitiesCurrent(lib: MathLib, h: HostState) {
    Current(lib, h.cfg, h.rn) && Current(lib, h.cfg, h.im)
  }

  predicate Entry(h: HostState, n: Node) {
    n in h.rn || n in h.im
  }

  lemma {:induction false} ScoredIsCurrent(lib: MathLib, cfg: Config, now: U32, s: seq<Node>)
    ensures Current(lib, cfg, Scored(lib, InternalNode(cfg, now), s))
  {
    var t := Scored(lib, InternalNode(cfg, now), s);
    ScoredFacts(lib, InternalNode(cfg, now), s);
    forall n | n in t
      ensures ScoredFor(lib, cfg, n)
    {
      UtilityIgnoresIdentity(lib, InternalNode(cfg, now), InternalNode(cfg, 0), n, n);
    }
  }

  /** Whatever a node holds after a message it held before, or has just scored. */
  lemma {:induction false} ReceiveScores(swap: Swap, lib: MathLib, host: nat, h: HostState, now: U32, ptype: U8,
                                         nc: seq<Node>, h': HostState, sent: seq<Packet>, n: Node)
    requires HostInv(h) && ReceiveStep(swap, lib, host, h, now, ptype, nc, h', sent) && Entry(h', n)
    ensures Entry(h, n) || ScoredFor(lib, h.cfg, n)
  {
    if ptype == RND_NOREQ || ptype == RND_REQ {
      var rn1 :| RandomReceived(swap, lib, h, now, nc, rn1, h');
      ScoredIsCurrent(lib, h.cfg, now, rn1);
      ImportantMergeKeeps(swap, h.cfg.id, h.cfg.k, h.im, h.imMax, h'.rn, h'.im, h'.imMax);
    } else if ptype == IMP_NOREQ || ptype == IMP_REQ {
      ScoredIsCurrent(lib, h.cfg, now, nc);
      ImportantMergeKeeps(swap, h.cfg.id, h.cfg.k, h.im, h.imMax, Scored(lib, InternalNode(h.cfg, now), nc),
                          h'.im, h'.imMax);
    }
  }

  lemma {:induction false} StepScores(swap: Swap, lib: MathLib, w: World, s: Step, w': World, host: nat, n: Node)
    requires WorldInv(w) && Next(swap, lib, w, s, w') && host in w.hosts && host in w'.hosts
    requires Entry(w'.hosts[host], n)
    ensures Entry(w.hosts[host], n) || ScoredFor(lib, w.hosts[host].cfg, n)
  {
    var h := w.hosts[host];
    if s.Receive? && s.host == host {
      var nc, h' := ReceiveOf(swap, lib, w, s, w');
      ReceiveScores(swap, lib, host, h, w.clock, s.pkt.ptype, nc, h', s.sent, n);
    } else if s.Cleanup? && s.host == host {
      var h' := CleanupOf(swap, lib, w, s, w');
      ExpiryKeepsTheNew(h, w.clock, h');
    } else {
      SameTables(swap, lib, w, s, w', host);
    }
  }

  lemma {:induction false} NewcomerIsEmpty(swap: Swap, lib: MathLib, w: World, s: Step, w': World, host: nat)
    requires Next(swap, lib, w, s, w') && host !in w.hosts && host in w'.hosts
    ensures w'.hosts[host].rn == [] && w'.hosts[host].im == []
  {
    assert s.Join? && s.host == host;
  }

  /** The cached utility is the one for the position and range the node had at world `j`. */
  ghost predicate ScoredThen(lib: MathLib, ws: seq<World>, j: nat, host: nat, n: Node)
    requires j < |ws|
  {
    host in ws[j].hosts && ScoredFor(lib, ws[j].hosts[host].cfg, n)
  }

  /** In every run, wherever its node has moved, the utility cached with an entry is the one for a
      position and range the node had at some time in the run. */
  lemma {:induction false} CachedUtilityOrigin(swap: Swap, lib: MathLib, ws: seq<World>, steps: seq<Step>, i: nat,
                                               host: nat, n: Node) returns (j: nat)
    requires Run(swap, lib, ws, steps) && i < |ws| && host in ws[i].hosts && Entry(ws[i].hosts[host], n)
    ensures j <= i && ScoredThen(lib, ws, j, host, n)
    decreases i
  {
    j := 0;
    if i > 0 {
      var k := i - 1;
      RunScores(swap, lib, ws, steps, k, host, n);
      j := k;
      if Entry(ws[k].hosts[host], n) {
        j := CachedUtilityOrigin(swap, lib, ws, steps, k, host, n);
      }
    }
  }

  lemma {:induction false} RunScores(swap: Swap, lib: MathLib, ws: seq<World>, steps: seq<Step>, k: nat, host: nat,
                                     n: Node)
    requires Run(swap, lib, ws, steps) && k < |steps|
    requires host in ws[k + 1].hosts && Entry(ws[k + 1].hosts[host], n)
    ensures host in ws[k].hosts
    ensures Entry(ws[k].hosts[host], n) || ScoredFor(lib, ws[k].hosts[host].cfg, n)
  {
    RunInvariant(swap, lib, ws, steps, k);
    if host !in ws[k].hosts {
      NewcomerIsEmpty(swap, lib, ws[k], steps[k], ws[k + 1], host);
    }
    StepScores(swap, lib, ws[k], steps[k], ws[k + 1], host, n);
  }

  // ----- Standing still -----

  /** Up to world `i` no local request moved the node or changed its range. */
  predicate StandsStill(steps: seq<Step>, i: nat, host: nat)
    requires i <= |steps|
  {
    forall j :: 0 <= j < i ==> !(steps[j].Local? && steps[j].host == host && Moves(steps[j].lr))
  }

  predicate SamePlace(c: Config, c': Config) {
    c.lat == c'.lat && c.lon == c'.lon && c.coordRange == c'.coordRange
  }

  lemma {:induction false} StepKeepsPlace(swap: Swap, lib: MathLib, w: World, s: Step, w': World, host: nat)
    requires WorldInv(w) && Next(swap, lib, w, s, w') && host in w.hosts
    requires !(s.Local? && s.host == host && Moves(s.lr))
    ensures host in w'.hosts && SamePlace(w.hosts[host].cfg, w'.hosts[host].cfg)
  {
    if s.Receive? && s.host == host {
      var nc, h' := ReceiveOf(swap, lib, w, s, w');
      assert PacketInv(w, s.pkt);
      SameWireLive(nc, s.pkt.nodes);
      ReceiveKeeps(swap, lib, host, w.hosts[host], w.clock, s.pkt.ptype, nc, h', s.sent);
    } else if s.Cleanup? && s.host == host {
      var h' := CleanupOf(swap, lib, w, s, w');
    } else {
      SameTables(swap, lib, w, s, w', host);
    }
  }

  lemma {:induction false} PlaceKept(swap: Swap, lib: MathLib, ws: seq<World>, steps: seq<Step>, j: nat, i: nat,
                                     host: nat)
    requires Run(swap, lib, ws, steps) && j <= i < |ws| && host in ws[j].hosts && StandsStill(steps, i, host)
    ensures host in ws[i].hosts && SamePlace(ws[j].hosts[host].cfg, ws[i].hosts[host].cfg)
    decreases i
  {
    if j < i {
      var k := i - 1;
      PlaceKept(swap, lib, ws, steps, j, k, host);
      RunKeepsPlace(swap, lib, ws, steps, k, host);
    }
  }

  lemma {:induction false} RunKeepsPlace(swap: Swap, lib: MathLib, ws: seq<World>, steps: seq<Step>, k: nat, host: nat)
    requires Run(swap, lib, ws, steps) && k < |steps| && host in ws[k].hosts && StandsStill(steps, k + 1, host)
    ensures host in ws[k + 1].hosts && SamePlace(ws[k].hosts[host].cfg, ws[k + 1].hosts[host].cfg)
  {
    RunInvariant(swap, lib, ws, steps, k);
    StepKeepsPlace(swap, lib, ws[k], steps[k], ws[k + 1], host);
  }

  /** In every run in which a node stands still, the utility cached with each of its entries is the
      one a fresh computation would give, after any merges, deduplications, sorts, expiries and
      cuts. */
  lemma {:induction false} CachedUtilityAgrees(swap: Swap, lib: MathLib, ws: seq<World>, steps: seq<Step>, i: nat,
                                               host: nat)
    requires Run(swap, lib, ws, steps) && i < |ws| && host in ws[i].hosts
    requires StandsStill(steps, i, host)
    ensures UtilitiesCurrent(lib, ws[i].hosts[host])
  {
    var h := ws[i].hosts[host];
    forall n | Entry(h, n)
      ensures ScoredFor(lib, h.cfg, n)
    {
      var j := CachedUtilityOrigin(swap, lib, ws, steps, i, host, n);
      PlaceKept(swap, lib, ws, steps, j, i, host);
      UtilityIgnoresIdentity(lib, InternalNode(ws[j].hosts[host].cfg, 0), InternalNode(h.cfg, 0), n, n);
    }
  }

  // ----- Moving -----

  /** A local request leaves the cached utilities right exactly if the new position and range give
      every entry the utility it had. */
  lemma {:induction false} RequestKeepsCurrentIff(lib: MathLib, h: HostState, lr: LocalRequest)
    requires UtilitiesCurrent(lib, h)
    ensures UtilitiesCurrent(lib, Handled(h, lr))
       <==> forall n :: Entry(h, n) ==>
              Utility(lib, InternalNode(Handled(h, lr).cfg, 0), n) == Utility(lib, InternalNode(h.cfg, 0), n)
  {
    var h' := Handled(h, lr);
    assert h'.rn == h.rn && h'.im == h.im;
    assert forall n :: Entry(h, n) ==> ScoredFor(lib, h.cfg, n);
  }

  /** The sum of the ranges has changed in proportion to the distance. */
  predicate InProportion(lib: MathLib, c: Config, c': Config, n: Node) {
    var a, b := InternalNode(c, 0), InternalNode(c', 0);
    SameRatio(RangeSum(b, n), Distance(lib, b, n), RangeSum(a, n), Distance(lib, a, n))
  }

  /** In terms of ranges and distances: a local request leaves the cached utilities right exactly if
      for every entry the sum of the ranges changes in proportion to the distance. */
  lemma {:induction false} MoveKeepsCurrentIff(lib: MathLib, h: HostState, lr: LocalRequest)
    requires lib.Lawful() && UtilitiesCurrent(lib, h)
    ensures UtilitiesCurrent(lib, Handled(h, lr))
       <==> forall n :: Entry(h, n) ==> InProportion(lib, h.cfg, Handled(h, lr).cfg, n)
  {
    var c, c' := h.cfg, Handled(h, lr).cfg;
    RequestKeepsCurrentIff(lib, h, lr);
    forall n: Node
      ensures Utility(lib, InternalNode(c', 0), n) == Utility(lib, InternalNode(c, 0), n)
         <==> InProportion(lib, c, c', n)
    {
      SameUtilityIff(lib, InternalNode(c', 0), InternalNode(c, 0), n);
    }
  }

  /** A new range makes every entry stale that is not at the node's own place. */
  lemma {:induction false} RangeKeepsCurrentIff(lib: MathLib, h: HostState, lr: LocalRequest)
    requires lib.Lawful() && UtilitiesCurrent(lib, h) && lr.rtype == SET_COORDINATION_RANGE
    ensures UtilitiesCurrent(lib, Handled(h, lr))
       <==> lr.coordRange == h.cfg.coordRange
            || forall n :: Entry(h, n) ==> Distance(lib, InternalNode(h.cfg, 0), n) == 0.0
  {
    MoveKeepsCurrentIff(lib, h, lr);
    forall n: Node
      ensures InProportion(lib, h.cfg, Handled(h, lr).cfg, n)
         <==> lr.coordRange == h.cfg.coordRange || Distance(lib, InternalNode(h.cfg, 0), n) == 0.0
    {
      RangeInProportion(lib, h.cfg, lr.coordRange, n);
    }
  }

  lemma {:induction false} RangeInProportion(lib: MathLib, c: Config, range: U16, n: Node)
    ensures InProportion(lib, c, c.(coordRange := range), n)
       <==> range == c.coordRange || Distance(lib, InternalNode(c, 0), n) == 0.0
  {
    var a, b := InternalNode(c, 0), InternalNode(c.(coordRange := range), 0);
    var d := Distance(lib, a, n);
    assert Distance(lib, b, n) == d;
    assert RangeSum(a, n) == RangeSum(b, n) <==> range == c.coordRange;
    if d != 0.0 {
      SameFactor(RangeSum(b, n), RangeSum(a, n), d);
    }
  }

  lemma {:induction false} SameFactor(x: real, y: real, d: real)
    requires d != 0.0
    ensures x * d == y * d <==> x == y
  {
    assert (x - y) * d == x * d - y * d;
  }

  // ----- What a message does to stale utilities -----

  /** Only old entries among the contenders can be stale. */
  lemma {:induction false} StaleIsOld(swap: Swap, lib: MathLib, h: HostState, now: U32, msg: seq<Node>, n: Node)
    requires |h.im| <= h.imMax && n in Contenders(swap, lib, h, now, msg) && !ScoredFor(lib, h.cfg, n)
    ensures n in h.im
  {
    var scored := Scored(lib, InternalNode(h.cfg, now), msg);
    PoolMembers(swap, ExpectedMerge(lib, h, now, msg));
    AppendedMembers(h.im, h.imMax, scored, h.cfg.id);
    ScoredIsCurrent(lib, h.cfg, now, msg);
  }

  /** No stale entry may both survive the deduplication and stay above the cut. */
  ghost predicate StaleGoes(lib: MathLib, h: HostState, pool: seq<Node>) {
    forall n :: n in h.im && !ScoredFor(lib, h.cfg, n) && n in pool ==> !MayBeKept(h.cfg.k, h.imMax, pool, n)
  }

  /** A message of important nodes is sure to leave the table free of stale utilities exactly if no
      old entry with a stale utility may both survive the deduplication and stay above the cut. */
  lemma {:induction false} MessageRefreshesIff(swap: Swap, lib: MathLib, h: HostState, now: U32, msg: seq<Node>)
    requires HostInv(h)
    ensures (forall h' :: ImportantReceived(swap, lib, h, now, msg, h') ==> Current(lib, h.cfg, h'.im))
       <==> StaleGoes(lib, h, Contenders(swap, lib, h, now, msg))
  {
    var pool := Contenders(swap, lib, h, now, msg);
    var scored := Scored(lib, InternalNode(h.cfg, now), msg);
    if StaleGoes(lib, h, pool) {
      forall h' | ImportantReceived(swap, lib, h, now, msg, h')
        ensures Current(lib, h.cfg, h'.im)
      {
        RefreshedBy(swap, lib, h, now, msg, h');
      }
    } else {
      var n :| n in h.im && !ScoredFor(lib, h.cfg, n) && n in pool && MayBeKept(h.cfg.k, h.imMax, pool, n);
      var im', imMax' := KeepingOutcome(swap, h.cfg.id, h.cfg.k, h.im, h.imMax, scored, n);
      var h' := h.(im := im', imMax := imMax');
      assert ImportantReceived(swap, lib, h, now, msg, h') && !Current(lib, h.cfg, h'.im);
    }
  }

  lemma {:induction false} RefreshedBy(swap: Swap, lib: MathLib, h: HostState, now: U32, msg: seq<Node>, h': HostState)
    requires HostInv(h) && ImportantReceived(swap, lib, h, now, msg, h')
    requires StaleGoes(lib, h, Contenders(swap, lib, h, now, msg))
    ensures Current(lib, h.cfg, h'.im)
  {
    var scored := Scored(lib, InternalNode(h.cfg, now), msg);
    forall n | n in h'.im
      ensures ScoredFor(lib, h.cfg, n)
    {
      ImportantKept(swap, h.cfg.id, h.cfg.k, h.im, h.imMax, scored, h'.im, h'.imMax, n);
      if !ScoredFor(lib, h.cfg, n) {
        StaleIsOld(swap, lib, h, now, msg, n);
      }
    }
  }

  /** A message of random nodes always refreshes the whole random table. */
  lemma {:induction false} RandomTableRefreshed(swap: Swap, lib: MathLib, h: HostState, now: U32, nc: seq<Node>,
                                                rn1: seq<Node>, h': HostState)
    requires RandomReceived(swap, lib, h, now, nc, rn1, h')
    ensures Current(lib, h.cfg, h'.rn)
  {
    ScoredIsCurrent(lib, h.cfg, now, rn1);
  }

  // ----- What a move does to the candidates -----

  /** An entry that a move leaves out of range still counts as a candidate. */
  lemma {:induction false} MovedOutOfRange(lib: MathLib, h: HostState, lr: LocalRequest, n: Node)
    requires lib.Lawful() && n in h.im && n.utility >= 1.0
    requires Distance(lib, InternalNode(Handled(h, lr).cfg, 0), n) > RangeSum(InternalNode(Handled(h, lr).cfg, 0), n)
    ensures !UtilitiesCurrent(lib, Handled(h, lr))
    ensures n in Filter(Candidate(), Handled(h, lr).im)
  {
    var h' := Handled(h, lr);
    CandidateIffInRange(lib, InternalNode(h'.cfg, 0), n);
    FilterMembers(Candidate(), h'.im);
    assert n in h'.im && !ScoredFor(lib, h'.cfg, n);
  }

  /** A node with range 0 that knows one other node at its own place. */
  function Together(own: Node, n: Node): HostState {
    var cfg := Config(0, 0, 0, 0, own.nodeID, own.lat, own.lon, 0, 100, 1, 2, 2, 2, 0, 0);
    HostState(cfg, [], [n.(lat := own.lat, lon := own.lon, coordRange := 0, utility := Ieee754.DBL_MAX)], 4, [], 0)
  }

  lemma {:induction false} TogetherInv(own: Node, n: Node)
    requires own.nodeID != 0 && n.nodeID != 0 && own.nodeID != n.nodeID
    ensures HostInv(Together(own, n))
  {
    var h := Together(own, n);
    assert h.imMax == CapacityAfter(h.cfg, 0);
    assert Addresses(h.subs) == [];
  }

  /** After SET_POSITION to any other point of the sphere that entry is stale: it was cached as a
      candidate, is out of range now, and the next list for the subscribers still names it. */
  lemma {:induction false} StaleAfterMove(lib: MathLib, own: Node, n: Node, lat: real, lon: real)
    requires lib.Lawful() && lib.Differences()
    requires forall x :: 0.0 <= x <= 1.0 ==> (lib.asin(x) == 0.0 <==> x == 0.0)
    requires own.nodeID != 0 && n.nodeID != 0 && own.nodeID != n.nodeID
    requires PointAt(lib, lat, lon) != PointAt(lib, own.lat, own.lon)
    ensures var h := Together(own, n);
            var moved := Handled(h, LocalRequest(SET_POSITION, lat, lon, 0, " "));
            && HostInv(h) && UtilitiesCurrent(lib, h) && HostInv(moved) && !UtilitiesCurrent(lib, moved)
            && h.im[0] in Filter(Candidate(), moved.im)
            && Distance(lib, InternalNode(moved.cfg, 0), h.im[0]) > RangeSum(InternalNode(moved.cfg, 0), h.im[0])
  {
    var h, lr := Together(own, n), LocalRequest(SET_POSITION, lat, lon, 0, " ");
    var moved := Handled(h, lr);
    TogetherInv(own, n);
    HandledInv(h, lr);
    ZeroDistanceIff(lib, InternalNode(h.cfg, 0), h.im[0]);
    assert Entry(h, h.im[0]) && ScoredFor(lib, h.cfg, h.im[0]);
    ZeroDistanceIff(lib, InternalNode(moved.cfg, 0), h.im[0]);
    AsinArgumentInRange(lib, lat, lon, own.lat, own.lon);
    Ieee754.DblMaxIsLarge();
    MovedOutOfRange(lib, h, lr, h.im[0]);
  }

  /** A node with range 0 that knows one other node, wherever that is. */
  function Separate(lib: MathLib, own: Node, n: Node): HostState {
    var h := Together(own, n);
    var m := n.(coordRange := 0);
    h.(im := [m.(utility := Utility(lib, InternalNode(h.cfg, 0), m))])
  }

  /** Conversely a move can bring an entry into range that is left out of the lists because of its
      stale utility. */
  lemma {:induction false} LeftOutAfterMove(lib: MathLib, own: Node, n: Node)
    requires lib.Lawful() && lib.Differences()
    requires forall x :: 0.0 <= x <= 1.0 ==> (lib.asin(x) == 0.0 <==> x == 0.0)
    requires own.nodeID != 0 && n.nodeID != 0 && own.nodeID != n.nodeID
    requires PointAt(lib, n.lat, n.lon) != PointAt(lib, own.lat, own.lon)
    ensures var h := Separate(lib, own, n);
            var moved := Handled(h, LocalRequest(SET_POSITION, n.lat, n.lon, 0, " "));
            && HostInv(h) && UtilitiesCurrent(lib, h) && HostInv(moved) && !UtilitiesCurrent(lib, moved)
            && h.im[0] in moved.im && h.im[0] !in Filter(Candidate(), moved.im)
            && Distance(lib, InternalNode(moved.cfg, 0), h.im[0]) <= RangeSum(InternalNode(moved.cfg, 0), h.im[0])
  {
    var h, lr := Separate(lib, own, n), LocalRequest(SET_POSITION, n.lat, n.lon, 0, " ");
    var moved, m := Handled(h, lr), h.im[0];
    assert h == Together(own, n).(im := [m]);
    TogetherInv(own, n);
    SeparateInv(own, n, m);
    HandledInv(h, lr);
    UtilityIgnoresIdentity(lib, InternalNode(h.cfg, 0), InternalNode(h.cfg, 0), n.(coordRange := 0), m);
    assert Entry(h, m) && ScoredFor(lib, h.cfg, m);
    ZeroDistanceIff(lib, InternalNode(h.cfg, 0), m);
    ZeroDistanceIff(lib, InternalNode(moved.cfg, 0), m);
    NotInRangeBefore(lib, h, m);
    CandidateIffInRange(lib, InternalNode(moved.cfg, 0), m);
    FilterMembers(Candidate(), moved.im);
    assert !ScoredFor(lib, moved.cfg, m);
  }

  lemma {:induction false} SeparateInv(own: Node, n: Node, m: Node)
    requires HostInv(Together(own, n)) && m.nodeID == n.nodeID
    ensures HostInv(Together(own, n).(im := [m]))
  {
    var h := Together(own, n);
    assert h.im[0].nodeID == n.nodeID;
    assert !HasID(h.im, h.cfg.id);
  }

  lemma {:induction false} NotInRangeBefore(lib: MathLib, h: HostState, m: Node)
    requires lib.Lawful() && ScoredFor(lib, h.cfg, m) && h.cfg.coordRange == 0 && m.coordRange == 0
    requires Distance(lib, InternalNode(h.cfg, 0), m) != 0.0
    ensures m.utility < 1.0
  {
    AsinArgumentInRange(lib, h.cfg.lat, h.cfg.lon, m.lat, m.lon);
    CandidateIffInRange(lib, InternalNode(h.cfg, 0), m);
  }
}
