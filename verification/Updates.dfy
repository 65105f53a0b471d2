/** What a message does to the tables and what the messages hold, over whole runs and without the
    helper functions of the code: in terms of IDs, timestamps, utilities and plain numbers. */
module Updates {
  import opened Collections
  import opened Records
  import opened Sorting
  import opened Dedup
  import opened Geometry
  import opened TableSpec
  import opened Merging
  import opened Outcomes
  import opened Steps
  import opened HostLaws
  import opened Network
  import Ieee754

  // ----- Vocabulary -----

  /** The first `room` records of a message that do not carry this ID. */
  function FirstForeign(own: U32, msg: seq<Node>, room: int): seq<Node> {
    if msg == [] || room <= 0 then []
    else if msg[0].nodeID == own then FirstForeign(own, msg[1..], room)
    else [msg[0]] + FirstForeign(own, msg[1..], room - 1)
  }

  function Keys(s: seq<Node>): set<U32> {
    set n | n in s :: n.nodeID
  }

  function CandidateKeys(s: seq<Node>): set<U32> {
    set n | n in s && n.utility >= 1.0 :: n.nodeID
  }

  function Smaller(a: int, b: int): int {
    if a <= b then a else b
  }

  predicate NoneTwice(s: seq<Node>) {
    forall i, j :: 0 <= i < j < |s| ==> s[i].nodeID != s[j].nodeID
  }

  predicate Missing(s: seq<Node>, id: U32) {
    forall n :: n in s ==> n.nodeID != id
  }

  lemma {:induction false} FirstForeignIs(own: U32, msg: seq<Node>, room: nat)
    requires own != 0
    ensures FirstForeign(own, msg, room) == Take(Filter(NotIgnored(own), msg), room)
  {
    if msg != [] && room > 0 {
      var rest := Filter(NotIgnored(own), msg[1..]);
      if msg[0].nodeID == own {
        FirstForeignIs(own, msg[1..], room);
      } else {
        FirstForeignIs(own, msg[1..], room - 1);
        assert Take([msg[0]] + rest, room) == [msg[0]] + Take(rest, room - 1);
      }
    }
  }

  lemma {:induction false} AppendedIs(own: U32, a: seq<Node>, capacity: nat, msg: seq<Node>)
    requires own != 0 && |a| <= capacity
    ensures Appended(a, capacity, msg, own) == a + FirstForeign(own, msg, capacity - |a|)
  {
    FirstForeignIs(own, msg, capacity - |a|);
  }

  // ----- The random table -----

  /** From the records `c` the N newest are kept, one per ID, newest first. With the documented swap
      each is the newest of its ID. */
  ghost predicate KeepsNewest(swap: Swap, n: nat, c: seq<Node>, rn: seq<Node>) {
    && |rn| == Smaller(n, |Keys(c)|)
    && (forall x :: x in rn ==> x in c)
    && NoneTwice(rn)
    && (forall i, j :: 0 <= i < j < |rn| ==> rn[i].timeStamp >= rn[j].timeStamp)
    && (forall id :: id in Keys(c) && Missing(rn, id) ==> exists y :: TooOld(y, id, c, rn))
    && (swap.RecordSwap? ==> forall m, x :: m in c && x in rn && m.nodeID == x.nodeID ==> m.timeStamp <= x.timeStamp)
  }

  ghost predicate TooOld(y: Node, id: U32, c: seq<Node>, rn: seq<Node>) {
    y in c && y.nodeID == id && forall x :: x in rn ==> y.timeStamp <= x.timeStamp
  }

  /** The random table competes with as many foreign records of the message as fit 2N slots. */
  ghost predicate RandomKeeps(swap: Swap, own: U32, n: nat, rn: seq<Node>, msg: seq<Node>, r: seq<Node>) {
    KeepsNewest(swap, n, rn + FirstForeign(own, msg, 2 * n - |rn|), r)
  }

  lemma {:induction false} RandomPart(swap: Swap, own: U32, n: nat, rn: seq<Node>, msg: seq<Node>, r: seq<Node>)
    requires own != 0 && RandomMerge(swap, own, 2 * n, rn, msg, r)
    ensures |rn| <= 2 * n && RandomKeeps(swap, own, n, rn, msg, r)
  {
    var d, t :| RandomMergeVia(swap, own, 2 * n, rn, msg, d, t, r);
    MergeKeepsNewest(swap, own, n, 2 * n, rn, msg, d, t, r);
  }

  lemma {:induction false} MergeKeepsNewest(swap: Swap, own: U32, n: nat, capacity: nat, rn: seq<Node>,
                                            msg: seq<Node>, d: seq<Node>, t: seq<Node>, r: seq<Node>)
    requires own != 0 && capacity == 2 * n && RandomMergeVia(swap, own, capacity, rn, msg, d, t, r)
    ensures RandomKeeps(swap, own, n, rn, msg, r)
  {
    AppendedIs(own, rn, capacity, msg);
    SortedKeepsNewest(swap, n, rn + FirstForeign(own, msg, 2 * n - |rn|), d, t, r);
  }

  lemma {:induction false} SortedKeepsNewest(swap: Swap, n: nat, c: seq<Node>, d: seq<Node>, t: seq<Node>, r: seq<Node>)
    requires Deduped(swap, c, d) && IsSort(ByTimeStamp, d, t) && r == Take(t, n)
    ensures KeepsNewest(swap, n, c, r)
  {
    DedupMeetsSpec(swap, c, d);
    DedupCount(swap, c, d);
    TakeIsTop(ByTimeStamp, n, d, t);
    TopKeepsNewest(swap, n, c, d, r);
  }

  lemma {:induction false} TopKeepsNewest(swap: Swap, n: nat, c: seq<Node>, d: seq<Node>, r: seq<Node>)
    requires DedupSpec(swap, c, d) && |d| == |IDs(c)| && Top(ByTimeStamp, n, d, r)
    ensures KeepsNewest(swap, n, c, r)
  {
    assert IDs(c) == Keys(c);
    forall i, j | 0 <= i < j < |r|
      ensures r[i].timeStamp >= r[j].timeStamp
    {
      assert Rank(ByTimeStamp, r[i]) >= Rank(ByTimeStamp, r[j]);
    }
    forall id | id in Keys(c) && Missing(r, id)
      ensures exists y :: TooOld(y, id, c, r)
    {
      var m :| m in c && m.nodeID == id;
      var y := Representative(c, d, m);
      assert y in c && y !in r;
      assert forall x :: x in r ==> Rank(ByTimeStamp, y) <= Rank(ByTimeStamp, x);
      assert TooOld(y, id, c, r);
    }
  }

  // ----- The important table -----

  /** From the records `c` the most useful are kept, one per ID, most useful first: as many as fit
      below the capacity with K slots to spare. The capacity grows by K exactly if the candidates
      kept do not fit below the old one, and never beyond 10000. Whoever is dropped is represented by
      a record no more useful than any kept, and, unless the table cannot grow, by no candidate. */
  ghost predicate KeepsUseful(k: nat, capacity: nat, c: seq<Node>, im: seq<Node>, capacity': nat) {
    && GrowsRight(k, capacity, im, capacity')
    && |im| == Smaller(capacity' - k, |Keys(c)|)
    && PartOf(c, im)
    && MostUsefulFirst(im)
    && DropsPoor(c, im, capacity + k <= 10000)
  }

  ghost predicate GrowsRight(k: nat, capacity: nat, im: seq<Node>, capacity': nat) {
    && (capacity' == capacity || (capacity' == capacity + k && capacity + k <= 10000))
    && (capacity' > capacity <==> |CandidateKeys(im)| + k > capacity)
  }

  ghost predicate PartOf(c: seq<Node>, r: seq<Node>) {
    NoneTwice(r) && forall x :: x in r ==> x in c
  }

  predicate MostUsefulFirst(im: seq<Node>) {
    forall i, j :: 0 <= i < j < |im| ==> im[i].utility >= im[j].utility
  }

  ghost predicate DropsPoor(c: seq<Node>, im: seq<Node>, growable: bool) {
    forall id :: id in Keys(c) && Missing(im, id) ==> exists y :: TooPoor(y, id, c, im, growable)
  }

  ghost predicate TooPoor(y: Node, id: U32, c: seq<Node>, im: seq<Node>, growable: bool) {
    && y in c && y.nodeID == id
    && (forall x :: x in im ==> y.utility <= x.utility)
    && (growable ==> y.utility < 1.0)
  }

  /** The important table competes with as many foreign records as fit its capacity. */
  ghost predicate ImportantKeeps(own: U32, k: nat, im: seq<Node>, capacity: nat, b: seq<Node>, im': seq<Node>,
                                 capacity': nat)
  {
    KeepsUseful(k, capacity, im + FirstForeign(own, b, capacity - |im|), im', capacity')
  }

  lemma {:induction false} ImportantPart(swap: Swap, own: U32, k: nat, im: seq<Node>, capacity: nat, b: seq<Node>,
                                         im': seq<Node>, capacity': nat)
    requires own != 0 && ImportantMerge(swap, own, k, im, capacity, b, im', capacity')
    ensures |im| <= capacity && ImportantKeeps(own, k, im, capacity, b, im', capacity')
  {
    var d := ImportantMergeMeaning(swap, own, k, im, capacity, b, im', capacity');
    AppendedIs(own, im, capacity, b);
    TopKeepsUseful(swap, k, capacity, im + FirstForeign(own, b, capacity - |im|), d, im', capacity');
  }

  lemma {:induction false} TopKeepsUseful(swap: Swap, k: nat, capacity: nat, c: seq<Node>, d: seq<Node>,
                                          im': seq<Node>, capacity': nat)
    requires k <= capacity && DedupSpec(swap, c, d) && |d| == |IDs(c)| <= capacity
    requires ImportantOutcome(k, capacity, d, im', capacity')
    ensures KeepsUseful(k, capacity, c, im', capacity')
  {
    KeysAreIDs(c);
    OutcomeGrows(k, capacity, d, im', capacity');
    OutcomeIsPart(k, capacity, c, d, im', capacity');
    PoorAreDropped(k, capacity, c, d, im', capacity', capacity + k <= 10000);
    AllThree(k, capacity, c, im', capacity');
  }

  lemma {:induction false} KeysAreIDs(c: seq<Node>)
    ensures IDs(c) == Keys(c)
  {
  }

  lemma {:induction false} AllThree(k: nat, capacity: nat, c: seq<Node>, im: seq<Node>, capacity': nat)
    requires GrowsRight(k, capacity, im, capacity') && |im| == Smaller(capacity' - k, |Keys(c)|)
    requires PartOf(c, im) && MostUsefulFirst(im) && DropsPoor(c, im, capacity + k <= 10000)
    ensures KeepsUseful(k, capacity, c, im, capacity')
  {
  }

  lemma {:induction false} OutcomeGrows(k: nat, capacity: nat, d: seq<Node>, im': seq<Node>, capacity': nat)
    requires k <= capacity && DistinctIDs(d) && |d| <= capacity && ImportantOutcome(k, capacity, d, im', capacity')
    ensures GrowsRight(k, capacity, im', capacity') && |im'| == Smaller(capacity' - k, |d|)
  {
    GrowthByCandidates(k, capacity, d, im', capacity');
  }

  lemma {:induction false} OutcomeIsPart(k: nat, capacity: nat, c: seq<Node>, d: seq<Node>, im': seq<Node>,
                                         capacity': nat)
    requires k <= capacity && OnePerID(c, d) && ImportantOutcome(k, capacity, d, im', capacity')
    ensures PartOf(c, im') && MostUsefulFirst(im')
  {
    ByUtilityDescends(im');
  }

  lemma {:induction false} ByUtilityDescends(s: seq<Node>)
    ensures Descending(ByUtility, s) ==> MostUsefulFirst(s)
  {
    forall i, j | 0 <= i < j < |s| && Descending(ByUtility, s)
      ensures s[i].utility >= s[j].utility
    {
      assert Rank(ByUtility, s[i]) >= Rank(ByUtility, s[j]);
    }
  }

  lemma {:induction false} PoorAreDropped(k: nat, capacity: nat, c: seq<Node>, d: seq<Node>, im': seq<Node>,
                                          capacity': nat, growable: bool)
    requires k <= capacity && OnePerID(c, d) && |d| <= capacity && ImportantOutcome(k, capacity, d, im', capacity')
    requires growable == (capacity + k <= 10000)
    ensures DropsPoor(c, im', growable)
  {
    forall id | id in Keys(c) && Missing(im', id)
      ensures exists y :: TooPoor(y, id, c, im', growable)
    {
      var m :| m in c && m.nodeID == id;
      var y := Representative(c, d, m);
      assert y in c && y !in im';
      DroppedIsPoor(k, capacity, d, im', capacity', y);
      assert TooPoor(y, id, c, im', growable);
    }
  }

  lemma {:induction false} DroppedIsPoor(k: nat, capacity: nat, d: seq<Node>, im': seq<Node>, capacity': nat, y: Node)
    requires k <= capacity && DistinctIDs(d) && |d| <= capacity && y in d && y !in im'
    requires ImportantOutcome(k, capacity, d, im', capacity')
    ensures forall x :: x in im' ==> y.utility <= x.utility
    ensures capacity + k <= 10000 ==> y.utility < 1.0
  {
    assert forall x :: x in im' ==> Rank(ByUtility, y) <= Rank(ByUtility, x);
    CutSize(k, capacity, d, im', capacity', y);
    if capacity + k <= 10000 && y.utility >= 1.0 {
      CandidatesKept(capacity' - k, d, im');
    }
  }

  lemma {:induction false} GrowthByCandidates(k: nat, capacity: nat, d: seq<Node>, im': seq<Node>, capacity': nat)
    requires k <= capacity && DistinctIDs(d) && |d| <= capacity && ImportantOutcome(k, capacity, d, im', capacity')
    ensures capacity' > capacity <==> |CandidateKeys(im')| + k > capacity
  {
    PartCount(Candidate(), d);
    if capacity' > capacity {
      AllKept(ByUtility, capacity' - k, d, im');
      assert IDs(Filter(Candidate(), d)) <= CandidateKeys(im');
      SubsetSize(IDs(Filter(Candidate(), d)), CandidateKeys(im'));
    } else {
      DistinctCount(im');
      assert CandidateKeys(im') <= IDs(im');
      SubsetSize(CandidateKeys(im'), IDs(im'));
    }
  }

  // ----- Receiving, over runs -----

  /** The record as it arrives, with the utility the node computes for it. */
  ghost predicate ScoredHere(lib: MathLib, cfg: Config, msg: seq<Node>, b: seq<Node>) {
    && |b| == |msg|
    && forall i :: 0 <= i < |b| ==> b[i].Wire() == msg[i].Wire() && b[i].utility == Utility(lib, Here(cfg), b[i])
  }

  /** A record with the place and range of the node; utilities depend on nothing else. */
  function Here(cfg: Config): Node {
    Node(0, cfg.lat, cfg.lon, cfg.coordRange, 0, 0, 0, 0, 0, 0.0)
  }

  lemma {:induction false} ScoredIsHere(lib: MathLib, cfg: Config, now: U32, nc: seq<Node>, msg: seq<Node>)
    requires SameWire(nc, msg)
    ensures ScoredHere(lib, cfg, msg, Scored(lib, InternalNode(cfg, now), nc))
  {
    var b := Scored(lib, InternalNode(cfg, now), nc);
    forall i | 0 <= i < |b|
      ensures b[i].Wire() == msg[i].Wire() && b[i].utility == Utility(lib, Here(cfg), b[i])
    {
      assert b[i].Wire() == nc[i].Wire();
      UtilityIgnoresIdentity(lib, InternalNode(cfg, now), Here(cfg), nc[i], b[i]);
    }
  }

  /** A message of type 0 or 1 updates the random table with its records, scores that table, and
      updates the important table with it; one of type 2 or 3 updates the important table with its
      scored records; any other changes nothing. */
  ghost predicate UpdatedRight(swap: Swap, lib: MathLib, h: HostState, pkt: Packet, h': HostState) {
    && h'.cfg == h.cfg && h'.subs == h.subs && h'.lastCleanup == h.lastCleanup
    && (pkt.ptype == 0 || pkt.ptype == 1 ==> RandomUpdated(swap, lib, h, pkt.nodes, h'))
    && (pkt.ptype == 2 || pkt.ptype == 3 ==> h'.rn == h.rn && ImportantUpdated(lib, h, pkt.nodes, h'))
    && (pkt.ptype > 3 ==> h' == h)
  }

  ghost predicate RandomUpdated(swap: Swap, lib: MathLib, h: HostState, msg: seq<Node>, h': HostState) {
    exists nc, r :: RandomUpdatedVia(swap, lib, h, msg, h', nc, r)
  }

  /** `nc` is the message as it was unpacked, `r` the random table before it is scored. */
  ghost predicate RandomUpdatedVia(swap: Swap, lib: MathLib, h: HostState, msg: seq<Node>, h': HostState,
                                   nc: seq<Node>, r: seq<Node>)
  {
    && SameWire(nc, msg)
    && |h.rn| <= 2 * h.cfg.n && |h.im| <= h.imMax
    && RandomKeeps(swap, h.cfg.id, h.cfg.n, h.rn, nc, r)
    && ScoredHere(lib, h.cfg, r, h'.rn)
    && ImportantKeeps(h.cfg.id, h.cfg.k, h.im, h.imMax, h'.rn, h'.im, h'.imMax)
  }

  ghost predicate ImportantUpdated(lib: MathLib, h: HostState, msg: seq<Node>, h': HostState) {
    exists b :: ImportantUpdatedVia(lib, h, msg, h', b)
  }

  ghost predicate ImportantUpdatedVia(lib: MathLib, h: HostState, msg: seq<Node>, h': HostState, b: seq<Node>) {
    && ScoredHere(lib, h.cfg, msg, b)
    && |h.im| <= h.imMax
    && ImportantKeeps(h.cfg.id, h.cfg.k, h.im, h.imMax, b, h'.im, h'.imMax)
  }

  lemma {:induction false} ReceiveUpdates(swap: Swap, lib: MathLib, host: nat, h: HostState, now: U32, pkt: Packet,
                                          nc: seq<Node>, h': HostState, sent: seq<Packet>)
    requires HostInv(h) && Received(swap, lib, host, h, now, pkt, nc, h', sent)
    ensures UpdatedRight(swap, lib, h, pkt, h')
  {
    if pkt.ptype == RND_NOREQ || pkt.ptype == RND_REQ {
      var r :| RandomReceived(swap, lib, h, now, nc, r, h');
      RandomUpdates(swap, lib, h, now, pkt.nodes, nc, r, h');
    } else if pkt.ptype == IMP_NOREQ || pkt.ptype == IMP_REQ {
      ImportantUpdates(swap, lib, h, now, pkt.nodes, nc, h');
    }
  }

  lemma {:induction false} RandomUpdates(swap: Swap, lib: MathLib, h: HostState, now: U32, msg: seq<Node>,
                                         nc: seq<Node>, r: seq<Node>, h': HostState)
    requires h.cfg.id != 0 && SameWire(nc, msg) && RandomReceived(swap, lib, h, now, nc, r, h')
    ensures RandomUpdated(swap, lib, h, msg, h')
  {
    RandomPart(swap, h.cfg.id, h.cfg.n, h.rn, nc, r);
    ScoredIsHere(lib, h.cfg, now, r, r);
    ImportantPart(swap, h.cfg.id, h.cfg.k, h.im, h.imMax, h'.rn, h'.im, h'.imMax);
    RandomUpdatedBy(swap, lib, h, msg, h', nc, r);
  }

  lemma {:induction false} RandomUpdatedBy(swap: Swap, lib: MathLib, h: HostState, msg: seq<Node>, h': HostState,
                                           nc: seq<Node>, r: seq<Node>)
    requires SameWire(nc, msg) && |h.rn| <= 2 * h.cfg.n && |h.im| <= h.imMax
    requires RandomKeeps(swap, h.cfg.id, h.cfg.n, h.rn, nc, r) && ScoredHere(lib, h.cfg, r, h'.rn)
    requires ImportantKeeps(h.cfg.id, h.cfg.k, h.im, h.imMax, h'.rn, h'.im, h'.imMax)
    ensures RandomUpdated(swap, lib, h, msg, h')
  {
    assert RandomUpdatedVia(swap, lib, h, msg, h', nc, r);
  }

  lemma {:induction false} ImportantUpdates(swap: Swap, lib: MathLib, h: HostState, now: U32, msg: seq<Node>,
                                            nc: seq<Node>, h': HostState)
    requires h.cfg.id != 0 && SameWire(nc, msg) && ImportantReceived(swap, lib, h, now, nc, h')
    ensures ImportantUpdated(lib, h, msg, h')
  {
    var b := Scored(lib, InternalNode(h.cfg, now), nc);
    ScoredIsHere(lib, h.cfg, now, nc, msg);
    ImportantPart(swap, h.cfg.id, h.cfg.k, h.im, h.imMax, b, h'.im, h'.imMax);
    ImportantUpdatedBy(lib, h, msg, h', b);
  }

  lemma {:induction false} ImportantUpdatedBy(lib: MathLib, h: HostState, msg: seq<Node>, h': HostState, b: seq<Node>)
    requires ScoredHere(lib, h.cfg, msg, b) && |h.im| <= h.imMax
    requires ImportantKeeps(h.cfg.id, h.cfg.k, h.im, h.imMax, b, h'.im, h'.imMax)
    ensures ImportantUpdated(lib, h, msg, h')
  {
    assert ImportantUpdatedVia(lib, h, msg, h', b);
  }

  /** In every run every message updates the tables so. */
  lemma {:induction false} MessagesUpdate(swap: Swap, lib: MathLib, ws: seq<World>, steps: seq<Step>, i: nat)
    requires Run(swap, lib, ws, steps) && i < |steps| && steps[i].Receive?
    ensures steps[i].host in ws[i].hosts && steps[i].host in ws[i + 1].hosts
    ensures UpdatedRight(swap, lib, ws[i].hosts[steps[i].host], steps[i].pkt, ws[i + 1].hosts[steps[i].host])
  {
    RunInvariant(swap, lib, ws, steps, i);
    var s, w := steps[i], ws[i];
    var nc, h' := ReceiveOf(swap, lib, w, s, ws[i + 1]);
    ReceiveUpdates(swap, lib, s.host, w.hosts[s.host], w.clock, s.pkt, nc, h', s.sent);
  }

  /** In every run a node starts with empty tables and room for M + K important nodes. */
  lemma {:induction false} NewcomersAreEmpty(swap: Swap, lib: MathLib, ws: seq<World>, steps: seq<Step>, i: nat)
    requires Run(swap, lib, ws, steps) && i < |steps| && steps[i].Join?
    ensures steps[i].host in ws[i + 1].hosts
    ensures var h, cfg := ws[i + 1].hosts[steps[i].host], steps[i].cfg;
            h.cfg == cfg && h.rn == [] && h.im == [] && h.subs == [] && h.imMax == cfg.m + cfg.k
  {
    assert Next(swap, lib, ws[i], steps[i], ws[i + 1]);
  }

  // ----- The utility -----

  /** The square of the sum of ranges over the square of the distance, or the largest double. */
  predicate IsRatio(range: real, d: real, u: real) {
    if d * d != 0.0 then u * (d * d) == Sq(range) else u == Ieee754.DBL_MAX
  }

  /** The utility of one node for another is the square of the sum of their ranges over the square of
      their great-circle distance, and the largest double if that is zero. */
  lemma {:induction false} UtilityIsRatio(lib: MathLib, h: real, a: Node, b: Node, d: real)
    requires lib.Lawful() && lib.Differences() && lib.Arcs(h)
    requires GreatCircle(lib, h, a.lat, a.lon, b.lat, b.lon, d)
    ensures IsRatio((a.coordRange + b.coordRange) as real, d, Utility(lib, a, b))
  {
    DistanceIsGreatCircle(lib, h, a.lat, a.lon, b.lat, b.lon, d);
    UtilityOf(lib, a, b, d);
  }

  lemma {:induction false} UtilityOf(lib: MathLib, a: Node, b: Node, d: real)
    requires DistanceMeters(lib, a.lat, a.lon, b.lat, b.lon) == d
    ensures IsRatio((a.coordRange + b.coordRange) as real, d, Utility(lib, a, b))
  {
    RatioLaw(RangeSum(a, b), d, d * d);
  }

  lemma {:induction false} RatioLaw(range: real, d: real, dd: real)
    requires dd == d * d
    ensures dd != 0.0 ==> Ratio(range, d) * dd == Sq(range)
    ensures dd == 0.0 ==> Ratio(range, d) == Ieee754.DBL_MAX
  {
    SqZero(d);
    assert dd == Sq(d);
    if dd != 0.0 {
      assert Ratio(range, d) == Sq(range) / dd;
    } else {
      RatioAtZero(range);
    }
  }

  lemma {:induction false} RatioAtZero(range: real)
    ensures Ratio(range, 0.0) == Ieee754.DBL_MAX
  {
    assert 0.0 * 0.0 == 0.0;
  }

  /** Such a distance always exists. */
  lemma {:induction false} SomeDistance(lib: MathLib, h: real, a: Node, b: Node) returns (d: real)
    requires lib.Lawful() && lib.Differences() && lib.Arcs(h)
    ensures GreatCircle(lib, h, a.lat, a.lon, b.lat, b.lon, d)
  {
    d := Distance(lib, a, b);
    DistanceIsGreatCircle(lib, h, a.lat, a.lon, b.lat, b.lon, d);
  }

  // ----- What the messages hold -----

  /** A random message: behind the top record all entries of the table but the last, in order. */
  predicate HoldsRandom(rn: seq<Node>, nodes: seq<Node>) {
    && |nodes| == (if |rn| <= 1 then 1 else |rn|)
    && forall i :: 1 <= i < |nodes| ==> nodes[i].Wire() == rn[i - 1].Wire()
  }

  /** An important message for `peer`: behind the top record K entries of the table, or all if there
      are not more, none left out being more useful to the peer than one that is named. */
  ghost predicate HoldsImportant(lib: MathLib, k: nat, im: seq<Node>, peer: Node, nodes: seq<Node>) {
    && |nodes| == 1 + Smaller(k, |im|)
    && NoneTwice(nodes[1..])
    && (forall x :: x in nodes[1..] ==> exists m :: m in im && m.Wire() == x.Wire())
    && (forall m, x :: m in im && x in nodes[1..] && Missing(nodes[1..], m.nodeID)
                       ==> Utility(lib, peer, m) <= Utility(lib, peer, x))
  }

  /** The message goes to an entry of the table and holds what is best for that one. */
  ghost predicate AskedFor(lib: MathLib, k: nat, im: seq<Node>, peer: Node, p: Packet) {
    peer in im && p.destIP == peer.ipAddr && p.destPort == peer.port && HoldsImportant(lib, k, im, peer, p.nodes)
  }

  lemma {:induction false} RandomHolds(host: nat, h: HostState, now: U32, ptype: U8, peer: Node)
    ensures HoldsRandom(h.rn, RandomPacket(host, h, now, ptype, peer).nodes)
  {
    var s := RandomMessage(OwnNode(h.cfg, now), h.rn);
    assert forall i :: 1 <= i < |s| ==> s[i] == h.rn[i - 1];
  }

  lemma {:induction false} ImportantHolds(lib: MathLib, host: nat, h: HostState, now: U32, ptype: U8, peer: Node,
                                          pkt: Packet)
    requires HostInv(h) && ImportantSent(lib, host, h, now, ptype, peer, pkt)
    ensures HoldsImportant(lib, h.cfg.k, h.im, peer, pkt.nodes)
  {
    var sel :| Selected(lib, h.cfg.k, h.im, peer, sel) && pkt == ImportantPacket(host, h, now, ptype, peer, sel);
    MessageHolds(lib, h.cfg.k, h.im, peer, OwnNode(h.cfg, now), sel);
  }

  lemma {:induction false} MessageHolds(lib: MathLib, k: nat, im: seq<Node>, peer: Node, own: Node, sel: seq<Node>)
    requires DistinctIDs(im) && Selected(lib, k, im, peer, sel)
    ensures HoldsImportant(lib, k, im, peer, OnWire([own] + sel))
  {
    TopKForPeer(lib, k, im, peer, sel);
    BehindTop(own, sel);
    SelectionHolds(lib, k, im, peer, sel);
  }

  lemma {:induction false} BehindTop(own: Node, sel: seq<Node>)
    ensures OnWire([own] + sel)[1..] == OnWire(sel)
  {
    var s := [own] + sel;
    forall i | 0 <= i < |sel|
      ensures OnWire(s)[i + 1] == OnWire(sel)[i]
    {
      assert s[i + 1] == sel[i];
    }
  }

  lemma {:induction false} SelectionHolds(lib: MathLib, k: nat, im: seq<Node>, peer: Node, sel: seq<Node>)
    requires DistinctIDs(im) && Selected(lib, k, im, peer, sel)
    ensures NoneTwice(OnWire(sel))
    ensures forall x :: x in OnWire(sel) ==> exists m :: m in im && m.Wire() == x.Wire()
    ensures forall m, x :: m in im && x in OnWire(sel) && Missing(OnWire(sel), m.nodeID)
                           ==> Utility(lib, peer, m) <= Utility(lib, peer, x)
  {
    TopKForPeer(lib, k, im, peer, sel);
    OnWireNames(sel);
    forall x | x in OnWire(sel)
      ensures exists m :: m in im && m.Wire() == x.Wire()
    {
      var n :| n in sel && n.Wire() == x.Wire();
    }
    forall m, x | m in im && x in OnWire(sel) && Missing(OnWire(sel), m.nodeID)
      ensures Utility(lib, peer, m) <= Utility(lib, peer, x)
    {
      var n :| n in sel && n.Wire() == x.Wire();
      NotSentIfMissing(sel, m);
      UtilityIgnoresIdentity(lib, peer, peer, n, x);
    }
  }

  lemma {:induction false} OnWireNames(sel: seq<Node>)
    requires DistinctIDs(sel)
    ensures NoneTwice(OnWire(sel))
    ensures forall x :: x in OnWire(sel) ==> exists n :: n in sel && n.Wire() == x.Wire()
  {
    var w := OnWire(sel);
    assert forall i :: 0 <= i < |w| ==> w[i].nodeID == sel[i].nodeID;
    forall x | x in w
      ensures exists n :: n in sel && n.Wire() == x.Wire()
    {
      var i :| 0 <= i < |w| && w[i] == x;
      assert sel[i] in sel && sel[i].Wire() == x.Wire();
    }
  }

  lemma {:induction false} NotSentIfMissing(sel: seq<Node>, m: Node)
    requires Missing(OnWire(sel), m.nodeID)
    ensures !Sends(sel, m)
  {
    forall n | n in sel
      ensures n.Wire() != m.Wire()
    {
      var i :| 0 <= i < |sel| && sel[i] == n;
      assert OnWire(sel)[i] in OnWire(sel) && OnWire(sel)[i].nodeID == n.nodeID;
      assert n.Wire().nodeID == n.nodeID && m.Wire().nodeID == m.nodeID;
    }
  }

  /** In every run the answers hold what the tables held before the message was taken in. */
  lemma {:induction false} AnswersHold(swap: Swap, lib: MathLib, ws: seq<World>, steps: seq<Step>, i: nat)
    requires Run(swap, lib, ws, steps) && i < |steps| && steps[i].Receive?
    ensures steps[i].host in ws[i].hosts && steps[i].pkt.nodes != []
    ensures var h := ws[i].hosts[steps[i].host];
            forall p :: p in steps[i].sent ==>
                          && (p.ptype == 0 ==> HoldsRandom(h.rn, p.nodes))
                          && (p.ptype == 2 ==> HoldsImportant(lib, h.cfg.k, h.im, steps[i].pkt.nodes[0], p.nodes))
  {
    RunInvariant(swap, lib, ws, steps, i);
    var s, w := steps[i], ws[i];
    var nc, h' := ReceiveOf(swap, lib, w, s, ws[i + 1]);
    var h := w.hosts[s.host];
    ReceiveReplies(swap, lib, s.host, h, w.clock, s.pkt.ptype, nc, h', s.sent);
    AnswerHolds(lib, s.host, h, w.clock, s.pkt, nc[0], s.sent);
  }

  lemma {:induction false} AnswerHolds(lib: MathLib, host: nat, h: HostState, now: U32, pkt: Packet, peer: Node,
                                       sent: seq<Packet>)
    requires HostInv(h) && Replied(lib, host, h, now, pkt.ptype, peer, sent)
    requires pkt.nodes != [] && peer.Wire() == pkt.nodes[0].Wire()
    ensures forall p :: p in sent ==>
                          && (p.ptype == 0 ==> HoldsRandom(h.rn, p.nodes))
                          && (p.ptype == 2 ==> HoldsImportant(lib, h.cfg.k, h.im, pkt.nodes[0], p.nodes))
  {
    if pkt.ptype == RND_REQ {
      RandomHolds(host, h, now, RND_NOREQ, peer);
    } else if pkt.ptype == IMP_REQ {
      ImportantHolds(lib, host, h, now, IMP_NOREQ, peer, sent[0]);
      SamePeer(lib, h.cfg.k, h.im, peer, pkt.nodes[0], sent[0].nodes);
    }
  }

  lemma {:induction false} SamePeer(lib: MathLib, k: nat, im: seq<Node>, p: Node, q: Node, nodes: seq<Node>)
    requires p.Wire() == q.Wire() && HoldsImportant(lib, k, im, p, nodes)
    ensures HoldsImportant(lib, k, im, q, nodes)
  {
    assert p.Wire().lat == p.lat && p.Wire().lon == p.lon && p.Wire().coordRange == p.coordRange;
    assert q.Wire().lat == q.lat && q.Wire().lon == q.lon && q.Wire().coordRange == q.coordRange;
    forall m: Node
      ensures Utility(lib, p, m) == Utility(lib, q, m)
    {
      UtilityIgnoresIdentity(lib, p, q, m, m);
    }
  }

  /** In every run the requests of a cleanup hold what the expiry has left in the tables. */
  lemma {:induction false} RequestsHold(swap: Swap, lib: MathLib, ws: seq<World>, steps: seq<Step>, i: nat)
    requires Run(swap, lib, ws, steps) && i < |steps| && steps[i].Cleanup?
    ensures steps[i].host in ws[i + 1].hosts
    ensures var h := ws[i + 1].hosts[steps[i].host];
            && steps[i].sent != []
            && HoldsRandom(h.rn, steps[i].sent[0].nodes)
            && (|steps[i].sent| > 1 ==> exists peer :: AskedFor(lib, h.cfg.k, h.im, peer, steps[i].sent[1]))
  {
    RunInvariant(swap, lib, ws, steps, i);
    var s, w := steps[i], ws[i];
    var h' := CleanupOf(swap, lib, w, s, ws[i + 1]);
    CleanupKeeps(lib, s.host, w.hosts[s.host], w.clock, h', s.sent, s.delivered);
    RequestHolds(lib, s.host, h', w.clock, s.sent);
  }

  lemma {:induction false} RequestHolds(lib: MathLib, host: nat, h: HostState, now: U32, sent: seq<Packet>)
    requires HostInv(h) && RequestsToPeers(lib, host, h, now, sent)
    ensures HoldsRandom(h.rn, sent[0].nodes)
    ensures |sent| > 1 ==> exists peer :: AskedFor(lib, h.cfg.k, h.im, peer, sent[1])
  {
    if h.rn != [] {
      var n :| n in h.rn && n.nodeID != h.cfg.id && sent[0] == RandomPacket(host, h, now, RND_REQ, n);
      RandomHolds(host, h, now, RND_REQ, n);
    }
    if h.im != [] {
      var r :| 0 <= r < PeerRange(h.im) && r < |h.im| && ImportantSent(lib, host, h, now, IMP_REQ, h.im[r], sent[1]);
      ImportantHolds(lib, host, h, now, IMP_REQ, h.im[r], sent[1]);
      assert AskedFor(lib, h.cfg.k, h.im, h.im[r], sent[1]);
    }
  }
}
