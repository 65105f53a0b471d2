/** Deduplication by ID: sort, keep one record of every run of equal IDs.

    The code swaps the two colliding records through a pointer cast that moves only the first
    machine word, the ID. `WordSwap` is that behaviour; `RecordSwap` is the documented one, in
    which whole records change places. Both are kept side by side. */
module Dedup {
  import opened Collections
  import opened Records
  import opened Sorting

  datatype Swap = WordSwap | RecordSwap

  /** The two records at neighbouring slots after the swap of node.c. */
  function SwapNodes(swap: Swap, a: Node, b: Node): (Node, Node) {
    match swap
    case WordSwap => (a.(nodeID := b.nodeID), b.(nodeID := a.nodeID))
    case RecordSwap => (b, a)
  }

  /** What one step of the scan leaves in two neighbouring slots that carry the same ID. */
  function Collide(swap: Swap, a: Node, b: Node): (Node, Node) {
    if a.timeStamp < b.timeStamp then (a.(nodeID := 0), b)
    else SwapNodes(swap, a, b.(nodeID := 0))
  }

  /** The records the scan leaves alive, in order. */
  function Survivors(swap: Swap, p: seq<Node>): seq<Node>
    decreases |p|
  {
    if |p| < 2 then p
    else if p[0].nodeID == p[1].nodeID then Survivors(swap, [Collide(swap, p[0], p[1]).1] + p[2..])
    else [p[0]] + Survivors(swap, p[1..])
  }

  ghost predicate DedupVia(swap: Swap, s: seq<Node>, p: seq<Node>, t: seq<Node>) {
    IsSort(ByNodeID, s, p) && t == Survivors(swap, p)
  }

  /** `t` is a possible outcome of deduplicating `s`, for some order the sort may leave ties in. */
  ghost predicate Deduped(swap: Swap, s: seq<Node>, t: seq<Node>) {
    exists p :: DedupVia(swap, s, p, t)
  }

  /** Every ID of `s` is represented in `t` by exactly one record, and that record is from `s`. */
  ghost predicate OnePerID(s: seq<Node>, t: seq<Node>) {
    && (forall n :: n in t ==> n in s)
    && DistinctIDs(t)
    && (forall id :: HasID(s, id) ==> HasID(t, id))
  }

  /** No record of `s` with the same ID is newer than the one `t` keeps. */
  predicate Freshest(s: seq<Node>, t: seq<Node>) {
    forall m, n :: m in s && n in t && m.nodeID == n.nodeID ==> m.timeStamp <= n.timeStamp
  }

  /** The independent description of deduplication: one record per ID, the order by ID, and, for
      the documented swap, the newest record of each ID. */
  ghost predicate DedupSpec(swap: Swap, s: seq<Node>, t: seq<Node>) {
    OnePerID(s, t) && Descending(ByNodeID, t) && (swap.RecordSwap? ==> Freshest(s, t))
  }

  // ----- The survivors of a sorted collection -----

  lemma {:induction false} CollideKeepsOne(swap: Swap, a: Node, b: Node)
    requires a.nodeID == b.nodeID
    ensures var r := Collide(swap, a, b);
            && r.0.nodeID == 0
            && (r.1 == a || r.1 == b)
            && (swap.WordSwap? ==> r.1 == b)
            && (swap.RecordSwap? ==> r.1 == if a.timeStamp < b.timeStamp then b else a)
  {
  }

  lemma {:induction false} SurvivorsMeetSpec(swap: Swap, p: seq<Node>)
    requires Descending(ByNodeID, p)
    ensures DedupSpec(swap, p, Survivors(swap, p))
    ensures p != [] ==> Survivors(swap, p) != [] && Survivors(swap, p)[0].nodeID == p[0].nodeID
    decreases |p|
  {
    if |p| >= 2 {
      var t := Survivors(swap, p);
      if p[0].nodeID == p[1].nodeID {
        CollideKeepsOne(swap, p[0], p[1]);
        var q := [Collide(swap, p[0], p[1]).1] + p[2..];
        SurvivorsMeetSpec(swap, q);
        MergedRun(swap, p, q, t);
      } else {
        SurvivorsMeetSpec(swap, p[1..]);
        SeparateRun(swap, p, t);
      }
    } else if |p| == 1 {
      assert forall id :: HasID(p, id) ==> p[0].nodeID == id;
    }
  }

  lemma {:induction false} MergedRun(swap: Swap, p: seq<Node>, q: seq<Node>, t: seq<Node>)
    requires |p| >= 2 && p[0].nodeID == p[1].nodeID
    requires q == [Collide(swap, p[0], p[1]).1] + p[2..]
    requires DedupSpec(swap, q, t)
    ensures DedupSpec(swap, p, t)
  {
    CollideKeepsOne(swap, p[0], p[1]);
    assert forall n :: n in q ==> n in p;
    assert q[0] in q;
    forall id: U32 | HasID(p, id)
      ensures HasID(t, id)
    {
      var i :| 0 <= i < |p| && p[i].nodeID == id;
      assert q[if i < 2 then 0 else i - 1].nodeID == id;
      assert HasID(q, id);
    }
    if swap.RecordSwap? {
      forall m, n | m in p && n in t && m.nodeID == n.nodeID
        ensures m.timeStamp <= n.timeStamp
      {
        if m !in q {
          assert m == p[0] || m == p[1];
          assert m.timeStamp <= q[0].timeStamp;
        }
      }
    }
  }

  lemma {:induction false} SeparateRun(swap: Swap, p: seq<Node>, t: seq<Node>)
    requires |p| >= 2 && Descending(ByNodeID, p) && p[0].nodeID != p[1].nodeID
    requires t != [] && t[0] == p[0] && DedupSpec(swap, p[1..], t[1..])
    ensures DedupSpec(swap, p, t)
  {
    assert p == [p[0]] + p[1..] && t == [t[0]] + t[1..];
    forall n | n in p[1..]
      ensures n.nodeID < p[0].nodeID
    {
      var i :| 0 <= i < |p[1..]| && p[1..][i] == n;
      assert Rank(ByNodeID, p[1]) >= Rank(ByNodeID, p[i + 1]);
      assert Rank(ByNodeID, p[0]) >= Rank(ByNodeID, p[1]);
    }
    forall j | 0 < j < |t|
      ensures t[j].nodeID < t[0].nodeID
    {
      assert t[j] == t[1..][j - 1];
      assert t[j] in t[1..];
    }
    forall id: U32 | HasID(p, id)
      ensures HasID(t, id)
    {
      var i :| 0 <= i < |p| && p[i].nodeID == id;
      if i > 0 {
        assert p[1..][i - 1].nodeID == id;
        assert HasID(p[1..], id);
        var j :| 0 <= j < |t[1..]| && t[1..][j].nodeID == id;
        assert t[j + 1].nodeID == id;
      } else {
        assert t[0].nodeID == id;
      }
    }
  }

  // ----- Deduplication against its description -----

  lemma {:induction false} DedupMeetsSpec(swap: Swap, s: seq<Node>, t: seq<Node>)
    requires Deduped(swap, s, t)
    ensures DedupSpec(swap, s, t)
  {
    var p :| DedupVia(swap, s, p, t);
    SurvivorsMeetSpec(swap, p);
    SortMembers(ByNodeID, s, p);
  }

  /** A run of one ID in an order for which the scan keeps `x`: the code keeps the last record,
      the documented swap the first among the newest. */
  function Arranged(swap: Swap, run: seq<Node>, x: Node): seq<Node> {
    match swap
    case WordSwap => run + [x]
    case RecordSwap => [x] + run
  }

  lemma {:induction false} ArrangedBag(swap: Swap, run: seq<Node>, x: Node)
    ensures multiset(Arranged(swap, run, x)) == multiset(run) + multiset{x}
    ensures forall n :: n in Arranged(swap, run, x) ==> n in run || n == x
  {
  }

  lemma {:induction false} CodedRunKeepsLast(run: seq<Node>, x: Node, rest: seq<Node>)
    requires forall n :: n in run ==> n.nodeID == x.nodeID
    requires rest != [] ==> rest[0].nodeID != x.nodeID
    ensures Survivors(WordSwap, run + [x] + rest) == [x] + Survivors(WordSwap, rest)
  {
    var p := run + [x] + rest;
    if run == [] {
      assert p == [x] + rest;
      assert p[1..] == rest;
    } else {
      CodedRunKeepsLast(run[1..], x, rest);
      assert run[0] in run;
      var second := p[1];
      assert second == (run[1..] + [x])[0];
      assert |run| > 1 ==> second == run[1] && run[1] in run;
      CollideKeepsOne(WordSwap, run[0], second);
      assert [second] + p[2..] == run[1..] + [x] + rest;
    }
  }

  lemma {:induction false} DocumentedRunKeepsNewest(run: seq<Node>, x: Node, rest: seq<Node>)
    requires forall n :: n in run ==> n.nodeID == x.nodeID && n.timeStamp <= x.timeStamp
    requires rest != [] ==> rest[0].nodeID != x.nodeID
    ensures Survivors(RecordSwap, [x] + run + rest) == [x] + Survivors(RecordSwap, rest)
  {
    var p := [x] + run + rest;
    if run == [] {
      assert p == [x] + rest;
      assert p[1..] == rest;
    } else {
      DocumentedRunKeepsNewest(run[1..], x, rest);
      assert run[0] in run && p[1] == run[0];
      CollideKeepsOne(RecordSwap, x, run[0]);
      assert [x] + p[2..] == [x] + run[1..] + rest;
    }
  }

  lemma {:induction false} RunKeeps(swap: Swap, run: seq<Node>, x: Node, rest: seq<Node>)
    requires forall n :: n in run ==> n.nodeID == x.nodeID
    requires rest != [] ==> rest[0].nodeID != x.nodeID
    requires swap.RecordSwap? ==> forall n :: n in run ==> n.timeStamp <= x.timeStamp
    ensures Survivors(swap, Arranged(swap, run, x) + rest) == [x] + Survivors(swap, rest)
  {
    if swap.WordSwap? {
      CodedRunKeepsLast(run, x, rest);
    } else {
      DocumentedRunKeepsNewest(run, x, rest);
    }
  }

  function HasNodeID(id: U32): Node -> bool {
    (n: Node) => n.nodeID == id
  }

  function LacksNodeID(id: U32): Node -> bool {
    (n: Node) => n.nodeID != id
  }

  lemma {:induction false} SplitByID(s: seq<Node>, id: U32)
    ensures multiset(s) == multiset(Filter(HasNodeID(id), s)) + multiset(Filter(LacksNodeID(id), s))
  {
    if s != [] {
      SplitByID(s[1..], id);
      assert s == [s[0]] + s[1..];
    }
  }

  /** The records of `s` other than one copy of `x`. */
  lemma {:induction false} Without(s: seq<Node>, x: Node) returns (rest: seq<Node>)
    requires x in s
    ensures multiset(s) == multiset(rest) + multiset{x}
    ensures forall n :: n in rest ==> n in s
  {
    var i :| 0 <= i < |s| && s[i] == x;
    rest := s[..i] + s[i + 1..];
    assert s == s[..i] + [x] + s[i + 1..];
  }

  /** Every outcome the description allows is reached by some order of ties. */
  lemma {:induction false} SpecIsReached(swap: Swap, s: seq<Node>, t: seq<Node>)
    requires DedupSpec(swap, s, t)
    ensures Deduped(swap, s, t)
    decreases |t|
  {
    if t == [] {
      assert s != [] ==> HasID(s, s[0].nodeID);
      assert DedupVia(swap, s, [], t);
    } else {
      var others := Filter(LacksNodeID(t[0].nodeID), s);
      FilterMembers(LacksNodeID(t[0].nodeID), s);
      OthersMeetSpec(swap, s, t, others);
      SpecIsReached(swap, others, t[1..]);
      GroupOnTop(swap, s, t, others);
    }
  }

  /** An order of ties for the other IDs extends to one that keeps `t[0]` of its group. */
  lemma {:induction false} GroupOnTop(swap: Swap, s: seq<Node>, t: seq<Node>, others: seq<Node>)
    requires t != [] && DedupSpec(swap, s, t)
    requires others == Filter(LacksNodeID(t[0].nodeID), s) && Deduped(swap, others, t[1..])
    requires forall n :: n in others <==> n in s && n.nodeID != t[0].nodeID
    ensures Deduped(swap, s, t)
  {
    assert t[0] in t;
    var rest :| DedupVia(swap, others, rest, t[1..]);
    SortMembers(ByNodeID, others, rest);
    assert rest != [] ==> rest[0] in rest;
    var run := KeptRun(swap, s, t, rest);
    BlockScan(swap, s, run, t[0], rest);
    assert t == [t[0]] + t[1..];
  }

  lemma {:induction false} TopID(swap: Swap, s: seq<Node>, t: seq<Node>)
    requires t != [] && DedupSpec(swap, s, t)
    ensures forall n :: n in s ==> n.nodeID <= t[0].nodeID
  {
    forall n | n in s
      ensures n.nodeID <= t[0].nodeID
    {
      var i :| 0 <= i < |s| && s[i] == n;
      assert HasID(s, n.nodeID);
      var j :| 0 <= j < |t| && t[j].nodeID == n.nodeID;
      assert j > 0 ==> Rank(ByNodeID, t[0]) >= Rank(ByNodeID, t[j]);
    }
  }

  lemma {:induction false} BlockScan(swap: Swap, s: seq<Node>, run: seq<Node>, x: Node, rest: seq<Node>)
    requires multiset(run) + multiset{x} == multiset(Filter(HasNodeID(x.nodeID), s))
    requires multiset(rest) == multiset(Filter(LacksNodeID(x.nodeID), s))
    requires forall n :: n in run ==> n.nodeID == x.nodeID
    requires swap.RecordSwap? ==> forall n :: n in run ==> n.timeStamp <= x.timeStamp
    requires rest != [] ==> rest[0].nodeID != x.nodeID
    requires Descending(ByNodeID, Arranged(swap, run, x) + rest)
    ensures Deduped(swap, s, [x] + Survivors(swap, rest))
  {
    var block := Arranged(swap, run, x);
    ArrangedBag(swap, run, x);
    SplitByID(s, x.nodeID);
    ConcatBag(block, rest, s);
    RunKeeps(swap, run, x, rest);
    assert DedupVia(swap, s, block + rest, [x] + Survivors(swap, rest));
  }

  lemma {:induction false} ConcatBag(a: seq<Node>, b: seq<Node>, s: seq<Node>)
    requires multiset(s) == multiset(a) + multiset(b)
    ensures multiset(a + b) == multiset(s)
  {
  }

  /** The competitors of the record that `t` keeps for its first ID. */
  lemma {:induction false} KeptRun(swap: Swap, s: seq<Node>, t: seq<Node>, rest: seq<Node>) returns (run: seq<Node>)
    requires t != [] && DedupSpec(swap, s, t) && t[0] in s
    requires Descending(ByNodeID, rest) && forall n :: n in rest ==> n in s
    ensures multiset(run) + multiset{t[0]} == multiset(Filter(HasNodeID(t[0].nodeID), s))
    ensures forall n :: n in run ==> n.nodeID == t[0].nodeID
    ensures swap.RecordSwap? ==> forall n :: n in run ==> n.timeStamp <= t[0].timeStamp
    ensures Descending(ByNodeID, Arranged(swap, run, t[0]) + rest)
  {
    var group := Filter(HasNodeID(t[0].nodeID), s);
    FilterMembers(HasNodeID(t[0].nodeID), s);
    run := Without(group, t[0]);
    assert t[0] in t;
    TopID(swap, s, t);
    ArrangedBag(swap, run, t[0]);
    BlockOnTop(Arranged(swap, run, t[0]), rest, t[0].nodeID);
  }

  lemma {:induction false} OthersMeetSpec(swap: Swap, s: seq<Node>, t: seq<Node>, others: seq<Node>)
    requires DedupSpec(swap, s, t) && t != []
    requires forall n :: n in others <==> n in s && n.nodeID != t[0].nodeID
    ensures DedupSpec(swap, others, t[1..])
  {
    forall n | n in t[1..]
      ensures n in others
    {
      var i :| 0 <= i < |t[1..]| && t[1..][i] == n;
      assert t[i + 1] == n;
      assert n in t;
    }
    forall id: U32 | HasID(others, id)
      ensures HasID(t[1..], id)
    {
      var i :| 0 <= i < |others| && others[i].nodeID == id;
      assert others[i] in others;
      HasIDMembers(others, s);
      var j :| 0 <= j < |t| && t[j].nodeID == id;
      assert t[1..][j - 1].nodeID == id;
    }
  }

  lemma {:induction false} BlockOnTop(block: seq<Node>, rest: seq<Node>, id: U32)
    requires Descending(ByNodeID, rest)
    requires forall n :: n in block ==> n.nodeID == id
    requires forall n :: n in rest ==> n.nodeID <= id
    ensures Descending(ByNodeID, block + rest)
  {
    var p := block + rest;
    forall i, j | 0 <= i < j < |p|
      ensures Rank(ByNodeID, p[i]) >= Rank(ByNodeID, p[j])
    {
      assert i < |block| ==> p[i] in block;
      assert j < |block| ==> p[j] in block;
      assert i >= |block| ==> p[i] == rest[i - |block|];
      assert j >= |block| ==> p[j] == rest[j - |block|] && p[j] in rest;
    }
  }

  /** The scan realises exactly the described outcomes, whatever the sizes of the groups and the
      order of ties. */
  lemma {:induction false} DedupExactly(swap: Swap, s: seq<Node>, t: seq<Node>)
    ensures Deduped(swap, s, t) <==> DedupSpec(swap, s, t)
  {
    if Deduped(swap, s, t) {
      DedupMeetsSpec(swap, s, t);
    }
    if DedupSpec(swap, s, t) {
      SpecIsReached(swap, s, t);
    }
  }

  // ----- Counting -----

  function IDs(s: seq<Node>): set<U32> {
    set n | n in s :: n.nodeID
  }

  lemma {:induction false} DistinctCount(s: seq<Node>)
    requires DistinctIDs(s)
    ensures |IDs(s)| == |s|
  {
    if s != [] {
      DistinctCount(s[1..]);
      assert s == [s[0]] + s[1..];
      assert s[0].nodeID !in IDs(s[1..]);
      assert IDs(s) == {s[0].nodeID} + IDs(s[1..]);
    }
  }

  /** The new count of the collection is the number of distinct IDs it held. */
  lemma {:induction false} DedupCount(swap: Swap, s: seq<Node>, t: seq<Node>)
    requires Deduped(swap, s, t)
    ensures |t| == |IDs(s)|
  {
    DedupMeetsSpec(swap, s, t);
    forall n | n in s
      ensures n.nodeID in IDs(t)
    {
      var i :| 0 <= i < |s| && s[i] == n;
      assert HasID(s, n.nodeID);
      var j :| 0 <= j < |t| && t[j].nodeID == n.nodeID;
      assert t[j] in t;
    }
    assert IDs(s) == IDs(t);
    DistinctCount(t);
  }

  // ----- Freshness: documented swap against the code -----

  lemma {:induction false} DedupExists(swap: Swap, s: seq<Node>) returns (t: seq<Node>)
    ensures Deduped(swap, s, t)
  {
    var p := SortExists(ByNodeID, s);
    t := Survivors(swap, p);
    assert DedupVia(swap, s, p, t);
  }

  /** A record of `s` with the ID of `u`, a preferred one if there is any. */
  ghost function Preferred(s: seq<Node>, pref: Node -> bool, u: Node): (x: Node)
    requires u in s
    ensures x in s && x.nodeID == u.nodeID
    ensures pref(x) || forall y :: y in s && y.nodeID == u.nodeID ==> !pref(y)
  {
    if exists y :: y in s && y.nodeID == u.nodeID && pref(y) then
      var y :| y in s && y.nodeID == u.nodeID && pref(y);
      y
    else u
  }

  /** As coded, every choice of one record per ID is an outcome. */
  lemma {:induction false} ChoiceReached(s: seq<Node>, pref: Node -> bool) returns (t: seq<Node>)
    ensures Deduped(WordSwap, s, t)
    ensures forall x :: x in t ==> pref(x) || forall y :: y in s && y.nodeID == x.nodeID ==> !pref(y)
  {
    var u := DedupExists(WordSwap, s);
    DedupMeetsSpec(WordSwap, s, u);
    assert forall i :: 0 <= i < |u| ==> u[i] in u;
    t := seq(|u|, i requires 0 <= i < |u| => Preferred(s, pref, u[i]));
    ReplacedMeetsSpec(s, u, t);
    SpecIsReached(WordSwap, s, t);
  }

  lemma {:induction false} ReplacedMeetsSpec(s: seq<Node>, u: seq<Node>, t: seq<Node>)
    requires DedupSpec(WordSwap, s, u) && |t| == |u|
    requires forall i :: 0 <= i < |u| ==> t[i] in s && t[i].nodeID == u[i].nodeID
    ensures DedupSpec(WordSwap, s, t)
  {
    forall id: U32 | HasID(s, id)
      ensures HasID(t, id)
    {
      var k :| 0 <= k < |u| && u[k].nodeID == id;
      assert t[k].nodeID == id;
    }
  }

  function Exactly(x: Node): Node -> bool {
    (y: Node) => y == x
  }

  /** As coded, any record of a group can be the one that survives. */
  lemma {:induction false} AnyoneSurvives(s: seq<Node>, x: Node) returns (t: seq<Node>)
    requires x in s
    ensures Deduped(WordSwap, s, t) && x in t
  {
    t := ChoiceReached(s, Exactly(x));
    DedupMeetsSpec(WordSwap, s, t);
    var y := Representative(s, t, x);
    assert y == x;
  }

  /** The record of `t` that stands for the ID of `x`. */
  lemma {:induction false} Representative(s: seq<Node>, t: seq<Node>, x: Node) returns (y: Node)
    requires x in s && OnePerID(s, t)
    ensures y in t && y.nodeID == x.nodeID
  {
    var i :| 0 <= i < |s| && s[i] == x;
    assert HasID(s, x.nodeID);
    var j :| 0 <= j < |t| && t[j].nodeID == x.nodeID;
    y := t[j];
  }

  // ----- Both swaps alike: one contender per ID -----

  predicate NewestIn(s: seq<Node>, n: Node) {
    forall m :: m in s && m.nodeID == n.nodeID ==> m.timeStamp <= n.timeStamp
  }

  function Newest(s: seq<Node>): Node -> bool {
    (n: Node) => NewestIn(s, n)
  }

  /** The records that may survive: as coded all of them, as documented the newest of each ID. */
  function Pool(swap: Swap, s: seq<Node>): seq<Node> {
    if swap.WordSwap? then s else Filter(Newest(s), s)
  }

  lemma {:induction false} PoolMembers(swap: Swap, s: seq<Node>)
    ensures forall n :: n in Pool(swap, s) <==> n in s && (swap.RecordSwap? ==> NewestIn(s, n))
  {
    FilterMembers(Newest(s), s);
  }

  /** Some record with this ID is the newest one. */
  lemma {:induction false} SomeNewest(s: seq<Node>, x: Node) returns (n: Node)
    requires x in s
    ensures n in s && n.nodeID == x.nodeID && NewestIn(s, n)
  {
    var t := DedupExists(RecordSwap, s);
    DedupMeetsSpec(RecordSwap, s, t);
    n := Representative(s, t, x);
  }

  /** Deduplication, with either swap, keeps some one contender of each ID, and any. */
  lemma {:induction false} PoolDecides(swap: Swap, s: seq<Node>, d: seq<Node>)
    ensures DedupSpec(swap, s, d) <==> DedupSpec(WordSwap, Pool(swap, s), d)
  {
    PoolMembers(swap, s);
    PoolIDs(swap, s);
    if DedupSpec(WordSwap, Pool(swap, s), d) && swap.RecordSwap? {
      assert Freshest(s, d);
    }
  }

  lemma {:induction false} PoolIDs(swap: Swap, s: seq<Node>)
    ensures forall id :: HasID(s, id) <==> HasID(Pool(swap, s), id)
  {
    PoolMembers(swap, s);
    HasIDMembers(Pool(swap, s), s);
    forall id: U32 | HasID(s, id) && swap.RecordSwap?
      ensures HasID(Pool(swap, s), id)
    {
      var i :| 0 <= i < |s| && s[i].nodeID == id;
      var n := SomeNewest(s, s[i]);
      var j :| 0 <= j < |Pool(swap, s)| && Pool(swap, s)[j] == n;
    }
  }

  /** The code promises the most recent record of every ID. It keeps that promise, whatever order
      the sort leaves ties in, exactly when no two records of one ID differ in age. */
  lemma {:induction false} CodedDedupIsFreshIff(s: seq<Node>)
    ensures (forall t :: Deduped(WordSwap, s, t) ==> Freshest(s, t))
       <==> (forall m, n :: m in s && n in s && m.nodeID == n.nodeID ==> m.timeStamp == n.timeStamp)
  {
    if forall m, n :: m in s && n in s && m.nodeID == n.nodeID ==> m.timeStamp == n.timeStamp {
      forall t | Deduped(WordSwap, s, t)
        ensures Freshest(s, t)
      {
        DedupMeetsSpec(WordSwap, s, t);
      }
    } else {
      var m, n :| m in s && n in s && m.nodeID == n.nodeID && m.timeStamp != n.timeStamp;
      var older, newer := if m.timeStamp < n.timeStamp then m else n, if m.timeStamp < n.timeStamp then n else m;
      var t := AnyoneSurvives(s, older);
      assert newer in s && older in t && newer.timeStamp > older.timeStamp;
      assert !Freshest(s, t);
    }
  }

  /** A concrete pair for which the code drops the newer record: the sort may put the newer copy
      first, and then the ID moves onto the older data. */
  lemma {:induction false} CodedDedupLosesNews()
    ensures var stale := Node(7, 0.0, 0.0, 0, 0, 0, 10, 0, 0, 0.0);
            var fresher := stale.(timeStamp := 20);
            Deduped(WordSwap, [stale, fresher], [stale]) && !Freshest([stale, fresher], [stale])
  {
    var stale := Node(7, 0.0, 0.0, 0, 0, 0, 10, 0, 0, 0.0);
    var fresher := stale.(timeStamp := 20);
    assert Collide(WordSwap, fresher, stale).1 == stale;
    assert [stale] + [fresher, stale][2..] == [stale];
    assert DedupVia(WordSwap, [stale, fresher], [fresher, stale], [stale]);
    assert fresher in [stale, fresher] && stale in [stale];
  }
}
