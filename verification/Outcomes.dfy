/** Exactly which records an update of a table may keep, and which IDs it may lose, over all the
    orders in which the sorts may leave ties. */
module Outcomes {
  import opened Collections
  import opened Records
  import opened Sorting
  import opened Dedup
  import opened TableSpec
  import opened Merging

  // ----- Counting IDs -----

  function Above(key: SortKey, n: Node): Node -> bool {
    (x: Node) => Rank(key, x) > Rank(key, n)
  }

  predicate AlwaysAbove(key: SortKey, s: seq<Node>, n: Node, id: U32) {
    forall x :: x in s && x.nodeID == id ==> Rank(key, x) > Rank(key, n)
  }

  /** The IDs all of whose records rank above `n`. */
  function AboveIDs(key: SortKey, s: seq<Node>, n: Node): set<U32> {
    set x | x in s && AlwaysAbove(key, s, n, x.nodeID) :: x.nodeID
  }

  /** The IDs that can be represented by a candidate while `n` represents its own. */
  function CandidateIDs(s: seq<Node>, n: Node): set<U32> {
    set x | x in s && (if x.nodeID == n.nodeID then n else x).utility >= 1.0 :: x.nodeID
  }

  /** The other IDs that can be represented by a record at least as useful as `n`. */
  function RivalIDs(s: seq<Node>, n: Node): set<U32> {
    set x | x in s && x.nodeID != n.nodeID && x.utility >= n.utility :: x.nodeID
  }

  predicate AllCandidates(s: seq<Node>, id: U32) {
    forall x :: x in s && x.nodeID == id ==> x.utility >= 1.0
  }

  /** The other IDs that are represented by a candidate in any case. */
  function SureIDs(s: seq<Node>, n: Node): set<U32> {
    set x | x in s && x.nodeID != n.nodeID && AllCandidates(s, x.nodeID) :: x.nodeID
  }

  lemma {:induction false} SubsetSize<T>(a: set<T>, b: set<T>)
    requires a <= b
    ensures |a| <= |b|
  {
    assert b == a + (b - a);
  }

  /** Every size between a set and a superset is taken by some set between the two. */
  lemma {:induction false} SetBetween(a: set<U32>, b: set<U32>, size: nat) returns (c: set<U32>)
    requires a <= b && |a| <= size <= |b|
    ensures a <= c <= b && |c| == size
    decreases |b| - |a|
  {
    if |a| == size {
      c := a;
    } else {
      assert b == a + (b - a);
      var x :| x in b - a;
      SubsetSize(a + {x}, b);
      c := SetBetween(a + {x}, b, size);
    }
  }

  /** A part of a deduplicated collection has as many records as IDs. */
  lemma {:induction false} PartCount(keep: Node -> bool, d: seq<Node>)
    requires DistinctIDs(d)
    ensures |IDs(Filter(keep, d))| == |Filter(keep, d)|
    ensures forall x :: x in Filter(keep, d) <==> x in d && keep(x)
  {
    FilterDistinct(keep, d);
    DistinctCount(Filter(keep, d));
    FilterMembers(keep, d);
  }

  lemma {:induction false} AboveAtLeast(key: SortKey, s: seq<Node>, d: seq<Node>, n: Node)
    requires OnePerID(s, d)
    ensures |AboveIDs(key, s, n)| <= |Filter(Above(key, n), d)|
  {
    PartCount(Above(key, n), d);
    forall id | id in AboveIDs(key, s, n)
      ensures id in IDs(Filter(Above(key, n), d))
    {
      var x :| x in s && AlwaysAbove(key, s, n, x.nodeID) && x.nodeID == id;
      var y := Representative(s, d, x);
      assert y in s;
    }
    SubsetSize(AboveIDs(key, s, n), IDs(Filter(Above(key, n), d)));
  }

  lemma {:induction false} CandidatesAtMost(s: seq<Node>, d: seq<Node>, n: Node)
    requires OnePerID(s, d) && n in d
    ensures CandidateCount(d) <= |CandidateIDs(s, n)|
  {
    PartCount(Candidate(), d);
    forall id | id in IDs(Filter(Candidate(), d))
      ensures id in CandidateIDs(s, n)
    {
      var x :| x in Filter(Candidate(), d) && x.nodeID == id;
      if x.nodeID == n.nodeID {
        SameRecord(d, x, n);
      }
      assert x in s;
    }
    SubsetSize(IDs(Filter(Candidate(), d)), CandidateIDs(s, n));
  }

  lemma {:induction false} SameRecord(d: seq<Node>, x: Node, y: Node)
    requires DistinctIDs(d) && x in d && y in d && x.nodeID == y.nodeID
    ensures x == y
  {
    var i :| 0 <= i < |d| && d[i] == x;
    var j :| 0 <= j < |d| && d[j] == y;
  }

  // ----- Extreme outcomes of the deduplication -----

  function NotAbove(key: SortKey, n: Node): Node -> bool {
    (x: Node) => if x.nodeID == n.nodeID then x == n else Rank(key, x) <= Rank(key, n)
  }

  /** Keep `n`, and above it only what cannot be avoided. */
  lemma {:induction false} FavouringOutcome(key: SortKey, s: seq<Node>, n: Node) returns (d: seq<Node>)
    requires n in s
    ensures DedupSpec(WordSwap, s, d) && n in d
    ensures |Filter(Above(key, n), d)| <= |AboveIDs(key, s, n)|
  {
    d := ChoiceReached(s, NotAbove(key, n));
    DedupMeetsSpec(WordSwap, s, d);
    var y := Representative(s, d, n);
    assert NotAbove(key, n)(n) && y == n;
    PartCount(Above(key, n), d);
    forall id | id in IDs(Filter(Above(key, n), d))
      ensures id in AboveIDs(key, s, n)
    {
      var x :| x in Filter(Above(key, n), d) && x.nodeID == id;
      assert !NotAbove(key, n)(x);
      assert x.nodeID != n.nodeID;
      assert forall z :: z in s && z.nodeID == id ==> !NotAbove(key, n)(z);
      assert AlwaysAbove(key, s, n, x.nodeID);
    }
    SubsetSize(IDs(Filter(Above(key, n), d)), AboveIDs(key, s, n));
  }

  function CandidateOr(n: Node): Node -> bool {
    (x: Node) => if x.nodeID == n.nodeID then x == n else x.utility >= 1.0
  }

  /** Keep `n`, and as many candidates as possible. */
  lemma {:induction false} RichestOutcome(s: seq<Node>, n: Node) returns (d: seq<Node>)
    requires n in s
    ensures DedupSpec(WordSwap, s, d) && n in d
    ensures CandidateCount(d) >= |CandidateIDs(s, n)|
  {
    d := ChoiceReached(s, CandidateOr(n));
    DedupMeetsSpec(WordSwap, s, d);
    var y := Representative(s, d, n);
    assert CandidateOr(n)(n) && y == n;
    PartCount(Candidate(), d);
    forall id | id in CandidateIDs(s, n)
      ensures id in IDs(Filter(Candidate(), d))
    {
      var x :| x in s && (if x.nodeID == n.nodeID then n else x).utility >= 1.0 && x.nodeID == id;
      var z := Representative(s, d, x);
      if x.nodeID == n.nodeID {
        SameRecord(d, z, n);
      } else {
        assert CandidateOr(n)(x);
      }
    }
    SubsetSize(CandidateIDs(s, n), IDs(Filter(Candidate(), d)));
  }

  /** `chosen` IDs get a record at least as useful as `n`, the others no candidate. */
  function Against(chosen: set<U32>, n: Node): Node -> bool {
    (x: Node) => if x.nodeID == n.nodeID then x == n
                 else if x.nodeID in chosen then x.utility >= n.utility
                 else x.utility < 1.0
  }

  function RivalTo(n: Node): Node -> bool {
    (x: Node) => x != n && x.utility >= n.utility
  }

  /** Keep `n` with just these IDs against it, and no candidate that can be avoided. */
  lemma {:induction false} AdverseOutcome(s: seq<Node>, n: Node, chosen: set<U32>) returns (d: seq<Node>)
    requires n in s && chosen <= RivalIDs(s, n)
    ensures DedupSpec(WordSwap, s, d) && n in d
    ensures |Filter(RivalTo(n), d)| >= |chosen|
    ensures SureIDs(s, n) <= chosen && n.utility < 1.0 ==> CandidateCount(d) <= |chosen|
  {
    d := ChoiceReached(s, Against(chosen, n));
    DedupMeetsSpec(WordSwap, s, d);
    var y := Representative(s, d, n);
    assert Against(chosen, n)(n) && y == n;
    ChosenAreRivals(s, d, n, chosen);
    if SureIDs(s, n) <= chosen && n.utility < 1.0 {
      OnlyChosenAreCandidates(s, d, n, chosen);
    }
  }

  lemma {:induction false} ChosenAreRivals(s: seq<Node>, d: seq<Node>, n: Node, chosen: set<U32>)
    requires OnePerID(s, d) && n in d && chosen <= RivalIDs(s, n)
    requires forall x :: x in d ==>
               Against(chosen, n)(x) || forall y :: y in s && y.nodeID == x.nodeID ==> !Against(chosen, n)(y)
    ensures |Filter(RivalTo(n), d)| >= |chosen|
  {
    PartCount(RivalTo(n), d);
    forall id | id in chosen
      ensures id in IDs(Filter(RivalTo(n), d))
    {
      var x :| x in s && x.nodeID != n.nodeID && x.utility >= n.utility && x.nodeID == id;
      var z := Representative(s, d, x);
      assert Against(chosen, n)(x);
      assert Against(chosen, n)(z);
    }
    SubsetSize(chosen, IDs(Filter(RivalTo(n), d)));
  }

  lemma {:induction false} OnlyChosenAreCandidates(s: seq<Node>, d: seq<Node>, n: Node, chosen: set<U32>)
    requires OnePerID(s, d) && n in d && n.utility < 1.0 && SureIDs(s, n) <= chosen
    requires forall x :: x in d ==>
               Against(chosen, n)(x) || forall y :: y in s && y.nodeID == x.nodeID ==> !Against(chosen, n)(y)
    ensures CandidateCount(d) <= |chosen|
  {
    PartCount(Candidate(), d);
    forall id | id in IDs(Filter(Candidate(), d))
      ensures id in chosen
    {
      var x :| x in Filter(Candidate(), d) && x.nodeID == id;
      if x.nodeID == n.nodeID {
        SameRecord(d, x, n);
      }
      assert id !in chosen ==> AllCandidates(s, x.nodeID);
      assert x in s;
    }
    SubsetSize(IDs(Filter(Candidate(), d)), chosen);
  }

  // ----- Sorting and cutting around one record -----

  function Others(key: SortKey, n: Node): Node -> bool {
    (x: Node) => x != n && Rank(key, x) <= Rank(key, n)
  }

  /** Ties may be ordered in favour of `n`. */
  lemma {:induction false} SortedInFavour(key: SortKey, d: seq<Node>, n: Node) returns (t: seq<Node>)
    requires DistinctIDs(d) && n in d
    ensures IsSort(key, d, t)
    ensures |Filter(Above(key, n), d)| < |t| && t[|Filter(Above(key, n), d)|] == n
  {
    var a := SortExists(key, Filter(Above(key, n), d));
    var b := SortExists(key, Filter(Others(key, n), d));
    SameBag(Filter(Above(key, n), d), a);
    SameBag(Filter(Others(key, n), d), b);
    FilterMembers(Above(key, n), d);
    FilterMembers(Others(key, n), d);
    t := a + [n] + b;
    assert Descending(key, t) by {
      Around(key, a, n, b);
    }
    SplitAround(key, d, n, a, b);
  }

  lemma {:induction false} Around(key: SortKey, a: seq<Node>, n: Node, b: seq<Node>)
    requires Descending(key, a) && Descending(key, b)
    requires forall x :: x in a ==> Rank(key, x) >= Rank(key, n)
    requires forall x :: x in b ==> Rank(key, x) <= Rank(key, n)
    ensures Descending(key, a + [n] + b)
  {
    var t := a + [n] + b;
    forall i, j | 0 <= i < j < |t|
      ensures Rank(key, t[i]) >= Rank(key, t[j])
    {
      assert i < |a| ==> t[i] == a[i] && a[i] in a;
      assert i > |a| ==> t[i] == b[i - |a| - 1] && b[i - |a| - 1] in b;
      assert j < |a| ==> t[j] == a[j];
      assert j > |a| ==> t[j] == b[j - |a| - 1] && b[j - |a| - 1] in b;
    }
  }

  lemma {:induction false} SplitAround(key: SortKey, d: seq<Node>, n: Node, a: seq<Node>, b: seq<Node>)
    requires DistinctIDs(d) && n in d
    requires multiset(a) == multiset(Filter(Above(key, n), d)) && multiset(b) == multiset(Filter(Others(key, n), d))
    ensures multiset(a + [n] + b) == multiset(d)
  {
    var p, q := multiset(a + [n] + b), multiset(d);
    forall x: Node
      ensures p[x] == q[x]
    {
      FilterMultiplicity(Above(key, n), d, x);
      FilterMultiplicity(Others(key, n), d, x);
      OnceAtMost(d, x);
    }
    SameMultiplicities(p, q);
  }

  /** Ties may be ordered against `n`. */
  lemma {:induction false} SortedAgainst(d: seq<Node>, n: Node) returns (t: seq<Node>)
    requires DistinctIDs(d) && n in d
    ensures IsSort(ByUtility, d, t)
    ensures n !in Take(t, |Filter(RivalTo(n), d)|)
  {
    var a := SortExists(ByUtility, Filter(RivalTo(n), d));
    var b := SortExists(ByUtility, Filter(Below(n), d));
    SameBag(Filter(RivalTo(n), d), a);
    SameBag(Filter(Below(n), d), b);
    FilterMembers(RivalTo(n), d);
    FilterMembers(Below(n), d);
    t := a + [n] + b;
    assert Descending(ByUtility, t) by {
      Around(ByUtility, a, n, b);
    }
    SplitBelow(d, n, a, b);
    assert Take(t, |a|) == a;
  }

  function Below(n: Node): Node -> bool {
    (x: Node) => x.utility < n.utility
  }

  lemma {:induction false} SplitBelow(d: seq<Node>, n: Node, a: seq<Node>, b: seq<Node>)
    requires DistinctIDs(d) && n in d
    requires multiset(a) == multiset(Filter(RivalTo(n), d)) && multiset(b) == multiset(Filter(Below(n), d))
    ensures multiset(a + [n] + b) == multiset(d)
  {
    var p, q := multiset(a + [n] + b), multiset(d);
    forall x: Node
      ensures p[x] == q[x]
    {
      FilterMultiplicity(RivalTo(n), d, x);
      FilterMultiplicity(Below(n), d, x);
      OnceAtMost(d, x);
    }
    SameMultiplicities(p, q);
  }

  /** Whatever is kept has fewer records above it than are kept. */
  lemma {:induction false} KeptIsNotCrowded(key: SortKey, limit: nat, d: seq<Node>, r: seq<Node>, n: Node)
    requires DistinctIDs(d) && Top(key, limit, d, r) && n in r
    ensures |Filter(Above(key, n), d)| < limit
  {
    var c := Filter(Above(key, n), d);
    PartCount(Above(key, n), d);
    FilterDistinct(Above(key, n), d);
    assert forall x :: x in c ==> x in r;
    Fewer(c, r, n);
  }

  lemma {:induction false} Fewer(c: seq<Node>, r: seq<Node>, n: Node)
    requires DistinctIDs(c) && DistinctIDs(r) && n in r && n !in c
    requires forall x :: x in c ==> x in r
    ensures |c| < |r|
  {
    var a, b := multiset(c) + multiset{n}, multiset(r);
    forall x: Node
      ensures a[x] <= b[x]
    {
      OnceAtMost(c, x);
      OnceAtMost(r, x);
    }
    SubBag(a, b);
    assert |a| == |c| + 1 && |b| == |r|;
  }

  // ----- The random table -----

  /** A record may be in the random table after an update exactly if it may survive the
      deduplication and fewer than N IDs outrank it in any case. */
  lemma {:induction false} RandomKeepsIff(swap: Swap, own: U32, capacity: nat, rn: seq<Node>, nc: seq<Node>, n: Node)
    requires |rn| <= capacity
    ensures var pool := Pool(swap, Appended(rn, capacity, nc, own));
            (exists r :: RandomMerge(swap, own, capacity, rn, nc, r) && n in r)
            <==> n in pool && |AboveIDs(ByTimeStamp, pool, n)| < capacity / 2
  {
    var merged := Appended(rn, capacity, nc, own);
    var pool := Pool(swap, merged);
    if r :| RandomMerge(swap, own, capacity, rn, nc, r) && n in r {
      RandomKept(swap, own, capacity, rn, nc, r, n);
    }
    if n in pool && |AboveIDs(ByTimeStamp, pool, n)| < capacity / 2 {
      var d := FavouringOutcome(ByTimeStamp, pool, n);
      PoolDecides(swap, merged, d);
      SpecIsReached(swap, merged, d);
      var t := SortedInFavour(ByTimeStamp, d, n);
      var r := Take(t, capacity / 2);
      TakeHas(t, capacity / 2, |Filter(Above(ByTimeStamp, n), d)|);
      assert RandomMergeVia(swap, own, capacity, rn, nc, d, t, r);
      assert RandomMerge(swap, own, capacity, rn, nc, r) && n in r;
    }
  }

  lemma {:induction false} RandomKept(swap: Swap, own: U32, capacity: nat, rn: seq<Node>, nc: seq<Node>, r: seq<Node>,
                                      n: Node)
    requires RandomMerge(swap, own, capacity, rn, nc, r) && n in r
    ensures |rn| <= capacity
    ensures var pool := Pool(swap, Appended(rn, capacity, nc, own));
            n in pool && |AboveIDs(ByTimeStamp, pool, n)| < capacity / 2
  {
    var d, t :| RandomMergeVia(swap, own, capacity, rn, nc, d, t, r);
    var merged := Appended(rn, capacity, nc, own);
    DedupMeetsSpec(swap, merged, d);
    PoolDecides(swap, merged, d);
    TakeIsTop(ByTimeStamp, capacity / 2, d, t);
    KeptIsNotCrowded(ByTimeStamp, capacity / 2, d, r, n);
    AboveAtLeast(ByTimeStamp, Pool(swap, merged), d, n);
  }

  lemma {:induction false} TakeHas(t: seq<Node>, limit: nat, i: nat)
    requires i < |t| && i < limit
    ensures t[i] in Take(t, limit)
  {
    assert Take(t, limit)[i] == t[i];
  }

  // ----- The important table -----

  /** `n` may end above the cut, or the table may grow for the other candidates' sake. */
  predicate MayBeKept(k: nat, capacity: nat, pool: seq<Node>, n: Node) {
    || |AboveIDs(ByUtility, pool, n)| + k < capacity
    || (capacity + k <= NODES_MAX_SIZE && |CandidateIDs(pool, n)| + k > capacity)
  }

  /** A record may be in the important table after an update exactly if it may survive the
      deduplication and either so few IDs outrank it in any case that it stays above the cut, or
      the table may grow with `n` in it. */
  lemma {:induction false} ImportantKeepsIff(swap: Swap, own: U32, k: nat, im: seq<Node>, capacity: nat,
                                             nc: seq<Node>, n: Node)
    requires |im| <= capacity && k <= capacity
    ensures var pool := Pool(swap, Appended(im, capacity, nc, own));
            (exists im', capacity' :: ImportantMerge(swap, own, k, im, capacity, nc, im', capacity') && n in im')
            <==> n in pool && MayBeKept(k, capacity, pool, n)
  {
    var merged := Appended(im, capacity, nc, own);
    var pool := Pool(swap, merged);
    if im', capacity' :| ImportantMerge(swap, own, k, im, capacity, nc, im', capacity') && n in im' {
      ImportantKept(swap, own, k, im, capacity, nc, im', capacity', n);
    }
    if n in pool && MayBeKept(k, capacity, pool, n) {
      var im', capacity' := KeepingOutcome(swap, own, k, im, capacity, nc, n);
      assert ImportantMerge(swap, own, k, im, capacity, nc, im', capacity') && n in im';
    }
  }

  lemma {:induction false} ImportantKept(swap: Swap, own: U32, k: nat, im: seq<Node>, capacity: nat, nc: seq<Node>,
                                         im': seq<Node>, capacity': nat, n: Node)
    requires ImportantMerge(swap, own, k, im, capacity, nc, im', capacity') && n in im'
    ensures |im| <= capacity && k <= capacity
    ensures var pool := Pool(swap, Appended(im, capacity, nc, own));
            n in pool && MayBeKept(k, capacity, pool, n)
  {
    var d := ImportantMergeMeaning(swap, own, k, im, capacity, nc, im', capacity');
    var merged := Appended(im, capacity, nc, own);
    var pool := Pool(swap, merged);
    PoolDecides(swap, merged, d);
    if capacity' == capacity {
      KeptIsNotCrowded(ByUtility, capacity - k, d, im', n);
      AboveAtLeast(ByUtility, pool, d, n);
    } else {
      CandidatesAtMost(pool, d, n);
    }
  }

  /** From a deduplicated merge with few records above `n` to an outcome that keeps it. */
  lemma {:induction false} OutcomeWith(swap: Swap, own: U32, k: nat, im: seq<Node>, capacity: nat, nc: seq<Node>,
                                       d: seq<Node>, n: Node) returns (im': seq<Node>, capacity': nat)
    requires |im| <= capacity && k <= capacity && n in d
    requires DedupSpec(swap, Appended(im, capacity, nc, own), d)
    requires |Filter(Above(ByUtility, n), d)| + k < Regrown(capacity, k, CandidateCount(d))
    ensures ImportantMerge(swap, own, k, im, capacity, nc, im', capacity') && n in im'
  {
    SpecIsReached(swap, Appended(im, capacity, nc, own), d);
    var t := SortedInFavour(ByUtility, d, n);
    SortKeepsCandidates(d, t);
    capacity' := Regrown(capacity, k, CandidateCount(d));
    im' := Take(t, capacity' - k);
    TakeHas(t, capacity' - k, |Filter(Above(ByUtility, n), d)|);
    assert ImportantMergeVia(swap, own, k, im, capacity, nc, d, t, im', capacity');
  }

  lemma {:induction false} KeepingOutcome(swap: Swap, own: U32, k: nat, im: seq<Node>, capacity: nat, nc: seq<Node>,
                                          n: Node) returns (im': seq<Node>, capacity': nat)
    requires |im| <= capacity && k <= capacity
    requires var pool := Pool(swap, Appended(im, capacity, nc, own));
             n in pool && MayBeKept(k, capacity, pool, n)
    ensures ImportantMerge(swap, own, k, im, capacity, nc, im', capacity') && n in im'
  {
    var merged := Appended(im, capacity, nc, own);
    var pool := Pool(swap, merged);
    if |AboveIDs(ByUtility, pool, n)| + k < capacity {
      var d := FavouringOutcome(ByUtility, pool, n);
      PoolDecides(swap, merged, d);
      im', capacity' := OutcomeWith(swap, own, k, im, capacity, nc, d, n);
    } else {
      var d := RichestOutcome(pool, n);
      PoolDecides(swap, merged, d);
      MergeFits(swap, own, im, capacity, nc, d, n);
      im', capacity' := OutcomeWith(swap, own, k, im, capacity, nc, d, n);
    }
  }

  lemma {:induction false} MergeFits(swap: Swap, own: U32, im: seq<Node>, capacity: nat, nc: seq<Node>, d: seq<Node>,
                                     n: Node)
    requires |im| <= capacity && DedupSpec(swap, Appended(im, capacity, nc, own), d) && n in d
    ensures |Filter(Above(ByUtility, n), d)| < |d| <= capacity
  {
    SpecIsReached(swap, Appended(im, capacity, nc, own), d);
    DedupedSize(swap, own, im, capacity, nc, d);
    PartCount(Above(ByUtility, n), d);
    FilterDistinct(Above(ByUtility, n), d);
    Fewer(Filter(Above(ByUtility, n), d), d, n);
  }

  // ----- What may be lost -----

  /** `n` may represent its ID and still fall below the cut: enough others may be at least as
      useful, and the table need not grow, or cannot. */
  predicate MayBeLost(k: nat, capacity: nat, pool: seq<Node>, n: Node) {
    && |RivalIDs(pool, n)| + k >= capacity
    && (capacity + k > NODES_MAX_SIZE || (n.utility < 1.0 && |SureIDs(pool, n)| + k <= capacity))
  }

  /** Is the ID in the important table after every possible update? */
  predicate Secured(k: nat, capacity: nat, pool: seq<Node>, id: U32) {
    HasID(pool, id) && forall n :: n in pool && n.nodeID == id ==> !MayBeLost(k, capacity, pool, n)
  }

  /** An ID is sure to be in the important table after an update exactly if it is in the merge and
      no record that may represent it may be lost. */
  lemma {:induction false} ImportantSecuresIff(swap: Swap, own: U32, k: nat, im: seq<Node>, capacity: nat,
                                               nc: seq<Node>, id: U32)
    requires |im| <= capacity && k <= capacity
    ensures (forall im', capacity' ::
               ImportantMerge(swap, own, k, im, capacity, nc, im', capacity') ==> HasID(im', id))
       <==> Secured(k, capacity, Pool(swap, Appended(im, capacity, nc, own)), id)
  {
    var pool := Pool(swap, Appended(im, capacity, nc, own));
    if Secured(k, capacity, pool, id) {
      forall im', capacity' | ImportantMerge(swap, own, k, im, capacity, nc, im', capacity')
        ensures HasID(im', id)
      {
        SecuredStays(swap, own, k, im, capacity, nc, im', capacity', id);
      }
    } else {
      var im', capacity' := LosingOutcome(swap, own, k, im, capacity, nc, id);
      assert ImportantMerge(swap, own, k, im, capacity, nc, im', capacity') && !HasID(im', id);
    }
  }

  lemma {:induction false} SecuredStays(swap: Swap, own: U32, k: nat, im: seq<Node>, capacity: nat, nc: seq<Node>,
                                        im': seq<Node>, capacity': nat, id: U32)
    requires ImportantMerge(swap, own, k, im, capacity, nc, im', capacity')
    requires |im| <= capacity && Secured(k, capacity, Pool(swap, Appended(im, capacity, nc, own)), id)
    ensures HasID(im', id)
  {
    var d := ImportantMergeMeaning(swap, own, k, im, capacity, nc, im', capacity');
    var merged := Appended(im, capacity, nc, own);
    var pool := Pool(swap, merged);
    PoolDecides(swap, merged, d);
    RepresentedStays(k, capacity, pool, d, im', capacity', id);
  }

  lemma {:induction false} RepresentedStays(k: nat, capacity: nat, pool: seq<Node>, d: seq<Node>, im': seq<Node>,
                                            capacity': nat, id: U32)
    requires k <= capacity && |d| <= capacity && DedupSpec(WordSwap, pool, d)
    requires ImportantOutcome(k, capacity, d, im', capacity') && Secured(k, capacity, pool, id)
    ensures HasID(im', id)
  {
    var j :| 0 <= j < |pool| && pool[j].nodeID == id;
    var n := Representative(pool, d, pool[j]);
    assert n in pool;
    if n !in im' {
      LostMayBeLost(k, capacity, pool, d, im', capacity', n);
    }
    var q :| 0 <= q < |im'| && im'[q] == n;
  }

  lemma {:induction false} LostMayBeLost(k: nat, capacity: nat, pool: seq<Node>, d: seq<Node>, im': seq<Node>,
                                         capacity': nat, n: Node)
    requires k <= capacity && |d| <= capacity && DedupSpec(WordSwap, pool, d) && n in d && n !in im'
    requires ImportantOutcome(k, capacity, d, im', capacity')
    ensures MayBeLost(k, capacity, pool, n)
  {
    CutSize(k, capacity, d, im', capacity', n);
    KeptAreRivals(pool, d, im', n);
    if capacity + k <= NODES_MAX_SIZE {
      SureAtMost(pool, d, n);
      if n.utility >= 1.0 {
        assert forall y :: y in im' ==> Rank(ByUtility, n) <= Rank(ByUtility, y);
        CandidatesExceed(d, im', n);
      }
    }
  }

  /** Something is cut off only if the table did not grow, and then the cut is full. */
  lemma {:induction false} CutSize(k: nat, capacity: nat, d: seq<Node>, im': seq<Node>, capacity': nat, n: Node)
    requires k <= capacity && |d| <= capacity && DistinctIDs(d) && n in d && n !in im'
    requires ImportantOutcome(k, capacity, d, im', capacity')
    ensures capacity' == capacity && |im'| + k == capacity
    ensures capacity + k <= NODES_MAX_SIZE ==> CandidateCount(d) + k <= capacity
  {
    if |d| <= capacity' - k {
      AllKept(ByUtility, capacity' - k, d, im');
    }
  }

  lemma {:induction false} KeptAreRivals(pool: seq<Node>, d: seq<Node>, r: seq<Node>, n: Node)
    requires OnePerID(pool, d) && n in d && n !in r && DistinctIDs(r)
    requires forall y :: y in r ==> y in d && y.utility >= n.utility
    ensures |r| <= |RivalIDs(pool, n)|
  {
    DistinctCount(r);
    forall id | id in IDs(r)
      ensures id in RivalIDs(pool, n)
    {
      var y :| y in r && y.nodeID == id;
      if y.nodeID == n.nodeID {
        SameRecord(d, y, n);
      }
      assert y in pool;
    }
    SubsetSize(IDs(r), RivalIDs(pool, n));
  }

  lemma {:induction false} SureAtMost(pool: seq<Node>, d: seq<Node>, n: Node)
    requires OnePerID(pool, d)
    ensures |SureIDs(pool, n)| <= CandidateCount(d)
  {
    PartCount(Candidate(), d);
    forall id | id in SureIDs(pool, n)
      ensures id in IDs(Filter(Candidate(), d))
    {
      var x :| x in pool && x.nodeID != n.nodeID && AllCandidates(pool, x.nodeID) && x.nodeID == id;
      var y := Representative(pool, d, x);
      assert y in pool;
    }
    SubsetSize(SureIDs(pool, n), IDs(Filter(Candidate(), d)));
  }

  lemma {:induction false} LosingOutcome(swap: Swap, own: U32, k: nat, im: seq<Node>, capacity: nat, nc: seq<Node>,
                                         id: U32) returns (im': seq<Node>, capacity': nat)
    requires |im| <= capacity && k <= capacity
    requires !Secured(k, capacity, Pool(swap, Appended(im, capacity, nc, own)), id)
    ensures ImportantMerge(swap, own, k, im, capacity, nc, im', capacity') && !HasID(im', id)
  {
    var merged := Appended(im, capacity, nc, own);
    var pool := Pool(swap, merged);
    if HasID(pool, id) {
      var n :| n in pool && n.nodeID == id && MayBeLost(k, capacity, pool, n);
      im', capacity' := LosingRecord(swap, own, k, im, capacity, nc, n);
    } else {
      var d := DedupExists(swap, merged);
      var t := SortExists(ByUtility, d);
      capacity' := Regrown(capacity, k, CandidateCount(t));
      im' := Take(t, capacity' - k);
      assert ImportantMergeVia(swap, own, k, im, capacity, nc, d, t, im', capacity');
      PoolIDs(swap, merged);
      NothingNew(swap, merged, d, t, im');
    }
  }

  lemma {:induction false} NothingNew(swap: Swap, merged: seq<Node>, d: seq<Node>, t: seq<Node>, r: seq<Node>)
    requires Deduped(swap, merged, d) && multiset(d) == multiset(t) && forall n :: n in r ==> n in t
    ensures forall id :: HasID(r, id) ==> HasID(merged, id)
  {
    DedupMeetsSpec(swap, merged, d);
    SameBag(d, t);
    HasIDMembers(r, merged);
  }

  lemma {:induction false} LosingRecord(swap: Swap, own: U32, k: nat, im: seq<Node>, capacity: nat, nc: seq<Node>,
                                        n: Node) returns (im': seq<Node>, capacity': nat)
    requires |im| <= capacity && k <= capacity
    requires var pool := Pool(swap, Appended(im, capacity, nc, own));
             n in pool && MayBeLost(k, capacity, pool, n)
    ensures ImportantMerge(swap, own, k, im, capacity, nc, im', capacity') && !HasID(im', n.nodeID)
  {
    var merged := Appended(im, capacity, nc, own);
    var pool := Pool(swap, merged);
    var chosen := AgainstWhom(k, capacity, pool, n);
    var d := AdverseOutcome(pool, n, chosen);
    PoolDecides(swap, merged, d);
    im', capacity' := OutcomeWithout(swap, own, k, im, capacity, nc, d, n);
  }

  /** From a deduplicated merge with enough rivals of `n` and no need to grow. */
  lemma {:induction false} OutcomeWithout(swap: Swap, own: U32, k: nat, im: seq<Node>, capacity: nat, nc: seq<Node>,
                                          d: seq<Node>, n: Node) returns (im': seq<Node>, capacity': nat)
    requires |im| <= capacity && k <= capacity && n in d
    requires DedupSpec(swap, Appended(im, capacity, nc, own), d)
    requires |Filter(RivalTo(n), d)| + k >= capacity
    requires capacity + k <= NODES_MAX_SIZE ==> CandidateCount(d) + k <= capacity
    ensures ImportantMerge(swap, own, k, im, capacity, nc, im', capacity') && !HasID(im', n.nodeID)
  {
    SpecIsReached(swap, Appended(im, capacity, nc, own), d);
    var t := SortedAgainst(d, n);
    SortKeepsCandidates(d, t);
    capacity' := capacity;
    im' := Take(t, capacity - k);
    assert ImportantMergeVia(swap, own, k, im, capacity, nc, d, t, im', capacity');
    GoneForGood(d, t, im', n);
  }

  /** Whom to set against `n`: everybody at least as useful if the table cannot grow, otherwise
      just enough not to make it grow. */
  lemma {:induction false} AgainstWhom(k: nat, capacity: nat, pool: seq<Node>, n: Node) returns (chosen: set<U32>)
    requires k <= capacity && MayBeLost(k, capacity, pool, n)
    ensures chosen <= RivalIDs(pool, n) && |chosen| + k >= capacity
    ensures capacity + k <= NODES_MAX_SIZE ==>
              n.utility < 1.0 && SureIDs(pool, n) <= chosen && |chosen| + k == capacity
  {
    if capacity + k > NODES_MAX_SIZE {
      chosen := RivalIDs(pool, n);
    } else {
      assert SureIDs(pool, n) <= RivalIDs(pool, n);
      chosen := SetBetween(SureIDs(pool, n), RivalIDs(pool, n), capacity - k);
    }
  }

  lemma {:induction false} GoneForGood(d: seq<Node>, t: seq<Node>, r: seq<Node>, n: Node)
    requires DistinctIDs(d) && n in d && multiset(d) == multiset(t)
    requires (forall x :: x in r ==> x in t) && n !in r
    ensures !HasID(r, n.nodeID)
  {
    SameBag(d, t);
    if HasID(r, n.nodeID) {
      var j :| 0 <= j < |r| && r[j].nodeID == n.nodeID;
      assert r[j] in r;
      SameRecord(d, r[j], n);
    }
  }
}
