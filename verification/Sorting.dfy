/** The three orders of a collection. The library sort leaves the order of equal elements open,
    so everything is stated for some sorted permutation and nothing relies on stability. */
module Sorting {
  import opened Collections
  import opened Records

  datatype SortKey = ByUtility | ByTimeStamp | ByNodeID

  function Rank(key: SortKey, n: Node): real {
    match key
    case ByUtility => n.utility
    case ByTimeStamp => n.timeStamp as real
    case ByNodeID => n.nodeID as real
  }

  /** The comparator handed to the library sort: negative when `a` goes before `b`. */
  function Compare(key: SortKey, a: Node, b: Node): int {
    if Rank(key, a) > Rank(key, b) then -1
    else if Rank(key, a) < Rank(key, b) then 1
    else 0
  }

  predicate Descending(key: SortKey, s: seq<Node>) {
    forall i, j :: 0 <= i < j < |s| ==> Rank(key, s[i]) >= Rank(key, s[j])
  }

  ghost predicate IsSort(key: SortKey, s: seq<Node>, t: seq<Node>) {
    multiset(s) == multiset(t) && Descending(key, t)
  }

  lemma {:induction false} SortMembers(key: SortKey, s: seq<Node>, t: seq<Node>)
    requires IsSort(key, s, t)
    ensures |s| == |t|
    ensures forall n :: n in s <==> n in t
    ensures AllLive(s) <==> AllLive(t)
    ensures forall id :: HasID(s, id) <==> HasID(t, id)
  {
    SameBag(s, t);
    HasIDMembers(s, t);
    HasIDMembers(t, s);
    assert AllLive(s) <==> !HasID(s, 0);
    assert AllLive(t) <==> !HasID(t, 0);
  }

  lemma {:induction false} HasIDMembers(s: seq<Node>, t: seq<Node>)
    requires forall n :: n in s ==> n in t
    ensures forall id :: HasID(s, id) ==> HasID(t, id)
  {
    forall id: U32 | HasID(s, id)
      ensures HasID(t, id)
    {
      var i :| 0 <= i < |s| && s[i].nodeID == id;
      assert s[i] in t;
    }
  }

  /** Reordering never creates a clash of IDs. */
  lemma {:induction false} PermutationDistinct(s: seq<Node>, t: seq<Node>)
    requires multiset(s) == multiset(t) && DistinctIDs(s)
    ensures DistinctIDs(t)
  {
    SameBag(s, t);
    forall i, j | 0 <= i < j < |t|
      ensures t[i].nodeID != t[j].nodeID
    {
      assert t[i] in s && t[j] in s;
      if t[i] == t[j] {
        TwiceInBag(t, i, j);
        var a, b := TwoPositions(s, t[i]);
      }
    }
  }

  lemma {:induction false} FilterDistinct(keep: Node -> bool, s: seq<Node>)
    requires DistinctIDs(s)
    ensures DistinctIDs(Filter(keep, s))
  {
    if s != [] {
      FilterDistinct(keep, s[1..]);
      FilterMembers(keep, s[1..]);
      var rest := Filter(keep, s[1..]);
      forall j | 0 <= j < |rest|
        ensures s[0].nodeID != rest[j].nodeID
      {
        assert rest[j] in s[1..];
      }
    }
  }

  function Live(): Node -> bool {
    (n: Node) => n.nodeID != 0
  }

  /** Sorting by ID moves the deleted records to the bottom, so cutting the sorted collection at
      the number of live records sorts exactly the live ones. */
  lemma {:induction false} SortDropsDeleted(s: seq<Node>, t: seq<Node>)
    requires IsSort(ByNodeID, s, t)
    ensures |Filter(Live(), s)| <= |t|
    ensures IsSort(ByNodeID, Filter(Live(), s), t[..|Filter(Live(), s)|])
  {
    FilterPermutation(Live(), s, t);
    SameBag(Filter(Live(), s), Filter(Live(), t));
    FilterSize(Live(), t);
    LivePrefix(t);
  }

  lemma {:induction false} LivePrefix(t: seq<Node>)
    requires Descending(ByNodeID, t)
    ensures |Filter(Live(), t)| <= |t| && Filter(Live(), t) == t[..|Filter(Live(), t)|]
  {
    if t != [] {
      if t[0].nodeID != 0 {
        LivePrefix(t[1..]);
      } else {
        forall n | n in t
          ensures !Live()(n)
        {
          var i :| 0 <= i < |t| && t[i] == n;
          assert Rank(ByNodeID, t[0]) >= Rank(ByNodeID, t[i]);
        }
        FilterNone(Live(), t);
      }
    }
  }

  /** Every collection can be sorted. */
  lemma {:induction false} SortExists(key: SortKey, s: seq<Node>) returns (t: seq<Node>)
    ensures IsSort(key, s, t)
  {
    if s == [] {
      t := [];
    } else {
      var rest := SortExists(key, s[1..]);
      t := Inserted(key, rest, s[0]);
      assert s == [s[0]] + s[1..];
    }
  }

  lemma {:induction false} Inserted(key: SortKey, s: seq<Node>, x: Node) returns (t: seq<Node>)
    requires Descending(key, s)
    ensures Descending(key, t)
    ensures multiset(t) == multiset(s) + multiset{x}
  {
    var at: nat := SplitPoint(key, s, Rank(key, x));
    var above, below := s[..at], s[at..];
    t := above + [x] + below;
    assert s == above + below;
    forall i, j | 0 <= i < j < |t|
      ensures Rank(key, t[i]) >= Rank(key, t[j])
    {
      assert t[i] == if i < at then s[i] else if i == at then x else s[i - 1];
      assert t[j] == if j < at then s[j] else if j == at then x else s[j - 1];
    }
  }

  /** The number of leading elements that rank at least `r` in a sorted sequence. */
  lemma {:induction false} SplitPoint(key: SortKey, s: seq<Node>, r: real) returns (at: nat)
    requires Descending(key, s)
    ensures at <= |s|
    ensures forall i :: 0 <= i < at ==> Rank(key, s[i]) >= r
    ensures forall i :: at <= i < |s| ==> Rank(key, s[i]) < r
  {
    at := 0;
    while at < |s| && Rank(key, s[at]) >= r
      invariant at <= |s|
      invariant forall i :: 0 <= i < at ==> Rank(key, s[i]) >= r
    {
      at := at + 1;
    }
  }

  /** One round of the sort below, on values: after it one more leading element is in place. */
  lemma {:induction false} SelectionRound(key: SortKey, s: seq<Node>, i: nat, top: nat, t: seq<Node>)
    requires i <= top < |s|
    requires Descending(key, s[..i])
    requires forall p, q :: 0 <= p < i <= q < |s| ==> Rank(key, s[p]) >= Rank(key, s[q])
    requires forall q :: i <= q < |s| ==> Rank(key, s[top]) >= Rank(key, s[q])
    requires t == s[i := s[top]][top := s[i]]
    ensures multiset(t) == multiset(s)
    ensures Descending(key, t[..i + 1])
    ensures forall p, q :: 0 <= p < i + 1 <= q < |t| ==> Rank(key, t[p]) >= Rank(key, t[q])
  {
    SwapKeepsBag(s, i, top);
    forall p, q | 0 <= p < q < |t| && p < i + 1
      ensures Rank(key, t[p]) >= Rank(key, t[q])
    {
      assert p < i ==> t[p] == s[p];
      assert p == i ==> t[p] == s[top];
      assert q < i ==> t[q] == s[q] && s[..i][q] == s[q] && s[..i][p] == s[p];
      if q >= i {
        var r := if q == i then top else if q == top then i else q;
        assert t[q] == s[r];
      }
    }
  }

  /** Sorts the first `n` slots of `a` in place by repeatedly moving the largest remaining record
      to the front, as the library sort may. */
  method SortPrefix(key: SortKey, a: array<Node>, n: nat)
    requires n <= a.Length
    modifies a
    ensures IsSort(key, old(a[..n]), a[..n])
    ensures a[n..] == old(a[n..])
  {
    var i := 0;
    while i < n
      invariant 0 <= i <= n
      invariant multiset(a[..n]) == multiset(old(a[..n]))
      invariant Descending(key, a[..n][..i])
      invariant forall p, q :: 0 <= p < i <= q < n ==> Rank(key, a[..n][p]) >= Rank(key, a[..n][q])
      invariant a[n..] == old(a[n..])
    {
      ghost var before := a[..n];
      var top := IndexOfFirst(key, a, i, n);
      SwapSlots(a, n, i, top);
      SelectionRound(key, before, i, top, a[..n]);
      i := i + 1;
    }
    assert a[..n][..n] == a[..n];
  }

  method SwapSlots(a: array<Node>, n: nat, i: nat, j: nat)
    requires i < n <= a.Length && j < n
    modifies a
    ensures a[..n] == old(a[..n])[i := old(a[j])][j := old(a[i])]
    ensures a[n..] == old(a[n..])
  {
    a[i], a[j] := a[j], a[i];
  }

  /** The slot in `[from, to)` whose record no other record there precedes. */
  method IndexOfFirst(key: SortKey, a: array<Node>, from: nat, to: nat) returns (top: nat)
    requires from < to <= a.Length
    ensures from <= top < to
    ensures forall q :: from <= q < to ==> Rank(key, a[..to][top]) >= Rank(key, a[..to][q])
  {
    top := from;
    var j := from + 1;
    while j < to
      invariant from <= top < j <= to
      invariant forall q :: from <= q < j ==> Rank(key, a[top]) >= Rank(key, a[q])
    {
      if Compare(key, a[j], a[top]) < 0 {
        top := j;
      }
      j := j + 1;
    }
  }
}
