/** The two table updates of protocol.c, on values: what a received collection does to the random
    and to the important table, and what is sent from them. */
module Merging {
  import opened Collections
  import opened Records
  import opened Sorting
  import opened Dedup
  import opened Geometry
  import opened TableSpec

  // ----- The updates -----

  ghost predicate RandomMergeVia(swap: Swap, own: U32, capacity: nat, rn: seq<Node>, nc: seq<Node>, d: seq<Node>,
                                 t: seq<Node>, rn': seq<Node>)
  {
    && |rn| <= capacity
    && Deduped(swap, Appended(rn, capacity, nc, own), d)
    && IsSort(ByTimeStamp, d, t)
    && rn' == Take(t, capacity / 2)
  }

  /** A possible outcome of Protocol_updateRandomNodes. */
  ghost predicate RandomMerge(swap: Swap, own: U32, capacity: nat, rn: seq<Node>, nc: seq<Node>, rn': seq<Node>) {
    exists d, t :: RandomMergeVia(swap, own, capacity, rn, nc, d, t, rn')
  }

  /** The new capacity, decided by the number of candidates in the merged table. */
  function Regrown(capacity: nat, k: nat, candidates: nat): nat {
    if candidates > capacity - k then Grown(capacity, k) else capacity
  }

  ghost predicate ImportantMergeVia(swap: Swap, own: U32, k: nat, im: seq<Node>, capacity: nat, nc: seq<Node>,
                                    d: seq<Node>, t: seq<Node>, im': seq<Node>, capacity': nat)
  {
    && |im| <= capacity && k <= capacity
    && Deduped(swap, Appended(im, capacity, nc, own), d)
    && IsSort(ByUtility, d, t)
    && capacity' == Regrown(capacity, k, CandidateCount(t))
    && im' == Take(t, capacity' - k)
  }

  /** A possible outcome of Protocol_updateImportantNodes, with `nc` already scored. */
  ghost predicate ImportantMerge(swap: Swap, own: U32, k: nat, im: seq<Node>, capacity: nat, nc: seq<Node>,
                                 im': seq<Node>, capacity': nat)
  {
    exists d, t :: ImportantMergeVia(swap, own, k, im, capacity, nc, d, t, im', capacity')
  }

  /** The collection Protocol_sendRandomNodes sends. As coded it leaves out the last entry. */
  function RandomMessage(own: Node, rn: seq<Node>): seq<Node> {
    if |rn| > 1 then [own] + rn[..|rn| - 1] else [own]
  }

  /** The entries Protocol_sendImportantNodes picks for `peer`. */
  ghost predicate Selected(lib: MathLib, k: nat, im: seq<Node>, peer: Node, sel: seq<Node>) {
    if |im| <= k then sel == im
    else exists t :: SelectedVia(lib, k, im, peer, t, sel)
  }

  ghost predicate SelectedVia(lib: MathLib, k: nat, im: seq<Node>, peer: Node, t: seq<Node>, sel: seq<Node>) {
    IsSort(ByUtility, Scored(lib, peer, im), t) && sel == Take(t, k)
  }

  // ----- The best of a collection -----

  /** `r` is the best `limit` records of `d` in order: nothing left out outranks anything kept. */
  ghost predicate Top(key: SortKey, limit: nat, d: seq<Node>, r: seq<Node>) {
    && (forall n :: n in r ==> n in d)
    && DistinctIDs(r)
    && |r| == (if |d| <= limit then |d| else limit)
    && Descending(key, r)
    && forall x, y :: x in d && x !in r && y in r ==> Rank(key, x) <= Rank(key, y)
  }

  lemma {:induction false} TakeIsTop(key: SortKey, limit: nat, d: seq<Node>, t: seq<Node>)
    requires DistinctIDs(d) && IsSort(key, d, t)
    ensures Top(key, limit, d, Take(t, limit))
  {
    SameBag(d, t);
    PermutationDistinct(d, t);
    var r := Take(t, limit);
    forall x, y | x in d && x !in r && y in r
      ensures Rank(key, x) <= Rank(key, y)
    {
      DroppedRanksBelow(key, t, |r|, x, y);
    }
  }

  lemma {:induction false} DroppedRanksBelow(key: SortKey, t: seq<Node>, n: nat, x: Node, y: Node)
    requires Descending(key, t) && n <= |t| && x in t && x !in t[..n] && y in t[..n]
    ensures Rank(key, x) <= Rank(key, y)
  {
    var i :| 0 <= i < |t| && t[i] == x;
    var j :| 0 <= j < n && t[..n][j] == y;
    assert forall k :: 0 <= k < n ==> t[k] in t[..n];
  }

  function NotIn(r: seq<Node>): Node -> bool {
    (n: Node) => n !in r
  }

  lemma {:induction false} TopIsTake(key: SortKey, limit: nat, d: seq<Node>, r: seq<Node>) returns (t: seq<Node>)
    requires DistinctIDs(d) && Top(key, limit, d, r)
    ensures IsSort(key, d, t) && r == Take(t, limit)
  {
    var left := Filter(NotIn(r), d);
    FilterMembers(NotIn(r), d);
    FilterDistinct(NotIn(r), d);
    var rest := SortExists(key, left);
    SameBag(left, rest);
    t := r + rest;
    forall i, j | 0 <= i < j < |t|
      ensures Rank(key, t[i]) >= Rank(key, t[j])
    {
      assert i < |r| ==> t[i] in r;
      assert j >= |r| ==> t[j] in rest && t[j] in left;
      assert i >= |r| ==> t[i] == rest[i - |r|] && t[j] == rest[j - |r|];
    }
    SplitBag(d, r, left);
    assert multiset(t) == multiset(d);
    SameBag(d, t);
  }

  /** A collection of distinct records is the bag of a part and of what the part leaves out. */
  lemma {:induction false} SplitBag(d: seq<Node>, r: seq<Node>, left: seq<Node>)
    requires DistinctIDs(d) && DistinctIDs(r) && left == Filter(NotIn(r), d)
    requires forall n :: n in r ==> n in d
    ensures multiset(d) == multiset(r) + multiset(left)
  {
    var a, b := multiset(d), multiset(r) + multiset(left);
    forall x: Node
      ensures a[x] == b[x]
    {
      FilterMultiplicity(NotIn(r), d, x);
      OnceAtMost(d, x);
      OnceAtMost(r, x);
    }
    SameMultiplicities(a, b);
  }

  lemma {:induction false} OnceAtMost(s: seq<Node>, x: Node)
    requires DistinctIDs(s)
    ensures multiset(s)[x] == if x in s then 1 else 0
  {
    assert x in s <==> x in multiset(s);
    if multiset(s)[x] >= 2 {
      var i, j := TwoPositions(s, x);
    }
  }

  // ----- The random table -----

  /** Updating the random table amounts to: deduplicate the old table followed by as much of the
      foreign part of the message as fits, and keep the N newest in order. The code reaches
      exactly those outcomes. */
  lemma {:induction false} RandomMergeClosedForm(swap: Swap, own: U32, capacity: nat, rn: seq<Node>, nc: seq<Node>,
                                                 rn': seq<Node>)
    requires |rn| <= capacity
    ensures RandomMerge(swap, own, capacity, rn, nc, rn')
       <==> exists d :: DedupSpec(swap, Appended(rn, capacity, nc, own), d) && Top(ByTimeStamp, capacity / 2, d, rn')
  {
    var merged := Appended(rn, capacity, nc, own);
    if RandomMerge(swap, own, capacity, rn, nc, rn') {
      var d, t :| RandomMergeVia(swap, own, capacity, rn, nc, d, t, rn');
      DedupMeetsSpec(swap, merged, d);
      TakeIsTop(ByTimeStamp, capacity / 2, d, t);
      assert DedupSpec(swap, merged, d) && Top(ByTimeStamp, capacity / 2, d, rn');
    }
    if d :| DedupSpec(swap, merged, d) && Top(ByTimeStamp, capacity / 2, d, rn') {
      SpecIsReached(swap, merged, d);
      var t := TopIsTake(ByTimeStamp, capacity / 2, d, rn');
      assert RandomMergeVia(swap, own, capacity, rn, nc, d, t, rn');
    }
  }

  // ----- What every update keeps -----

  lemma {:induction false} TakeMembers(s: seq<Node>, n: nat)
    ensures forall x :: x in Take(s, n) ==> x in s
  {
  }

  lemma {:induction false} AppendedMembers(a: seq<Node>, capacity: nat, b: seq<Node>, ignore: U32)
    requires |a| <= capacity
    ensures |Appended(a, capacity, b, ignore)| <= capacity
    ensures forall n :: n in Appended(a, capacity, b, ignore) ==> n in a || (n in b && NotIgnored(ignore)(n))
    ensures forall n :: n in a ==> n in Appended(a, capacity, b, ignore)
  {
    FilterMembers(NotIgnored(ignore), b);
    TakeMembers(Filter(NotIgnored(ignore), b), capacity - |a|);
  }

  /** A table after an update holds only records of the old table or of the message, at most one
      per ID, none with the node's own ID. */
  ghost predicate Merged(own: U32, a: seq<Node>, b: seq<Node>, r: seq<Node>) {
    && DistinctIDs(r)
    && (forall n :: n in r ==> n in a || (n in b && n.nodeID != own))
  }

  lemma {:induction false} RandomMergeKeeps(swap: Swap, own: U32, capacity: nat, rn: seq<Node>, nc: seq<Node>,
                                            rn': seq<Node>)
    requires own != 0 && RandomMerge(swap, own, capacity, rn, nc, rn')
    ensures |rn'| <= capacity / 2
    ensures Merged(own, rn, nc, rn')
  {
    var d, t :| RandomMergeVia(swap, own, capacity, rn, nc, d, t, rn');
    DedupMeetsSpec(swap, Appended(rn, capacity, nc, own), d);
    AppendedMembers(rn, capacity, nc, own);
    TakeIsTop(ByTimeStamp, capacity / 2, d, t);
  }

  /** The facts about one update of the important table: `d` is the deduplicated merge. */
  ghost predicate ImportantOutcome(k: nat, capacity: nat, d: seq<Node>, im': seq<Node>, capacity': nat) {
    && capacity' == Regrown(capacity, k, CandidateCount(d)) >= k
    && Top(ByUtility, capacity' - k, d, im')
  }

  lemma {:induction false} ImportantMergeMeaning(swap: Swap, own: U32, k: nat, im: seq<Node>, capacity: nat,
                                                 nc: seq<Node>, im': seq<Node>, capacity': nat) returns (d: seq<Node>)
    requires ImportantMerge(swap, own, k, im, capacity, nc, im', capacity')
    ensures |im| <= capacity && k <= capacity
    ensures DedupSpec(swap, Appended(im, capacity, nc, own), d)
    ensures |d| == |IDs(Appended(im, capacity, nc, own))| <= capacity
    ensures ImportantOutcome(k, capacity, d, im', capacity')
  {
    var t;
    d, t :| ImportantMergeVia(swap, own, k, im, capacity, nc, d, t, im', capacity');
    DedupedSize(swap, own, im, capacity, nc, d);
    SortKeepsCandidates(d, t);
    TakeIsTop(ByUtility, capacity' - k, d, t);
  }

  lemma {:induction false} SortKeepsCandidates(d: seq<Node>, t: seq<Node>)
    requires multiset(d) == multiset(t)
    ensures CandidateCount(d) == CandidateCount(t)
  {
    FilterPermutation(Candidate(), d, t);
    SameBag(Filter(Candidate(), d), Filter(Candidate(), t));
  }

  lemma {:induction false} DedupedSize(swap: Swap, own: U32, im: seq<Node>, capacity: nat, nc: seq<Node>, d: seq<Node>)
    requires |im| <= capacity && Deduped(swap, Appended(im, capacity, nc, own), d)
    ensures DedupSpec(swap, Appended(im, capacity, nc, own), d)
    ensures |d| == |IDs(Appended(im, capacity, nc, own))| <= capacity
  {
    var merged := Appended(im, capacity, nc, own);
    DedupMeetsSpec(swap, merged, d);
    DedupCount(swap, merged, d);
    DistinctWithin(d, merged);
    AppendedMembers(im, capacity, nc, own);
  }

  /** A collection with distinct records from `s` is no longer than `s`. */
  lemma {:induction false} DistinctWithin(d: seq<Node>, s: seq<Node>)
    requires DistinctIDs(d) && forall n :: n in d ==> n in s
    ensures |d| <= |s|
  {
    var a, b := multiset(d), multiset(s);
    forall x: Node
      ensures a[x] <= b[x]
    {
      OnceAtMost(d, x);
      assert x in s <==> x in multiset(s);
    }
    SubBag(a, b);
    assert |a| == |d| && |b| == |s|;
  }

  lemma {:induction false} SubBag<T>(a: multiset<T>, b: multiset<T>)
    requires forall x :: a[x] <= b[x]
    ensures |a| <= |b|
  {
    assert a <= b;
    assert b == a + (b - a);
  }

  lemma {:induction false} ImportantMergeKeeps(swap: Swap, own: U32, k: nat, im: seq<Node>, capacity: nat,
                                               nc: seq<Node>, im': seq<Node>, capacity': nat)
    requires own != 0 && ImportantMerge(swap, own, k, im, capacity, nc, im', capacity')
    ensures |im'| <= capacity' - k
    ensures capacity' == capacity || (capacity' == capacity + k <= NODES_MAX_SIZE)
    ensures Merged(own, im, nc, im')
    ensures Descending(ByUtility, im')
  {
    var d := ImportantMergeMeaning(swap, own, k, im, capacity, nc, im', capacity');
    AppendedMembers(im, capacity, nc, own);
  }

  // ----- No candidate is lost -----

  /** If the candidates fit below the limit, the best `limit` records include all of them. */
  lemma {:induction false} CandidatesKept(limit: nat, d: seq<Node>, r: seq<Node>)
    requires DistinctIDs(d) && Top(ByUtility, limit, d, r)
    requires CandidateCount(d) <= limit
    ensures forall n :: n in d && n.utility >= 1.0 ==> n in r
  {
    if |d| <= limit {
      AllKept(ByUtility, limit, d, r);
      return;
    }
    forall n | n in d && n.utility >= 1.0
      ensures n in r
    {
      if n !in r {
        assert forall y :: y in r ==> Rank(ByUtility, n) <= Rank(ByUtility, y);
        CandidatesExceed(d, r, n);
        assert false;
      }
    }
  }

  lemma {:induction false} CandidatesExceed(d: seq<Node>, r: seq<Node>, n: Node)
    requires DistinctIDs(r) && n in d && n !in r && n.utility >= 1.0
    requires forall y :: y in r ==> y in d && y.utility >= 1.0
    ensures CandidateCount(d) > |r|
  {
    var c := Filter(Candidate(), d);
    FilterMembers(Candidate(), d);
    var bag := multiset(r) + multiset{n};
    forall x: Node
      ensures bag[x] <= multiset(c)[x]
    {
      OnceAtMost(r, x);
      assert x in c <==> x in multiset(c);
    }
    SubBag(bag, multiset(c));
    assert |bag| == |r| + 1 && |multiset(c)| == |c|;
  }

  /** Updating the important table never loses a candidate while it may still grow; when it grows
      it loses nothing at all; and when the hard limit refuses the growth it keeps exactly the
      floor, nothing dropped being more useful than anything kept. */
  lemma {:induction false} NoLostCandidate(swap: Swap, own: U32, k: nat, im: seq<Node>, capacity: nat, nc: seq<Node>,
                                           im': seq<Node>, capacity': nat)
    requires ImportantMerge(swap, own, k, im, capacity, nc, im', capacity')
    ensures exists d: seq<Node> ::
              && DedupSpec(swap, Appended(im, capacity, nc, own), d)
              && Top(ByUtility, capacity' - k, d, im')
              && ((CandidateCount(d) <= capacity - k || capacity + k <= NODES_MAX_SIZE)
                  ==> forall n :: n in d && n.utility >= 1.0 ==> n in im')
              && (capacity' > capacity ==> forall n :: n in d ==> n in im')
              && (CandidateCount(d) > capacity - k && capacity + k > NODES_MAX_SIZE
                  ==> |im'| == capacity - k)
  {
    var d := ImportantMergeMeaning(swap, own, k, im, capacity, nc, im', capacity');
    FilterSize(Candidate(), d);
    if CandidateCount(d) <= capacity' - k {
      CandidatesKept(capacity' - k, d, im');
    }
    if capacity' > capacity {
      AllKept(ByUtility, capacity' - k, d, im');
    }
  }

  /** Below the limit nothing is left out. */
  lemma {:induction false} AllKept(key: SortKey, limit: nat, d: seq<Node>, r: seq<Node>)
    requires DistinctIDs(d) && Top(key, limit, d, r) && |d| <= limit
    ensures forall n :: n in d ==> n in r
  {
    var t := TopIsTake(key, limit, d, r);
    SameBag(d, t);
  }

  // ----- What is sent -----

  lemma {:induction false} ScoredFacts(lib: MathLib, from: Node, s: seq<Node>)
    ensures SameWire(Scored(lib, from, s), s)
    ensures DistinctIDs(s) <==> DistinctIDs(Scored(lib, from, s))
    ensures forall n :: n in Scored(lib, from, s) ==>
              n.utility == Utility(lib, from, n) && exists m :: m in s && m.Wire() == n.Wire()
    ensures forall m :: m in s ==> m.(utility := Utility(lib, from, m)) in Scored(lib, from, s)
  {
    var t := Scored(lib, from, s);
    assert forall i :: 0 <= i < |s| ==> t[i].nodeID == s[i].nodeID && t[i].Wire() == s[i].Wire();
    forall n | n in t
      ensures n.utility == Utility(lib, from, n) && exists m :: m in s && m.Wire() == n.Wire()
    {
      var i :| 0 <= i < |t| && t[i] == n;
      UtilityIgnoresIdentity(lib, from, from, s[i], n);
      assert s[i] in s;
    }
    forall m | m in s
      ensures m.(utility := Utility(lib, from, m)) in t
    {
      var i :| 0 <= i < |s| && s[i] == m;
      assert t[i] in t;
    }
  }

  /** Is `m`, as far as a peer can tell, among the records sent? */
  ghost predicate Sends(sel: seq<Node>, m: Node) {
    exists n :: n in sel && n.Wire() == m.Wire()
  }

  lemma {:induction false} WithheldIsScored(lib: MathLib, im: seq<Node>, peer: Node, sel: seq<Node>, m: Node)
    requires m in im && !Sends(sel, m)
    ensures m.(utility := Utility(lib, peer, m)) in Scored(lib, peer, im)
    ensures m.(utility := Utility(lib, peer, m)) !in sel
  {
    ScoredFacts(lib, peer, im);
    assert m.(utility := Utility(lib, peer, m)).Wire() == m.Wire();
  }

  lemma {:induction false} SelectionIsTop(lib: MathLib, k: nat, im: seq<Node>, peer: Node, sel: seq<Node>)
    requires DistinctIDs(im) && Selected(lib, k, im, peer, sel) && |im| > k
    ensures Top(ByUtility, k, Scored(lib, peer, im), sel)
  {
    var t :| SelectedVia(lib, k, im, peer, t, sel);
    ScoredFacts(lib, peer, im);
    TakeIsTop(ByUtility, k, Scored(lib, peer, im), t);
  }

  /** Of the table at most K records go to a peer, none of those withheld being more useful to it
      than one that is sent. Everything goes when there are at most K. */
  lemma {:induction false} TopKForPeer(lib: MathLib, k: nat, im: seq<Node>, peer: Node, sel: seq<Node>)
    requires DistinctIDs(im) && Selected(lib, k, im, peer, sel)
    ensures |sel| == (if |im| <= k then |im| else k) && DistinctIDs(sel)
    ensures forall n :: n in sel ==> Sends(im, n)
    ensures forall m, n :: m in im && !Sends(sel, m) && n in sel
                           ==> Utility(lib, peer, m) <= Utility(lib, peer, n)
    ensures |im| <= k ==> forall m :: m in im ==> Sends(sel, m)
  {
    if |im| <= k {
      assert sel == im;
      assert forall m :: m in im ==> m in sel && m.Wire() == m.Wire();
    } else {
      SelectionIsTop(lib, k, im, peer, sel);
      var scored := Scored(lib, peer, im);
      forall n | n in sel
        ensures Sends(im, n) && n.utility == Utility(lib, peer, n)
      {
        ScoredFacts(lib, peer, im);
        assert n in scored;
      }
      forall m, n | m in im && !Sends(sel, m) && n in sel
        ensures Utility(lib, peer, m) <= Utility(lib, peer, n)
      {
        WithheldIsScored(lib, im, peer, sel, m);
        assert Rank(ByUtility, m.(utility := Utility(lib, peer, m))) <= Rank(ByUtility, n);
      }
    }
  }

  /** Every known candidate of the peer is sent whenever there are at most K of them. */
  lemma {:induction false} PeerCandidatesSent(lib: MathLib, k: nat, im: seq<Node>, peer: Node, sel: seq<Node>)
    requires DistinctIDs(im) && Selected(lib, k, im, peer, sel)
    requires CandidateCount(Scored(lib, peer, im)) <= k
    ensures forall m :: m in im && Utility(lib, peer, m) >= 1.0 ==> Sends(sel, m)
  {
    forall m | m in im && Utility(lib, peer, m) >= 1.0
      ensures Sends(sel, m)
    {
      if |im| <= k {
        TopKForPeer(lib, k, im, peer, sel);
      } else {
        CandidateSent(lib, k, im, peer, sel, m);
      }
    }
  }

  lemma {:induction false} CandidateSent(lib: MathLib, k: nat, im: seq<Node>, peer: Node, sel: seq<Node>, m: Node)
    requires DistinctIDs(im) && Selected(lib, k, im, peer, sel) && |im| > k
    requires CandidateCount(Scored(lib, peer, im)) <= k
    requires m in im && Utility(lib, peer, m) >= 1.0
    ensures Sends(sel, m)
  {
    SelectionIsTop(lib, k, im, peer, sel);
    ScoredFacts(lib, peer, im);
    CandidatesKept(k, Scored(lib, peer, im), sel);
    if !Sends(sel, m) {
      WithheldIsScored(lib, im, peer, sel, m);
    }
  }

  lemma {:induction false} SelectionExists(lib: MathLib, k: nat, im: seq<Node>, peer: Node) returns (sel: seq<Node>)
    ensures Selected(lib, k, im, peer, sel)
  {
    sel := im;
    if |im| > k {
      var t := SortExists(ByUtility, Scored(lib, peer, im));
      sel := Take(t, k);
      assert SelectedVia(lib, k, im, peer, t, sel);
    }
  }
}
