/** May an entry of a table be replaced by an older record of the same node? One update at a time:
    never with the documented swap, and exactly when for the code. */
module Freshness {
  import opened Collections
  import opened Records
  import opened Sorting
  import opened Dedup
  import opened TableSpec
  import opened Merging
  import opened Outcomes

  /** No ID that stays goes back in time. */
  ghost predicate NeverOlder(a: seq<Node>, r: seq<Node>) {
    forall m, n :: m in a && n in r && m.nodeID == n.nodeID ==> m.timeStamp <= n.timeStamp
  }

  /** Is `n` an older record of a node that the table knows? */
  predicate Stale(a: seq<Node>, n: Node) {
    exists m :: m in a && m.nodeID == n.nodeID && n.timeStamp < m.timeStamp
  }

  lemma {:induction false} NeverOlderIff(a: seq<Node>, r: seq<Node>)
    ensures NeverOlder(a, r) <==> forall n :: n in r ==> !Stale(a, n)
  {
  }

  /** Every stale record that may survive the deduplication is outranked by N IDs in any case. */
  ghost predicate RandomStaysFresh(swap: Swap, own: U32, capacity: nat, rn: seq<Node>, nc: seq<Node>)
    requires |rn| <= capacity
  {
    var pool := Pool(swap, Appended(rn, capacity, nc, own));
    forall n :: n in pool && Stale(rn, n) ==> |AboveIDs(ByTimeStamp, pool, n)| >= capacity / 2
  }

  /** An update of the random table is sure not to move an entry back in time exactly if every
      stale record that may survive the deduplication falls victim to the cut. */
  lemma {:induction false} RandomAdvancesIff(swap: Swap, own: U32, capacity: nat, rn: seq<Node>, nc: seq<Node>)
    requires |rn| <= capacity
    ensures (forall r :: RandomMerge(swap, own, capacity, rn, nc, r) ==> NeverOlder(rn, r))
       <==> RandomStaysFresh(swap, own, capacity, rn, nc)
  {
    var pool := Pool(swap, Appended(rn, capacity, nc, own));
    if RandomStaysFresh(swap, own, capacity, rn, nc) {
      forall r | RandomMerge(swap, own, capacity, rn, nc, r)
        ensures NeverOlder(rn, r)
      {
        forall n | n in r
          ensures !Stale(rn, n)
        {
          RandomKept(swap, own, capacity, rn, nc, r, n);
        }
        NeverOlderIff(rn, r);
      }
    } else {
      var n :| n in pool && Stale(rn, n) && |AboveIDs(ByTimeStamp, pool, n)| < capacity / 2;
      RandomKeepsIff(swap, own, capacity, rn, nc, n);
      var r :| RandomMerge(swap, own, capacity, rn, nc, r) && n in r;
      NeverOlderIff(rn, r);
    }
  }

  /** No stale record that may survive the deduplication may also stay above the cut. */
  ghost predicate ImportantStaysFresh(swap: Swap, own: U32, k: nat, im: seq<Node>, capacity: nat, nc: seq<Node>)
    requires |im| <= capacity
  {
    var pool := Pool(swap, Appended(im, capacity, nc, own));
    forall n :: n in pool && Stale(im, n) ==> !MayBeKept(k, capacity, pool, n)
  }

  /** An update of the important table is sure not to move an entry back in time exactly if no
      stale record that may survive the deduplication may stay above the cut. */
  lemma {:induction false} ImportantAdvancesIff(swap: Swap, own: U32, k: nat, im: seq<Node>, capacity: nat,
                                                nc: seq<Node>)
    requires |im| <= capacity && k <= capacity
    ensures (forall im', capacity' ::
               ImportantMerge(swap, own, k, im, capacity, nc, im', capacity') ==> NeverOlder(im, im'))
       <==> ImportantStaysFresh(swap, own, k, im, capacity, nc)
  {
    var pool := Pool(swap, Appended(im, capacity, nc, own));
    if ImportantStaysFresh(swap, own, k, im, capacity, nc) {
      forall im', capacity' | ImportantMerge(swap, own, k, im, capacity, nc, im', capacity')
        ensures NeverOlder(im, im')
      {
        forall n | n in im'
          ensures !Stale(im, n)
        {
          ImportantKept(swap, own, k, im, capacity, nc, im', capacity', n);
        }
        NeverOlderIff(im, im');
      }
    } else {
      var n :| n in pool && Stale(im, n) && MayBeKept(k, capacity, pool, n);
      var im', capacity' := KeepingOutcome(swap, own, k, im, capacity, nc, n);
      NeverOlderIff(im, im');
      assert ImportantMerge(swap, own, k, im, capacity, nc, im', capacity');
    }
  }

  /** With the documented swap no stale record survives the deduplication at all. */
  lemma {:induction false} DocumentedPoolIsFresh(own: U32, capacity: nat, a: seq<Node>, nc: seq<Node>)
    requires |a| <= capacity
    ensures forall n :: n in Pool(RecordSwap, Appended(a, capacity, nc, own)) ==> !Stale(a, n)
  {
    var merged := Appended(a, capacity, nc, own);
    PoolMembers(RecordSwap, merged);
    AppendedMembers(a, capacity, nc, own);
  }

  /** With the documented swap no update makes an entry older. */
  lemma {:induction false} DocumentedMergesAdvance(own: U32, k: nat, a: seq<Node>, capacity: nat, nc: seq<Node>,
                                                   r: seq<Node>, capacity': nat)
    requires RandomMerge(RecordSwap, own, capacity, a, nc, r)
             || ImportantMerge(RecordSwap, own, k, a, capacity, nc, r, capacity')
    ensures NeverOlder(a, r)
  {
    forall n | n in r
      ensures !Stale(a, n)
    {
      if RandomMerge(RecordSwap, own, capacity, a, nc, r) {
        RandomKept(RecordSwap, own, capacity, a, nc, r, n);
      } else {
        ImportantKept(RecordSwap, own, k, a, capacity, nc, r, capacity', n);
      }
      DocumentedPoolIsFresh(own, capacity, a, nc);
    }
    NeverOlderIff(a, r);
  }

  /** As coded, the deduplication alone, before any cut, is sure not to bring an entry back in time
      exactly when nothing in the merge is stale. */
  lemma {:induction false} CodedDedupAdvancesIff(own: U32, capacity: nat, a: seq<Node>, nc: seq<Node>)
    requires |a| <= capacity
    ensures (forall d :: Deduped(WordSwap, Appended(a, capacity, nc, own), d) ==> NeverOlder(a, d))
       <==> NeverOlder(a, Appended(a, capacity, nc, own))
  {
    var merged := Appended(a, capacity, nc, own);
    if NeverOlder(a, merged) {
      forall d | Deduped(WordSwap, merged, d)
        ensures NeverOlder(a, d)
      {
        DedupMeetsSpec(WordSwap, merged, d);
      }
    } else {
      var m, n :| m in a && n in merged && m.nodeID == n.nodeID && m.timeStamp > n.timeStamp;
      var d := AnyoneSurvives(merged, n);
      assert !NeverOlder(a, d);
    }
  }

  /** The cut can save the random table where the deduplication fails it: of this merge the stale
      record may survive, but the cut to two drops it in every case. */
  lemma {:induction false} CutMaySaveFreshness(own: U32, a: Node, b: Node, c: Node, stale: Node)
    requires own != 0 && a.nodeID == stale.nodeID && DistinctIDs([a, b, c]) && !HasID([a, b, c], own)
    requires stale.timeStamp < a.timeStamp && stale.timeStamp < b.timeStamp && stale.timeStamp < c.timeStamp
    ensures !NeverOlder([a, b], Appended([a, b], 4, [stale, c], own))
    ensures forall r :: RandomMerge(WordSwap, own, 4, [a, b], [stale, c], r) ==> NeverOlder([a, b], r)
  {
    var rn, nc, merged := [a, b], [stale, c], [a, b, stale, c];
    assert [a, b, c][0] == a && [a, b, c][2] == c;
    SmallMerge(own, rn, nc, [a, b, c]);
    assert rn + nc == merged;
    assert a in rn && stale in merged;
    TwoAbove(a, b, c, stale);
    OnlyStale(a, b, c, stale);
    RandomAdvancesIff(WordSwap, own, 4, rn, nc);
  }

  lemma {:induction false} SmallMerge(own: U32, rn: seq<Node>, nc: seq<Node>, ids: seq<Node>)
    requires |rn| + |nc| <= 4 && !HasID(ids, own)
    requires forall n :: n in nc ==> HasID(ids, n.nodeID)
    ensures Appended(rn, 4, nc, own) == rn + nc
  {
    FilterAll(NotIgnored(own), nc);
  }

  lemma {:induction false} TwoAbove(a: Node, b: Node, c: Node, stale: Node)
    requires DistinctIDs([a, b, c]) && a.nodeID == stale.nodeID
    requires stale.timeStamp < b.timeStamp && stale.timeStamp < c.timeStamp
    ensures |AboveIDs(ByTimeStamp, [a, b, stale, c], stale)| >= 2
  {
    var merged := [a, b, stale, c];
    assert [a, b, c][0] == a && [a, b, c][1] == b && [a, b, c][2] == c;
    assert b in merged && AlwaysAbove(ByTimeStamp, merged, stale, b.nodeID);
    assert c in merged && AlwaysAbove(ByTimeStamp, merged, stale, c.nodeID);
    var both := {b.nodeID, c.nodeID};
    assert |both| == 2;
    SubsetSize(both, AboveIDs(ByTimeStamp, merged, stale));
  }

  lemma {:induction false} OnlyStale(a: Node, b: Node, c: Node, stale: Node)
    requires DistinctIDs([a, b, c]) && a.nodeID == stale.nodeID
    ensures forall n :: n in [a, b, stale, c] && Stale([a, b], n) ==> n == stale
  {
    assert [a, b, c][0] == a && [a, b, c][1] == b && [a, b, c][2] == c;
  }
}
