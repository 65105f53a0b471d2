/** What the table operations of node.c compute, on values. */
module TableSpec {
  import opened Collections
  import opened Records
  import opened Sorting
  import opened Dedup
  import opened Geometry

  /** Records that appending does not skip; an `ignore` of 0 skips nothing. */
  function NotIgnored(ignore: U32): Node -> bool {
    (n: Node) => ignore == 0 || n.nodeID != ignore
  }

  function Newer(cutoff: int): Node -> bool {
    (n: Node) => n.timeStamp > cutoff
  }

  function Candidate(): Node -> bool {
    (n: Node) => n.utility >= 1.0
  }

  /** `a` extended by the records of `b` that are not ignored, as far as the capacity allows. */
  function Appended(a: seq<Node>, capacity: int, b: seq<Node>, ignore: U32): seq<Node>
    requires |a| <= capacity
  {
    a + Take(Filter(NotIgnored(ignore), b), capacity - |a|)
  }

  /** Every record with its utility for `from` filled in. */
  function Scored(lib: MathLib, from: Node, s: seq<Node>): seq<Node> {
    seq(|s|, i requires 0 <= i < |s| => s[i].(utility := Utility(lib, from, s[i])))
  }

  function CandidateCount(s: seq<Node>): nat {
    |Filter(Candidate(), s)|
  }

  function Grown(capacity: nat, growBy: nat): nat {
    if capacity + growBy <= NODES_MAX_SIZE then capacity + growBy else capacity
  }

  /** How many leading records of the important table are eligible as a peer. */
  function PeerRange(s: seq<Node>): nat {
    if |s| < 10 then |s|
    else if CandidateCount(s) < 10 then 9
    else CandidateCount(s)
  }

  /** A peer drawn from the first `range` records; none only if there are none or the node itself
      was found among them. */
  ghost predicate PeerChoice(s: seq<Node>, range: int, own: U32, peer: Option<Node>) {
    match peer
    case Some(n) => n.nodeID != own && exists r :: 0 <= r < range && r < |s| && s[r] == n
    case None => s == [] || exists r :: 0 <= r < range && r < |s| && s[r].nodeID == own
  }

  /** `t` holds exactly the records of `s` newer than the cutoff, in the order of `key`. */
  ghost predicate ExpiryOf(key: SortKey, cutoff: int, s: seq<Node>, t: seq<Node>) {
    IsSort(key, Filter(Newer(cutoff), s), t)
  }

  // ----- Facts used by the imperative code -----

  /** The scan of `p` has reached slot `i` of the array, now holding `s`: everything from `i` on
      is still live, the live records before `i` and the survivors of the rest make up the
      survivors of `p`, and `count` records have not been nulled. */
  ghost predicate ScanAt(swap: Swap, p: seq<Node>, s: seq<Node>, i: int, count: int) {
    && 0 <= i <= |s| == |p|
    && (i < |s| || i == 0)
    && AllLive(s[i..])
    && Filter(Live(), s[..i]) + Survivors(swap, s[i..]) == Survivors(swap, p)
    && count == |s| - i + |Filter(Live(), s[..i])|
  }

  lemma {:induction false} ScanStart(swap: Swap, p: seq<Node>)
    requires AllLive(p)
    ensures ScanAt(swap, p, p, 0, |p|)
  {
    assert p[0..] == p;
  }

  /** One step of the scan, on the whole occupied part of the array. */
  lemma {:induction false} ScanStep(swap: Swap, p: seq<Node>, s: seq<Node>, i: nat, count: int, t: seq<Node>)
    requires ScanAt(swap, p, s, i, count) && i + 1 < |s| == |t|
    requires t == if s[i].nodeID == s[i + 1].nodeID
                  then s[i := Collide(swap, s[i], s[i + 1]).0][i + 1 := Collide(swap, s[i], s[i + 1]).1]
                  else s
    ensures ScanAt(swap, p, t, i + 1, if s[i].nodeID == s[i + 1].nodeID then count - 1 else count)
  {
    FilterOne(Live(), t, i);
    assert t[..i] == s[..i];
    var rest, rest' := s[i..], t[i + 1..];
    assert rest[0] == s[i] && rest[1] == s[i + 1] && rest[1..] == s[i + 1..] && rest[2..] == s[i + 2..];
    if s[i].nodeID == s[i + 1].nodeID {
      CollideKeepsOne(swap, s[i], s[i + 1]);
      assert rest' == [Collide(swap, s[i], s[i + 1]).1] + rest[2..];
    } else {
      assert rest' == rest[1..];
    }
    forall j | 0 <= j < |rest'|
      ensures rest'[j].nodeID != 0
    {
      assert j > 0 ==> rest'[j] == rest[j + 1];
    }
  }

  /** The scan ends at the last record, which survives as it stands. */
  lemma {:induction false} ScanEnd(swap: Swap, p: seq<Node>, s: seq<Node>, i: nat, count: int)
    requires ScanAt(swap, p, s, i, count) && i + 1 >= |s|
    ensures Filter(Live(), s) == Survivors(swap, p) && count == |Survivors(swap, p)|
  {
    FilterConcat(Live(), s[..i], s[i..]);
    assert s == s[..i] + s[i..];
    FilterAll(Live(), s[i..]);
    assert Survivors(swap, s[i..]) == s[i..];
  }

  /** A strictly ordered collection has only one sorting by ID: itself. */
  lemma {:induction false} SortOfStrict(s: seq<Node>, t: seq<Node>)
    requires IsSort(ByNodeID, s, t) && Descending(ByNodeID, s) && DistinctIDs(s)
    ensures s == t
  {
    SameBag(s, t);
    PermutationDistinct(s, t);
    assert Strict(s) && Strict(t);
    StrictUnique(s, t);
  }

  predicate Strict(s: seq<Node>) {
    forall i, j :: 0 <= i < j < |s| ==> s[i].nodeID > s[j].nodeID
  }

  lemma {:induction false} StrictUnique(s: seq<Node>, t: seq<Node>)
    requires Strict(s) && Strict(t) && |s| == |t|
    requires forall n :: n in s <==> n in t
    ensures s == t
  {
    if s != [] {
      assert s[0] in t && t[0] in s;
      assert s[0] == t[0];
      forall n
        ensures n in s[1..] <==> n in t[1..]
      {
        assert n in s <==> n == s[0] || n in s[1..];
        assert n in t <==> n == t[0] || n in t[1..];
      }
      StrictUnique(s[1..], t[1..]);
    }
  }

  /** The second sort and the new count leave exactly the survivors. */
  lemma {:induction false} SortedSurvivors(swap: Swap, p: seq<Node>, scanned: seq<Node>, q: seq<Node>)
    requires Descending(ByNodeID, p)
    requires Filter(Live(), scanned) == Survivors(swap, p)
    requires IsSort(ByNodeID, scanned, q)
    ensures |Survivors(swap, p)| <= |q|
    ensures q[..|Survivors(swap, p)|] == Survivors(swap, p)
  {
    SortDropsDeleted(scanned, q);
    SurvivorsMeetSpec(swap, p);
    SortOfStrict(Survivors(swap, p), q[..|Survivors(swap, p)|]);
  }

  function Marked(cutoff: int, n: Node): Node {
    if n.timeStamp <= cutoff then n.(nodeID := 0) else n
  }

  /** The table with every record nulled that is too old. */
  function Expired(cutoff: int, s: seq<Node>): seq<Node> {
    seq(|s|, i requires 0 <= i < |s| => Marked(cutoff, s[i]))
  }

  lemma {:induction false} ScoreStep(lib: MathLib, from: Node, s: seq<Node>, i: nat)
    requires i < |s|
    ensures Scored(lib, from, s[..i + 1]) + s[i + 1..]
         == (Scored(lib, from, s[..i]) + s[i..])[i := s[i].(utility := Utility(lib, from, s[i]))]
  {
  }

  lemma {:induction false} LiveAfterExpiry(cutoff: int, s: seq<Node>)
    requires AllLive(s)
    ensures Filter(Live(), Expired(cutoff, s)) == Filter(Newer(cutoff), s)
  {
    if s != [] {
      LiveAfterExpiry(cutoff, s[1..]);
      assert s[0].nodeID != 0;
      assert Expired(cutoff, s)[1..] == Expired(cutoff, s[1..]);
    }
  }

  /** Sorting the marked table and cutting it at the new count sorts the records that are left. */
  lemma {:induction false} SortedAfterExpiry(cutoff: int, s: seq<Node>, marked: seq<Node>, q: seq<Node>)
    returns (left: seq<Node>)
    requires AllLive(s) && marked == Expired(cutoff, s) && IsSort(ByNodeID, marked, q)
    ensures |left| == |Filter(Newer(cutoff), s)| <= |q| == |s|
    ensures left == q[..|left|]
    ensures ExpiryOf(ByNodeID, cutoff, s, left)
  {
    LiveAfterExpiry(cutoff, s);
    SortDropsDeleted(marked, q);
    SameBag(marked, q);
    left := q[..|Filter(Newer(cutoff), s)|];
  }

  /** The bounded copy loop stops at the capacity or at the end of `b`; either way it has copied
      the same records as the closed form. */
  lemma {:induction false} CopiedPrefix(ignore: U32, b: seq<Node>, pos: nat, room: nat)
    requires pos <= |b|
    requires |Filter(NotIgnored(ignore), b[..pos])| <= room
    requires |Filter(NotIgnored(ignore), b[..pos])| == room || pos == |b|
    ensures Filter(NotIgnored(ignore), b[..pos]) == Take(Filter(NotIgnored(ignore), b), room)
  {
    FilterConcat(NotIgnored(ignore), b[..pos], b[pos..]);
    assert b == b[..pos] + b[pos..];
  }
}
