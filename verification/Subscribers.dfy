/** The list of local subscribers of subscribe.c. */
module Subscribers {
  import opened Collections

  const MAX_NUM_SUBSCRIBERS := 25

  /** A socket path (a string without its terminator) and the byte size recorded for it. */
  datatype Subscriber = Subscriber(address: string, addressLength: nat)

  /** What the two local requests build from a path: the terminator is counted only on SUB. */
  function Subscribing(address: string): Subscriber { Subscriber(address, |address| + 1) }

  function Unsubscribing(address: string): Subscriber { Subscriber(address, |address|) }

  // ----- The list as a value -----

  function Added(subs: seq<Subscriber>, capacity: nat, s: Subscriber): seq<Subscriber> {
    if |subs| < capacity && s !in subs then subs + [s] else subs
  }

  function Removed(subs: seq<Subscriber>, address: string): seq<Subscriber> {
    var i := LastMatch(subs, address);
    if i >= 0 then subs[..i] + subs[i + 1..] else subs
  }

  /** The highest position holding the address, or -1. */
  function LastMatch(subs: seq<Subscriber>, address: string): (i: int)
    ensures -1 <= i < |subs|
    ensures i >= 0 ==> subs[i].address == address
    ensures forall j :: i < j < |subs| ==> subs[j].address != address
  {
    if subs == [] then -1
    else if subs[|subs| - 1].address == address then |subs| - 1
    else
      var rest := subs[..|subs| - 1];
      var i := LastMatch(rest, address);
      assert forall j :: i < j < |rest| ==> rest[j].address != address && subs[j] == rest[j];
      i
  }

  class SubscriberList {
    const subscribers: array<Subscriber>
    const maxNumSubs: nat
    var numSubs: nat

    ghost predicate Valid()
      reads this
    {
      numSubs <= maxNumSubs <= subscribers.Length
    }

    ghost function Contents(): seq<Subscriber>
      reads this, subscribers
      requires Valid()
    {
      subscribers[..numSubs]
    }

    constructor (maxNumSubs: nat)
      requires maxNumSubs <= MAX_NUM_SUBSCRIBERS
      ensures Valid() && fresh(subscribers) && Contents() == []
      ensures this.maxNumSubs == maxNumSubs
    {
      subscribers := new Subscriber[MAX_NUM_SUBSCRIBERS];
      this.maxNumSubs := maxNumSubs;
      numSubs := 0;
    }

    /** SubscriberList_addSub */
    method AddSub(newSub: Subscriber) returns (result: int)
      requires Valid()
      modifies this`numSubs, subscribers
      ensures Valid() && Contents() == Added(old(Contents()), maxNumSubs, newSub)
      ensures result == if |old(Contents())| >= maxNumSubs then 0
                        else if newSub in old(Contents()) then -1 else 1
    {
      if numSubs < maxNumSubs {
        var k, matches := 0, 0;
        while k < numSubs
          invariant 0 <= k <= numSubs && matches == 0
          invariant newSub !in subscribers[..k]
        {
          if newSub.addressLength == subscribers[k].addressLength {
            if newSub.address == subscribers[k].address {
              matches := matches + 1;
              break;
            }
          }
          k := k + 1;
        }
        if matches == 0 {
          subscribers[numSubs] := newSub;
          numSubs := numSubs + 1;
          return 1;
        } else {
          assert subscribers[k] == newSub;
          return -1;
        }
      } else {
        return 0;
      }
    }

    /** Moves everything above `index` down by one. */
    method ShiftDown(index: nat)
      requires Valid() && index < numSubs
      modifies subscribers
      ensures subscribers[..numSubs - 1] == old(subscribers[..index] + subscribers[index + 1..numSubs])
    {
      var k := index;
      while k < numSubs - 1
        invariant index <= k <= numSubs - 1
        invariant forall j :: 0 <= j < index || k < j < numSubs ==> subscribers[j] == old(subscribers[j])
        invariant forall j :: index <= j < k ==> subscribers[j] == old(subscribers[j + 1])
      {
        subscribers[k] := subscribers[k + 1];
        k := k + 1;
      }
    }

    /** SubscriberList_removeSub; only the path decides, and the last match goes. */
    method RemoveSub(rmvSub: Subscriber) returns (result: int)
      requires Valid()
      modifies this`numSubs, subscribers
      ensures Valid() && Contents() == Removed(old(Contents()), rmvSub.address)
      ensures result == if LastMatch(old(Contents()), rmvSub.address) >= 0 then 1 else 0
    {
      var i, index := 0, -1;
      while i < numSubs
        invariant 0 <= i <= numSubs
        invariant -1 <= index < i
        invariant index >= 0 ==> subscribers[index].address == rmvSub.address
        invariant forall j :: index < j < i ==> subscribers[j].address != rmvSub.address
      {
        if subscribers[i].address == rmvSub.address {
          index := i;
        }
        i := i + 1;
      }
      ghost var s := Contents();
      assert index == LastMatch(s, rmvSub.address);
      if index > -1 {
        ShiftDown(index);
        numSubs := numSubs - 1;
        return 1;
      } else {
        return 0;
      }
    }
  }

  // ----- Over any trace of requests -----

  datatype Request = Sub(address: string) | Unsub(address: string)

  function Handle(subs: seq<Subscriber>, r: Request): seq<Subscriber> {
    match r
    case Sub(a) => Added(subs, MAX_NUM_SUBSCRIBERS, Subscribing(a))
    case Unsub(a) => Removed(subs, Unsubscribing(a).address)
  }

  function After(trace: seq<Request>): seq<Subscriber> {
    if trace == [] then [] else Handle(After(trace[..|trace| - 1]), trace[|trace| - 1])
  }

  /** The reference: an insertion-ordered set of paths with at most 25 members. */
  function SetHandle(members: seq<string>, r: Request): seq<string> {
    match r
    case Sub(a) => if a in members || |members| == MAX_NUM_SUBSCRIBERS then members else members + [a]
    case Unsub(a) => Filter(OtherThan(a), members)
  }

  function OtherThan(a: string): string -> bool { (b: string) => b != a }

  function SetAfter(trace: seq<Request>): seq<string> {
    if trace == [] then [] else SetHandle(SetAfter(trace[..|trace| - 1]), trace[|trace| - 1])
  }

  function Addresses(subs: seq<Subscriber>): (a: seq<string>)
    ensures |a| == |subs|
    ensures forall i :: 0 <= i < |subs| ==> a[i] == subs[i].address
  {
    seq(|subs|, i requires 0 <= i < |subs| => subs[i].address)
  }

  predicate Distinct(a: seq<string>) {
    forall i, j :: 0 <= i < j < |a| ==> a[i] != a[j]
  }

  predicate Wellformed(subs: seq<Subscriber>) {
    && (forall s :: s in subs ==> s == Subscribing(s.address))
    && Distinct(Addresses(subs))
    && |subs| <= MAX_NUM_SUBSCRIBERS
  }

  lemma {:induction false} AddressMember(subs: seq<Subscriber>, a: string)
    requires forall s :: s in subs ==> s == Subscribing(s.address)
    ensures Subscribing(a) in subs <==> a in Addresses(subs)
  {
    if Subscribing(a) in subs {
      var i :| 0 <= i < |subs| && subs[i] == Subscribing(a);
      assert Addresses(subs)[i] == a;
    }
    if a in Addresses(subs) {
      var i :| 0 <= i < |subs| && Addresses(subs)[i] == a;
      assert subs[i] in subs;
    }
  }

  lemma {:induction false} AddRefines(subs: seq<Subscriber>, a: string)
    requires Wellformed(subs)
    ensures Wellformed(Handle(subs, Sub(a)))
    ensures Addresses(Handle(subs, Sub(a))) == SetHandle(Addresses(subs), Sub(a))
  {
    AddressMember(subs, a);
  }

  lemma {:induction false} DropOnly(m: seq<string>, i: nat)
    requires Distinct(m) && i < |m|
    ensures Filter(OtherThan(m[i]), m) == m[..i] + m[i + 1..]
  {
    if i == 0 {
      FilterAll(OtherThan(m[i]), m[1..]);
    } else {
      DropOnly(m[1..], i - 1);
      assert m[0] != m[i];
    }
  }

  lemma {:induction false} DistinctWithout(m: seq<string>, i: nat)
    requires Distinct(m) && i < |m|
    ensures Distinct(m[..i] + m[i + 1..])
  {
    var rest := m[..i] + m[i + 1..];
    assert forall j :: 0 <= j < |rest| ==> rest[j] == m[if j < i then j else j + 1];
  }

  lemma {:induction false} RemoveRefines(subs: seq<Subscriber>, a: string)
    requires Wellformed(subs)
    ensures Wellformed(Handle(subs, Unsub(a)))
    ensures Addresses(Handle(subs, Unsub(a))) == SetHandle(Addresses(subs), Unsub(a))
  {
    var i := LastMatch(subs, a);
    if i >= 0 {
      var rest := subs[..i] + subs[i + 1..];
      assert Addresses(rest) == Addresses(subs)[..i] + Addresses(subs)[i + 1..];
      assert forall s :: s in rest ==> s in subs;
      DistinctWithout(Addresses(subs), i);
      DropOnly(Addresses(subs), i);
    } else {
      FilterAll(OtherThan(a), Addresses(subs));
    }
  }

  /** After any requests the list is the bounded insertion-ordered set: paths stay distinct, there
      are never more than 25, and both operations keep the order of the others. */
  lemma {:induction false} ListRefinesSet(trace: seq<Request>)
    ensures Wellformed(After(trace))
    ensures Addresses(After(trace)) == SetAfter(trace)
  {
    if trace != [] {
      var before := trace[..|trace| - 1];
      ListRefinesSet(before);
      match trace[|trace| - 1]
      case Sub(a) => AddRefines(After(before), a);
      case Unsub(a) => RemoveRefines(After(before), a);
    }
  }

  /** Some SUB for the path found room and no UNSUB for it came later. */
  ghost predicate StillSubscribed(trace: seq<Request>, a: string) {
    exists k :: 0 <= k < |trace| && Grants(trace, k, a)
  }

  ghost predicate Grants(trace: seq<Request>, k: nat, a: string)
    requires k < |trace|
  {
    && trace[k] == Sub(a)
    && |After(trace[..k])| < MAX_NUM_SUBSCRIBERS
    && (forall j :: k < j < |trace| ==> trace[j] != Unsub(a))
  }

  lemma {:induction false} GrantShrinks(trace: seq<Request>, k: nat, a: string)
    requires k < |trace| - 1
    ensures Grants(trace, k, a)
        <==> Grants(trace[..|trace| - 1], k, a) && trace[|trace| - 1] != Unsub(a)
  {
    var before := trace[..|trace| - 1];
    assert before[..k] == trace[..k] && before[k] == trace[k];
    assert forall j :: k < j < |before| ==> before[j] == trace[j];
  }

  lemma {:induction false} GrantExtends(trace: seq<Request>, a: string)
    requires trace != []
    ensures var before, last := trace[..|trace| - 1], trace[|trace| - 1];
            StillSubscribed(trace, a)
            <==> (StillSubscribed(before, a) && last != Unsub(a))
                 || (last == Sub(a) && |After(before)| < MAX_NUM_SUBSCRIBERS)
  {
    var n := |trace| - 1;
    var before, last := trace[..n], trace[n];
    assert Grants(trace, n, a) <==> last == Sub(a) && |After(before)| < MAX_NUM_SUBSCRIBERS;
    forall k | 0 <= k < n
      ensures Grants(trace, k, a) <==> Grants(before, k, a) && last != Unsub(a)
    {
      GrantShrinks(trace, k, a);
    }
  }

  /** Membership is decided by the last request that took effect. */
  lemma {:induction false} MembershipByLastRequest(trace: seq<Request>, a: string)
    ensures a in SetAfter(trace) <==> StillSubscribed(trace, a)
  {
    if trace != [] {
      var before := trace[..|trace| - 1];
      MembershipByLastRequest(before, a);
      GrantExtends(trace, a);
      ListRefinesSet(before);
      match trace[|trace| - 1]
      case Sub(b) =>
      case Unsub(b) => FilterMember(OtherThan(b), SetAfter(before), a);
    }
  }

  /** An accepted subscription followed by its cancellation leaves the list as it was. */
  lemma {:induction false} AddThenRemoveRestores(trace: seq<Request>, a: string)
    requires a !in SetAfter(trace) && |After(trace)| < MAX_NUM_SUBSCRIBERS
    ensures After(trace + [Sub(a), Unsub(a)]) == After(trace)
  {
    ListRefinesSet(trace);
    RemoveUndoesAdd(After(trace), a);
    var added := trace + [Sub(a)];
    assert added[..|trace|] == trace;
    var both := trace + [Sub(a), Unsub(a)];
    assert both[..|added|] == added;
  }

  lemma {:induction false} RemoveUndoesAdd(subs: seq<Subscriber>, a: string)
    requires Wellformed(subs) && a !in Addresses(subs) && |subs| < MAX_NUM_SUBSCRIBERS
    ensures Handle(subs, Sub(a)) == subs + [Subscribing(a)]
    ensures Handle(Handle(subs, Sub(a)), Unsub(a)) == subs
  {
    AddressMember(subs, a);
    LastComesOff(subs, Subscribing(a));
  }

  lemma {:induction false} LastComesOff(subs: seq<Subscriber>, s: Subscriber)
    ensures Removed(subs + [s], s.address) == subs
  {
    var longer := subs + [s];
    assert longer[|subs|] == s;
    assert LastMatch(longer, s.address) == |subs|;
    assert longer[..|subs|] == subs && longer[|subs| + 1..] == [];
  }
}
