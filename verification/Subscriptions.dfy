/** Who is served, over whole runs: the subscribers are what the local requests have left, and every
    cleanup delivers to all of them. */
module Subscriptions {
  import opened Collections
  import opened Records
  import opened Dedup
  import opened Geometry
  import opened Subscribers
  import opened Steps
  import opened Network

  /** The step is a local request of the node to subscribe this path. */
  predicate Subscribes(s: Step, host: nat, a: string) {
    s.Local? && s.host == host && s.lr.rtype == 3 && s.lr.sockAddr == a
  }

  predicate Unsubscribes(s: Step, host: nat, a: string) {
    s.Local? && s.host == host && s.lr.rtype == 4 && s.lr.sockAddr == a
  }

  /** Is the path among the subscribers of the node? */
  predicate Subscribed(w: World, host: nat, a: string) {
    host in w.hosts && a in Addresses(w.hosts[host].subs)
  }

  /** Has the node room for another subscriber? */
  predicate HasRoom(w: World, host: nat) {
    host in w.hosts && |w.hosts[host].subs| < 25
  }

  lemma {:induction false} OthersKeepSubscribers(swap: Swap, lib: MathLib, w: World, s: Step, w': World, host: nat)
    requires Next(swap, lib, w, s, w') && host in w.hosts && !(s.Local? && s.host == host)
    ensures host in w'.hosts && w'.hosts[host].subs == w.hosts[host].subs
  {
    if s.Receive? && s.host == host {
      var nc, h' := ReceiveOf(swap, lib, w, s, w');
    } else if s.Cleanup? && s.host == host {
      var h' := CleanupOf(swap, lib, w, s, w');
    } else {
      SameTables(swap, lib, w, s, w', host);
    }
  }

  lemma {:induction false} RequestDecides(h: HostState, lr: LocalRequest, a: string)
    requires Wellformed(h.subs)
    ensures a in Addresses(Handled(h, lr).subs)
       <==> || (a in Addresses(h.subs) && !(lr.rtype == 4 && lr.sockAddr == a))
            || (lr.rtype == 3 && lr.sockAddr == a && |h.subs| < 25)
  {
    if lr.rtype == SUB_CANDNODES {
      AddRefines(h.subs, lr.sockAddr);
    } else if lr.rtype == UNSUB_CANDNODES {
      RemoveRefines(h.subs, lr.sockAddr);
      FilterMember(OtherThan(lr.sockAddr), Addresses(h.subs), a);
    }
  }

  lemma {:induction false} StepDecides(swap: Swap, lib: MathLib, w: World, s: Step, w': World, host: nat, a: string)
    requires WorldInv(w) && Next(swap, lib, w, s, w')
    ensures Subscribed(w', host, a)
       <==> (Subscribed(w, host, a) && !Unsubscribes(s, host, a)) || (Subscribes(s, host, a) && HasRoom(w, host))
  {
    if host in w.hosts {
      if s.Local? && s.host == host {
        RequestDecides(w.hosts[host], s.lr, a);
      } else {
        OthersKeepSubscribers(swap, lib, w, s, w', host);
      }
    } else {
      NoSubscribersYet(swap, lib, w, s, w', host);
    }
  }

  lemma {:induction false} NoSubscribersYet(swap: Swap, lib: MathLib, w: World, s: Step, w': World, host: nat)
    requires Next(swap, lib, w, s, w') && host !in w.hosts
    ensures host in w'.hosts ==> w'.hosts[host].subs == []
    ensures !(s.Local? && s.host == host)
  {
    if s.Receive? {
      var nc, h' := ReceiveOf(swap, lib, w, s, w');
    } else if s.Cleanup? {
      var h' := CleanupOf(swap, lib, w, s, w');
    }
  }

  /** Before world `i` some SUB for the path found room, and no UNSUB for it came later. */
  ghost predicate Entitled(ws: seq<World>, steps: seq<Step>, i: nat, host: nat, a: string)
    requires |ws| == |steps| + 1 && i < |ws|
  {
    exists k :: 0 <= k < i && EntitledBy(ws, steps, k, i, host, a)
  }

  ghost predicate EntitledBy(ws: seq<World>, steps: seq<Step>, k: nat, i: nat, host: nat, a: string)
    requires |ws| == |steps| + 1 && k < i < |ws|
  {
    && Subscribes(steps[k], host, a) && HasRoom(ws[k], host)
    && forall j :: k < j < i ==> !Unsubscribes(steps[j], host, a)
  }

  lemma {:induction false} EntitledStep(ws: seq<World>, steps: seq<Step>, i: nat, host: nat, a: string)
    requires |ws| == |steps| + 1 && i < |steps|
    ensures Entitled(ws, steps, i + 1, host, a)
       <==> || (Entitled(ws, steps, i, host, a) && !Unsubscribes(steps[i], host, a))
            || (Subscribes(steps[i], host, a) && HasRoom(ws[i], host))
  {
    if Entitled(ws, steps, i + 1, host, a) {
      var k :| 0 <= k < i + 1 && EntitledBy(ws, steps, k, i + 1, host, a);
      assert k < i ==> EntitledBy(ws, steps, k, i, host, a);
    }
    if Entitled(ws, steps, i, host, a) && !Unsubscribes(steps[i], host, a) {
      var k :| 0 <= k < i && EntitledBy(ws, steps, k, i, host, a);
      assert EntitledBy(ws, steps, k, i + 1, host, a);
    }
    if Subscribes(steps[i], host, a) && HasRoom(ws[i], host) {
      assert EntitledBy(ws, steps, i, i + 1, host, a);
    }
  }

  /** In every run the subscribers of a node are exactly the entitled paths. */
  lemma {:induction false} SubscribedIffEntitled(swap: Swap, lib: MathLib, ws: seq<World>, steps: seq<Step>, i: nat,
                                                 host: nat, a: string)
    requires Run(swap, lib, ws, steps) && i < |ws|
    ensures Subscribed(ws[i], host, a) <==> Entitled(ws, steps, i, host, a)
    decreases i
  {
    if i == 0 {
      NoneAtStart(ws[0], host, a);
    } else {
      var k := i - 1;
      SubscribedIffEntitled(swap, lib, ws, steps, k, host, a);
      EntitledStep(ws, steps, k, host, a);
      RunDecides(swap, lib, ws, steps, k, host, a);
    }
  }

  lemma {:induction false} NoneAtStart(w: World, host: nat, a: string)
    requires Start(w)
    ensures !Subscribed(w, host, a)
  {
    if host in w.hosts {
      var cfg: Config :| cfg.Sound() && w.hosts[host] == Initial(cfg, w.clock);
    }
  }

  lemma {:induction false} RunDecides(swap: Swap, lib: MathLib, ws: seq<World>, steps: seq<Step>, k: nat, host: nat,
                                      a: string)
    requires Run(swap, lib, ws, steps) && k < |steps|
    ensures Subscribed(ws[k + 1], host, a)
       <==> || (Subscribed(ws[k], host, a) && !Unsubscribes(steps[k], host, a))
            || (Subscribes(steps[k], host, a) && HasRoom(ws[k], host))
  {
    RunInvariant(swap, lib, ws, steps, k);
    StepDecides(swap, lib, ws[k], steps[k], ws[k + 1], host, a);
  }

  /** In every run a cleanup delivers a list exactly if the node has subscribers, and to all of them. */
  lemma {:induction false} CleanupDelivers(swap: Swap, lib: MathLib, ws: seq<World>, steps: seq<Step>, i: nat)
    requires Run(swap, lib, ws, steps) && i < |steps| && steps[i].Cleanup?
    ensures steps[i].host in ws[i].hosts
    ensures steps[i].delivered.Some? <==> ws[i].hosts[steps[i].host].subs != []
    ensures steps[i].delivered.Some? ==> steps[i].delivered.value.to == Addresses(ws[i].hosts[steps[i].host].subs)
  {
    var h' := CleanupOf(swap, lib, ws[i], steps[i], ws[i + 1]);
  }

  /** So in every run a path receives the list of a cleanup exactly if some SUB for it found room and
      no UNSUB for it came later. */
  lemma {:induction false} ServedIffEntitled(swap: Swap, lib: MathLib, ws: seq<World>, steps: seq<Step>, i: nat,
                                             a: string)
    requires Run(swap, lib, ws, steps) && i < |steps| && steps[i].Cleanup?
    ensures steps[i].delivered.Some? && a in steps[i].delivered.value.to
       <==> Entitled(ws, steps, i, steps[i].host, a)
  {
    CleanupDelivers(swap, lib, ws, steps, i);
    SubscribedIffEntitled(swap, lib, ws, steps, i, steps[i].host, a);
  }

  /** In every run no node has more than 25 subscribers, and none twice. */
  lemma {:induction false} SubscribersBounded(swap: Swap, lib: MathLib, ws: seq<World>, steps: seq<Step>, i: nat,
                                              host: nat)
    requires Run(swap, lib, ws, steps) && i < |ws| && host in ws[i].hosts
    ensures |ws[i].hosts[host].subs| <= 25
    ensures var to := Addresses(ws[i].hosts[host].subs); forall p, q :: 0 <= p < q < |to| ==> to[p] != to[q]
  {
    RunInvariant(swap, lib, ws, steps, i);
  }
}
