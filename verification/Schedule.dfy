/** When a node cleans up, over whole runs: never within the timeout, and always possible after it. */
module Schedule {
  import opened Collections
  import opened Records
  import opened Sorting
  import opened Dedup
  import opened Geometry
  import opened TableSpec
  import opened Merging
  import opened Steps
  import opened HostLaws
  import opened Network
  import opened Visible

  /** A step moves the time of the last cleanup only by a cleanup, to the present; a newcomer starts
      with the present. */
  lemma {:induction false} StepSetsTime(swap: Swap, lib: MathLib, w: World, s: Step, w': World, host: nat)
    requires Next(swap, lib, w, s, w') && host in w'.hosts
    ensures host !in w.hosts || (s.Cleanup? && s.host == host) ==> w'.hosts[host].lastCleanup == w.clock
    ensures host in w.hosts && !(s.Cleanup? && s.host == host)
            ==> w'.hosts[host].lastCleanup == w.hosts[host].lastCleanup
  {
    if s.Receive? {
      var nc, h' := ReceiveOf(swap, lib, w, s, w');
    } else if s.Cleanup? {
      var h' := CleanupOf(swap, lib, w, s, w');
    }
  }

  /** Between the two worlds the node does not clean up. */
  predicate NoCleanup(steps: seq<Step>, i: nat, j: nat, host: nat)
    requires i <= j <= |steps|
  {
    forall k :: i <= k < j ==> !(steps[k].Cleanup? && steps[k].host == host)
  }

  lemma {:induction false} TimeStands(swap: Swap, lib: MathLib, ws: seq<World>, steps: seq<Step>, i: nat, j: nat,
                                      host: nat)
    requires Run(swap, lib, ws, steps) && i <= j < |ws| && host in ws[i].hosts && NoCleanup(steps, i, j, host)
    ensures host in ws[j].hosts && ws[j].hosts[host].lastCleanup == ws[i].hosts[host].lastCleanup
    decreases j
  {
    if i < j {
      var k := j - 1;
      TimeStands(swap, lib, ws, steps, i, k, host);
      RunSetsTime(swap, lib, ws, steps, k, host);
    }
  }

  lemma {:induction false} RunSetsTime(swap: Swap, lib: MathLib, ws: seq<World>, steps: seq<Step>, k: nat, host: nat)
    requires Run(swap, lib, ws, steps) && k < |steps| && host in ws[k].hosts
    ensures host in ws[k + 1].hosts
    ensures ws[k + 1].hosts[host].lastCleanup
            == if steps[k].Cleanup? && steps[k].host == host then ws[k].clock else ws[k].hosts[host].lastCleanup
  {
    RunStep(swap, lib, ws, steps, k);
    StepSetsTime(swap, lib, ws[k], steps[k], ws[k + 1], host);
  }

  /** The time of the last cleanup never goes back. */
  lemma {:induction false} TimeAdvances(swap: Swap, lib: MathLib, ws: seq<World>, steps: seq<Step>, i: nat, j: nat,
                                        host: nat, t: int)
    requires Run(swap, lib, ws, steps) && i <= j < |ws| && host in ws[i].hosts
    requires t <= ws[i].hosts[host].lastCleanup && t <= ws[i].clock
    ensures host in ws[j].hosts && t <= ws[j].hosts[host].lastCleanup
    decreases j
  {
    if i < j {
      var k := j - 1;
      TimeAdvances(swap, lib, ws, steps, i, k, host, t);
      RunAdvances(swap, lib, ws, steps, i, k);
      RunSetsTime(swap, lib, ws, steps, k, host);
    }
  }

  /** Both worlds belong to a run in which the host keeps its timeout. */
  lemma {:induction false} TimeoutKept(swap: Swap, lib: MathLib, ws: seq<World>, steps: seq<Step>, i: nat, j: nat,
                                       host: nat)
    requires Run(swap, lib, ws, steps) && i <= j < |ws| && host in ws[i].hosts
    ensures host in ws[j].hosts && ws[j].hosts[host].cfg.timeout == ws[i].hosts[host].cfg.timeout
  {
    RunAdvances(swap, lib, ws, steps, i, j);
    assert ws[j].hosts[host].cfg.Fixed().timeout == ws[i].hosts[host].cfg.Fixed().timeout;
  }

  lemma {:induction false} CleanupComesLate(swap: Swap, lib: MathLib, ws: seq<World>, steps: seq<Step>, i: nat,
                                            j: nat, t: int)
    requires Run(swap, lib, ws, steps) && i <= j < |steps| && steps[j].Cleanup? && steps[j].host in ws[i].hosts
    requires t <= ws[i].hosts[steps[j].host].lastCleanup && t <= ws[i].clock
    ensures steps[j].host in ws[j].hosts
    ensures ws[j].clock - t > ws[j].hosts[steps[j].host].cfg.timeout
  {
    TimeAdvances(swap, lib, ws, steps, i, j, steps[j].host, t);
    assert Next(swap, lib, ws[j], steps[j], ws[j + 1]);
  }

  /** In every run two cleanups of one node are more than its timeout apart. */
  lemma {:induction false} CleanupsAreSpaced(swap: Swap, lib: MathLib, ws: seq<World>, steps: seq<Step>, i: nat, j: nat)
    requires Run(swap, lib, ws, steps) && i < j < |steps|
    requires steps[i].Cleanup? && steps[j].Cleanup? && steps[i].host == steps[j].host
    ensures steps[j].host in ws[i].hosts && steps[j].host in ws[j].hosts
    ensures ws[j].hosts[steps[j].host].cfg.timeout == ws[i].hosts[steps[j].host].cfg.timeout
    ensures ws[j].clock - ws[i].clock > ws[i].hosts[steps[j].host].cfg.timeout
  {
    var _ := CleanupOf(swap, lib, ws[i], steps[i], ws[i + 1]);
    RunSetsTime(swap, lib, ws, steps, i, steps[i].host);
    RunAdvances(swap, lib, ws, steps, i, i + 1);
    TimeoutKept(swap, lib, ws, steps, i, j, steps[j].host);
    CleanupComesLate(swap, lib, ws, steps, i + 1, j, ws[i].clock);
  }

  /** In every run a node that joins does not clean up before its timeout has passed. */
  lemma {:induction false} NewcomersWait(swap: Swap, lib: MathLib, ws: seq<World>, steps: seq<Step>, i: nat, j: nat)
    requires Run(swap, lib, ws, steps) && i < j < |steps|
    requires steps[i].Join? && steps[j].Cleanup? && steps[i].host == steps[j].host
    ensures steps[j].host in ws[j].hosts
    ensures ws[j].clock - ws[i].clock > ws[j].hosts[steps[j].host].cfg.timeout
  {
    assert Next(swap, lib, ws[i], steps[i], ws[i + 1]);
    StepSetsTime(swap, lib, ws[i], steps[i], ws[i + 1], steps[i].host);
    CleanupComesLate(swap, lib, ws, steps, i + 1, j, ws[i].clock);
  }

  /** Nor does one that is there from the start. */
  lemma {:induction false} StartersWait(swap: Swap, lib: MathLib, ws: seq<World>, steps: seq<Step>, j: nat)
    requires Run(swap, lib, ws, steps) && j < |steps| && steps[j].Cleanup? && steps[j].host in ws[0].hosts
    ensures steps[j].host in ws[j].hosts
    ensures ws[j].clock - ws[0].clock > ws[j].hosts[steps[j].host].cfg.timeout
  {
    var cfg: Config :| cfg.Sound() && ws[0].hosts[steps[j].host] == Initial(cfg, ws[0].clock);
    CleanupComesLate(swap, lib, ws, steps, 0, j, ws[0].clock);
  }

  // ----- After the timeout -----

  lemma {:induction false} SomePeer(own: U32, s: seq<Node>, range: nat) returns (p: Option<Node>)
    requires TableInv(own, s) && (s != [] ==> range > 0)
    ensures PeerChoice(s, range, own, p)
  {
    if s == [] {
      p := None;
    } else {
      p := Some(s[0]);
    }
  }

  lemma {:induction false} CleanedExists(h: HostState, now: U32) returns (h': HostState)
    ensures Cleaned(h, now, h')
  {
    var cutoff := now - h.cfg.nodeMaxAge;
    var rn := SortExists(ByNodeID, Filter(Newer(cutoff), h.rn));
    var im := SortExists(ByUtility, Filter(Newer(cutoff), h.im));
    h' := h.(rn := rn, im := im, lastCleanup := now);
  }

  lemma {:induction false} RequestsExist(lib: MathLib, host: nat, h: HostState, now: U32) returns (sent: seq<Packet>)
    requires HostInv(h)
    ensures Requests(lib, host, h, now, sent)
  {
    FilterSize(Candidate(), h.im);
    var p := SomePeer(h.cfg.id, h.rn, |h.rn|);
    var q := SomePeer(h.cfg.id, h.im, PeerRange(h.im));
    var first := if p.Some? then RandomPacket(host, h, now, RND_REQ, p.value) else Bootstrap(host, h.cfg, now);
    var rest: seq<Packet> := [];
    if q.Some? {
      var sel := SelectionExists(lib, h.cfg.k, h.im, q.value);
      rest := [ImportantPacket(host, h, now, IMP_REQ, q.value, sel)];
      assert ImportantSent(lib, host, h, now, IMP_REQ, q.value, rest[0]);
    }
    sent := [first] + rest;
    assert sent[1..] == rest;
    assert RequestsVia(lib, host, h, now, p, q, sent);
  }

  /** A cleanup is possible for this node in this world. */
  ghost predicate MayCleanUp(swap: Swap, lib: MathLib, w: World, host: nat) {
    exists sent, delivered, w' :: Next(swap, lib, w, Cleanup(host, sent, delivered), w')
  }

  lemma {:induction false} MayCleanUpIff(swap: Swap, lib: MathLib, w: World, host: nat)
    requires WorldInv(w) && host in w.hosts
    ensures MayCleanUp(swap, lib, w, host) <==> w.clock - w.hosts[host].lastCleanup > w.hosts[host].cfg.timeout
  {
    if w.clock - w.hosts[host].lastCleanup > w.hosts[host].cfg.timeout {
      var h := w.hosts[host];
      var h' := CleanedExists(h, w.clock);
      ExpiryKeepsTheNew(h, w.clock, h');
      var sent := RequestsExist(lib, host, h', w.clock);
      var w' := CleansUp(swap, lib, w, host, h', sent, Delivery(h', w.clock));
    }
  }

  lemma {:induction false} CleansUp(swap: Swap, lib: MathLib, w: World, host: nat, h': HostState, sent: seq<Packet>,
                                    delivered: Option<Dispatch>) returns (w': World)
    requires host in w.hosts && w.clock - w.hosts[host].lastCleanup > w.hosts[host].cfg.timeout
    requires CleanupStep(lib, host, w.hosts[host], w.clock, h', sent, delivered)
    ensures Next(swap, lib, w, Cleanup(host, sent, delivered), w')
  {
    w' := w.(hosts := w.hosts[host := h'], net := w.net + multiset(sent));
  }

  /** In every run: when a node has last cleaned up at world `i`, it may do so again at world `j`
      exactly if more than its timeout has passed. */
  lemma {:induction false} NextCleanupIff(swap: Swap, lib: MathLib, ws: seq<World>, steps: seq<Step>, i: nat, j: nat,
                                          host: nat)
    requires Run(swap, lib, ws, steps) && i < j < |ws|
    requires (steps[i].Cleanup? || steps[i].Join?) && steps[i].host == host && NoCleanup(steps, i + 1, j, host)
    ensures host in ws[j].hosts
    ensures MayCleanUp(swap, lib, ws[j], host) <==> ws[j].clock - ws[i].clock > ws[j].hosts[host].cfg.timeout
  {
    assert Next(swap, lib, ws[i], steps[i], ws[i + 1]);
    StepSetsTime(swap, lib, ws[i], steps[i], ws[i + 1], host);
    TimeStands(swap, lib, ws, steps, i + 1, j, host);
    RunInvariant(swap, lib, ws, steps, j);
    MayCleanUpIff(swap, lib, ws[j], host);
  }

  /** In every run: when a node may clean up, it may ask any entry left in its random table and any
      eligible one left in its important table. */
  lemma {:induction false} AnyPeerInRun(swap: Swap, lib: MathLib, ws: seq<World>, steps: seq<Step>, i: nat, host: nat,
                                        h': HostState, n: Node, r: int) returns (s: Step, w': World)
    requires Run(swap, lib, ws, steps) && i < |ws| && MayCleanUp(swap, lib, ws[i], host)
    requires host in ws[i].hosts && Cleaned(ws[i].hosts[host], ws[i].clock, h') && n in h'.rn && Eligible(h'.im, r)
    ensures Next(swap, lib, ws[i], s, w') && s.Cleanup? && s.host == host
    ensures |s.sent| == 2 && GoesTo(s.sent[0], n) && GoesTo(s.sent[1], h'.im[r])
  {
    RunInvariant(swap, lib, ws, steps, i);
    MayCleanUpIff(swap, lib, ws[i], host);
    var sent, delivered := AnyPeerMayBeAsked(lib, host, ws[i].hosts[host], ws[i].clock, h', n, r);
    w' := CleansUp(swap, lib, ws[i], host, h', sent, delivered);
    s := Cleanup(host, sent, delivered);
  }
}
