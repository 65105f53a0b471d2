/** What the subscribers are sent, over whole runs. */
module Delivery {
  import opened Records
  import opened Sorting
  import opened Dedup
  import opened Geometry
  import opened HostLaws
  import opened Network
  import opened CachedUtility
  import opened Updates

  /** In every run, each list delivered by a cleanup is the own record followed by exactly the
      unexpired candidates of the important table, most useful first, with distinct IDs. */
  lemma {:induction false} SubscribersGetTheCandidates(swap: Swap, lib: MathLib, ws: seq<World>, steps: seq<Step>,
                                                       i: nat)
    requires Run(swap, lib, ws, steps) && i < |steps| && steps[i].Cleanup? && steps[i].delivered.Some?
    requires steps[i].host in ws[i].hosts
    ensures var h, list := ws[i].hosts[steps[i].host], steps[i].delivered.value.nodes;
            && h.subs != []
            && list != [] && list[0] == OwnNode(h.cfg, ws[i].clock)
            && (forall n :: n in list[1..] <==>
                  n in h.im && n.timeStamp > ws[i].clock - h.cfg.nodeMaxAge && n.utility >= 1.0)
            && Descending(ByUtility, list[1..]) && DistinctIDs(list)
  {
    RunInvariant(swap, lib, ws, steps, i);
    var h' := CleanupOf(swap, lib, ws[i], steps[i], ws[i + 1]);
    DeliveredList(lib, steps[i].host, ws[i].hosts[steps[i].host], ws[i].clock, h', steps[i].sent,
                  steps[i].delivered.value);
  }

  /** Is the node within the two coordination ranges of a node with this configuration? */
  predicate InRange(lib: MathLib, cfg: Config, n: Node) {
    Distance(lib, InternalNode(cfg, 0), n) <= (cfg.coordRange + n.coordRange) as real
  }

  lemma {:induction false} CandidateIsInRange(lib: MathLib, cfg: Config, n: Node)
    requires lib.Lawful() && ScoredFor(lib, cfg, n)
    ensures n.utility >= 1.0 <==> InRange(lib, cfg, n)
  {
    CandidateIffInRange(lib, InternalNode(cfg, 0), n);
  }

  /** For a node that stands still, each list is its own record followed by exactly the unexpired
      important nodes whose distance is at most the sum of the two coordination ranges. */
  lemma {:induction false} SubscribersGetTheNodesInRange(swap: Swap, lib: MathLib, ws: seq<World>, steps: seq<Step>,
                                                         i: nat)
    requires lib.Lawful() && Run(swap, lib, ws, steps) && i < |steps|
    requires steps[i].Cleanup? && steps[i].delivered.Some? && steps[i].host in ws[i].hosts
    requires StandsStill(steps, i, steps[i].host)
    ensures var h, list := ws[i].hosts[steps[i].host], steps[i].delivered.value.nodes;
            && list != [] && list[0] == OwnNode(h.cfg, ws[i].clock)
            && (forall n :: n in list[1..] <==>
                  n in h.im && n.timeStamp > ws[i].clock - h.cfg.nodeMaxAge && InRange(lib, h.cfg, n))
  {
    var h := ws[i].hosts[steps[i].host];
    SubscribersGetTheCandidates(swap, lib, ws, steps, i);
    CachedUtilityAgrees(swap, lib, ws, steps, i, steps[i].host);
    forall n | n in h.im
      ensures n.utility >= 1.0 <==> InRange(lib, h.cfg, n)
    {
      CandidateIsInRange(lib, h.cfg, n);
    }
  }

  /** Is the great-circle distance of the record from the place of this configuration at most the sum
      of the two coordination ranges? */
  ghost predicate Nearby(lib: MathLib, h: real, cfg: Config, n: Node) {
    exists d :: GreatCircle(lib, h, cfg.lat, cfg.lon, n.lat, n.lon, d) && d <= (cfg.coordRange + n.coordRange) as real
  }

  lemma {:induction false} NearbyIffInRange(lib: MathLib, h: real, cfg: Config, n: Node)
    requires lib.Lawful() && lib.Differences() && lib.Arcs(h)
    ensures Nearby(lib, h, cfg, n) <==> InRange(lib, cfg, n)
  {
    var e := Distance(lib, InternalNode(cfg, 0), n);
    DistanceIsGreatCircle(lib, h, cfg.lat, cfg.lon, n.lat, n.lon, e);
    forall d | GreatCircle(lib, h, cfg.lat, cfg.lon, n.lat, n.lon, d)
      ensures d == e
    {
      DistanceIsGreatCircle(lib, h, cfg.lat, cfg.lon, n.lat, n.lon, d);
    }
  }

  /** For a node that stands still, each list is its own record followed by exactly the unexpired
      important nodes whose great-circle distance is at most the sum of the two ranges. */
  lemma {:induction false} SubscribersGetTheNodesNearby(swap: Swap, lib: MathLib, h: real, ws: seq<World>,
                                                        steps: seq<Step>, i: nat)
    requires lib.Lawful() && lib.Differences() && lib.Arcs(h) && Run(swap, lib, ws, steps) && i < |steps|
    requires steps[i].Cleanup? && steps[i].delivered.Some? && steps[i].host in ws[i].hosts
    requires StandsStill(steps, i, steps[i].host)
    ensures var s, list := ws[i].hosts[steps[i].host], steps[i].delivered.value.nodes;
            && list != []
            && (forall n :: n in list[1..] <==>
                  n in s.im && n.timeStamp > ws[i].clock - s.cfg.nodeMaxAge && Nearby(lib, h, s.cfg, n))
  {
    var s := ws[i].hosts[steps[i].host];
    SubscribersGetTheNodesInRange(swap, lib, ws, steps, i);
    forall n: Node
      ensures Nearby(lib, h, s.cfg, n) <==> InRange(lib, s.cfg, n)
    {
      NearbyIffInRange(lib, h, s.cfg, n);
    }
  }

  /** For a node that stands still the utility cached with an entry at great-circle distance `d` is
      the square of the sum of the ranges over the square of `d`, or the largest double. */
  lemma {:induction false} CachedUtilityIsRatio(swap: Swap, lib: MathLib, h: real, ws: seq<World>, steps: seq<Step>,
                                                i: nat, host: nat, n: Node, d: real)
    requires lib.Lawful() && lib.Differences() && lib.Arcs(h)
    requires Run(swap, lib, ws, steps) && i < |ws| && host in ws[i].hosts && StandsStill(steps, i, host)
    requires n in ws[i].hosts[host].rn || n in ws[i].hosts[host].im
    requires var c := ws[i].hosts[host].cfg; GreatCircle(lib, h, c.lat, c.lon, n.lat, n.lon, d)
    ensures var c := ws[i].hosts[host].cfg;
            IsRatio((c.coordRange + n.coordRange) as real, d, n.utility)
  {
    CachedUtilityAgrees(swap, lib, ws, steps, i, host);
    CurrentIsRatio(lib, h, ws[i].hosts[host].cfg, n, d);
  }

  lemma {:induction false} CurrentIsRatio(lib: MathLib, h: real, c: Config, n: Node, d: real)
    requires lib.Lawful() && lib.Differences() && lib.Arcs(h)
    requires ScoredFor(lib, c, n) && GreatCircle(lib, h, c.lat, c.lon, n.lat, n.lon, d)
    ensures IsRatio((c.coordRange + n.coordRange) as real, d, n.utility)
  {
    UtilityIsRatio(lib, h, InternalNode(c, 0), n, d);
  }

  /** Wherever the node has moved, whatever it delivers was in range of some place it has been. */
  lemma {:induction false} DeliveredWereInRange(swap: Swap, lib: MathLib, ws: seq<World>, steps: seq<Step>, i: nat,
                                                n: Node) returns (j: nat)
    requires lib.Lawful() && Run(swap, lib, ws, steps) && i < |steps|
    requires steps[i].Cleanup? && steps[i].delivered.Some? && steps[i].host in ws[i].hosts
    requires steps[i].delivered.value.nodes != [] && n in steps[i].delivered.value.nodes[1..]
    ensures j <= i && steps[i].host in ws[j].hosts && InRange(lib, ws[j].hosts[steps[i].host].cfg, n)
  {
    SubscribersGetTheCandidates(swap, lib, ws, steps, i);
    j := CachedUtilityOrigin(swap, lib, ws, steps, i, steps[i].host, n);
    CandidateIsInRange(lib, ws[j].hosts[steps[i].host].cfg, n);
  }
}
