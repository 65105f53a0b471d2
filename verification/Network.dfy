/** Any number of nodes and a bag of datagrams in flight, which may be lost, duplicated, reordered
    and handed to any node. One global clock that only moves forward. */
module Network {
  import opened Collections
  import opened Records
  import opened Dedup
  import opened Geometry
  import opened Steps
  import opened HostLaws

  datatype World = World(clock: U32, hosts: map<nat, HostState>, net: multiset<Packet>)

  datatype Step =
    | Tick(now: U32)
    | Join(host: nat, cfg: Config)
    | Receive(host: nat, pkt: Packet, sent: seq<Packet>)
    | Local(host: nat, lr: LocalRequest)
    | Cleanup(host: nat, sent: seq<Packet>, delivered: Option<Dispatch>)
    | Lose(lost: Packet)
    | Duplicate(copied: Packet)

  /** Unpacking leaves the cached utilities of the received records undefined. */
  ghost predicate Received(swap: Swap, lib: MathLib, host: nat, h: HostState, now: U32, pkt: Packet, nc: seq<Node>,
                           h': HostState, sent: seq<Packet>)
  {
    SameWire(nc, pkt.nodes) && ReceiveStep(swap, lib, host, h, now, pkt.ptype, nc, h', sent)
  }

  ghost predicate Next(swap: Swap, lib: MathLib, w: World, s: Step, w': World) {
    match s
    case Tick(now) => w.clock <= now && w' == w.(clock := now)
    case Join(host, cfg) =>
      host !in w.hosts && cfg.Sound() && w' == w.(hosts := w.hosts[host := Initial(cfg, w.clock)])
    case Receive(host, pkt, sent) =>
      && host in w.hosts && pkt in w.net
      && (exists nc, h' :: Received(swap, lib, host, w.hosts[host], w.clock, pkt, nc, h', sent)
                           && w' == w.(hosts := w.hosts[host := h'], net := w.net - multiset{pkt} + multiset(sent)))
    case Local(host, lr) =>
      host in w.hosts && w' == w.(hosts := w.hosts[host := Handled(w.hosts[host], lr)])
    case Cleanup(host, sent, delivered) =>
      && host in w.hosts && CleanupDue(w.hosts[host], w.clock)
      && (exists h' :: CleanupStep(lib, host, w.hosts[host], w.clock, h', sent, delivered)
                       && w' == w.(hosts := w.hosts[host := h'], net := w.net + multiset(sent)))
    case Lose(pkt) => pkt in w.net && w' == w.(net := w.net - multiset{pkt})
    case Duplicate(pkt) => pkt in w.net && w' == w.(net := w.net + multiset{pkt})
  }

  ghost predicate Start(w: World) {
    && w.net == multiset{}
    && (forall host :: host in w.hosts ==>
          exists cfg: Config :: cfg.Sound() && w.hosts[host] == Initial(cfg, w.clock))
  }

  /** A finite run: the worlds passed through and the steps between them. */
  ghost predicate Run(swap: Swap, lib: MathLib, ws: seq<World>, steps: seq<Step>) {
    && |ws| == |steps| + 1
    && Start(ws[0])
    && forall i :: 0 <= i < |steps| ==> Next(swap, lib, ws[i], steps[i], ws[i + 1])
  }

  // ----- The invariant of every run -----

  ghost predicate PacketInv(w: World, p: Packet) {
    p.from in w.hosts && PacketShape(p.from, w.hosts[p.from].cfg, p)
  }

  ghost predicate WorldInv(w: World) {
    && (forall host :: host in w.hosts ==> HostInv(w.hosts[host]))
    && (forall p :: p in w.net ==> PacketInv(w, p))
  }

  lemma {:induction false} SameWireLive(s: seq<Node>, t: seq<Node>)
    requires SameWire(s, t) && AllLive(t)
    ensures AllLive(s)
  {
    forall i | 0 <= i < |s|
      ensures s[i].nodeID != 0
    {
      assert s[i].Wire().nodeID == t[i].Wire().nodeID;
    }
  }

  /** A node may change its position and range; nothing else about its configuration changes, and
      the shape of its messages does not depend on those. */
  lemma {:induction false} ShapeIgnoresMoves(host: nat, c: Config, c': Config, p: Packet)
    requires PacketShape(host, c, p) && c.Fixed() == c'.Fixed()
    ensures PacketShape(host, c', p)
  {
    SameFixed(c, c', 0);
  }

  /** One node reacts, the others stand still. */
  lemma {:induction false} ReactionKeeps(w: World, host: nat, h': HostState, net': multiset<Packet>)
    requires WorldInv(w) && host in w.hosts && HostInv(h') && h'.cfg.Fixed() == w.hosts[host].cfg.Fixed()
    requires forall p :: p in net' ==> p in w.net || PacketShape(host, w.hosts[host].cfg, p)
    ensures WorldInv(w.(hosts := w.hosts[host := h'], net := net'))
  {
    var w' := w.(hosts := w.hosts[host := h'], net := net');
    forall p | p in net'
      ensures PacketInv(w', p)
    {
      if p in w.net {
        assert PacketInv(w, p);
      }
      if p.from == host {
        ShapeIgnoresMoves(host, w.hosts[host].cfg, h'.cfg, p);
      }
    }
  }

  ghost predicate Advances(w: World, w': World) {
    && w.clock <= w'.clock
    && forall host :: host in w.hosts ==>
         && host in w'.hosts
         && w'.hosts[host].cfg.Fixed() == w.hosts[host].cfg.Fixed()
         && w'.hosts[host].imMax >= w.hosts[host].imMax
  }

  lemma {:induction false} ReceiveKeepsWorld(swap: Swap, lib: MathLib, w: World, host: nat, pkt: Packet,
                                             sent: seq<Packet>, nc: seq<Node>, h': HostState, w': World)
    requires WorldInv(w) && host in w.hosts && pkt in w.net
    requires Received(swap, lib, host, w.hosts[host], w.clock, pkt, nc, h', sent)
    requires w' == w.(hosts := w.hosts[host := h'], net := w.net - multiset{pkt} + multiset(sent))
    ensures WorldInv(w') && Advances(w, w')
  {
    assert PacketInv(w, pkt);
    ReceptionKeeps(swap, lib, host, w.hosts[host], w.clock, pkt, nc, h', sent);
    ReactionKeeps(w, host, h', w'.net);
  }

  lemma {:induction false} ReceptionKeeps(swap: Swap, lib: MathLib, host: nat, h: HostState, now: U32, pkt: Packet,
                                          nc: seq<Node>, h': HostState, sent: seq<Packet>)
    requires HostInv(h) && AllLive(pkt.nodes) && Received(swap, lib, host, h, now, pkt, nc, h', sent)
    ensures HostInv(h') && h'.cfg == h.cfg && h'.imMax >= h.imMax
    ensures forall p :: p in sent ==> PacketShape(host, h.cfg, p)
  {
    SameWireLive(nc, pkt.nodes);
    ReceiveKeeps(swap, lib, host, h, now, pkt.ptype, nc, h', sent);
    RepliesShaped(swap, lib, host, h, now, pkt.ptype, nc, h', sent);
  }

  lemma {:induction false} CleanupKeepsWorld(lib: MathLib, w: World, host: nat, sent: seq<Packet>,
                                             delivered: Option<Dispatch>, h': HostState, w': World)
    requires WorldInv(w) && host in w.hosts
    requires CleanupStep(lib, host, w.hosts[host], w.clock, h', sent, delivered)
    requires w' == w.(hosts := w.hosts[host := h'], net := w.net + multiset(sent))
    ensures WorldInv(w') && Advances(w, w')
  {
    CleanupKeeps(lib, host, w.hosts[host], w.clock, h', sent, delivered);
    forall p | p in w'.net
      ensures p in w.net || PacketShape(host, w.hosts[host].cfg, p)
    {
      assert p in w.net || p in sent;
    }
    ReactionKeeps(w, host, h', w'.net);
  }

  lemma {:induction false} LocalKeepsWorld(w: World, host: nat, lr: LocalRequest, w': World)
    requires WorldInv(w) && host in w.hosts
    requires w' == w.(hosts := w.hosts[host := Handled(w.hosts[host], lr)])
    ensures WorldInv(w') && Advances(w, w')
  {
    HandledInv(w.hosts[host], lr);
    ReactionKeeps(w, host, Handled(w.hosts[host], lr), w.net);
  }

  lemma {:induction false} JoinKeepsWorld(w: World, host: nat, cfg: Config, w': World)
    requires WorldInv(w) && host !in w.hosts && cfg.Sound()
    requires w' == w.(hosts := w.hosts[host := Initial(cfg, w.clock)])
    ensures WorldInv(w') && Advances(w, w')
  {
    InitialInv(cfg, w.clock);
    forall p | p in w'.net
      ensures PacketInv(w', p)
    {
      assert PacketInv(w, p);
    }
  }

  lemma {:induction false} NextKeepsInv(swap: Swap, lib: MathLib, w: World, s: Step, w': World)
    requires WorldInv(w) && Next(swap, lib, w, s, w')
    ensures WorldInv(w') && Advances(w, w')
  {
    match s {
      case Receive(host, pkt, sent) =>
        var nc, h' := ReceiveOf(swap, lib, w, s, w');
        ReceiveKeepsWorld(swap, lib, w, host, pkt, sent, nc, h', w');
      case Cleanup(host, sent, delivered) =>
        var h' := CleanupOf(swap, lib, w, s, w');
        CleanupKeepsWorld(lib, w, host, sent, delivered, h', w');
      case _ =>
        QuietStepKeepsInv(swap, lib, w, s, w');
    }
  }

  lemma {:induction false} QuietStepKeepsInv(swap: Swap, lib: MathLib, w: World, s: Step, w': World)
    requires WorldInv(w) && Next(swap, lib, w, s, w') && !s.Receive? && !s.Cleanup?
    ensures WorldInv(w') && Advances(w, w')
  {
    match s {
      case Local(host, lr) =>
        LocalKeepsWorld(w, host, lr, w');
      case Join(host, cfg) =>
        JoinKeepsWorld(w, host, cfg, w');
      case Tick(now) =>
        TrafficKeepsWorld(w, now, w.net, w');
      case Lose(pkt) =>
        TrafficKeepsWorld(w, w.clock, w.net - multiset{pkt}, w');
      case Duplicate(pkt) =>
        TrafficKeepsWorld(w, w.clock, w.net + multiset{pkt}, w');
    }
  }

  /** No node reacts, and no new datagram appears. */
  lemma {:induction false} TrafficKeepsWorld(w: World, clock': U32, net': multiset<Packet>, w': World)
    requires WorldInv(w) && w.clock <= clock' && w' == w.(clock := clock', net := net')
    requires forall p :: p in net' ==> p in w.net
    ensures WorldInv(w') && Advances(w, w')
  {
    forall p | p in w'.net
      ensures PacketInv(w', p)
    {
      assert PacketInv(w, p);
    }
  }

  lemma {:induction false} StartInv(w: World)
    requires Start(w)
    ensures WorldInv(w)
  {
    forall host | host in w.hosts
      ensures HostInv(w.hosts[host])
    {
      var cfg: Config :| cfg.Sound() && w.hosts[host] == Initial(cfg, w.clock);
      InitialInv(cfg, w.clock);
    }
  }

  lemma {:induction false} StepKeepsInv(swap: Swap, lib: MathLib, ws: seq<World>, steps: seq<Step>, i: nat)
    requires Run(swap, lib, ws, steps) && i < |steps| && WorldInv(ws[i])
    ensures WorldInv(ws[i + 1]) && Advances(ws[i], ws[i + 1])
  {
    NextKeepsInv(swap, lib, ws[i], steps[i], ws[i + 1]);
  }

  /** In every run both tables of every node always satisfy the table invariant, and every datagram
      in flight has the promised shape. */
  lemma {:induction false} RunInvariant(swap: Swap, lib: MathLib, ws: seq<World>, steps: seq<Step>, i: nat)
    requires Run(swap, lib, ws, steps) && i < |ws|
    ensures WorldInv(ws[i])
    decreases i
  {
    if i == 0 {
      StartInv(ws[0]);
    } else {
      var k := i - 1;
      RunInvariant(swap, lib, ws, steps, k);
      StepKeepsInv(swap, lib, ws, steps, k);
      assert ws[k + 1] == ws[i];
    }
  }

  lemma {:induction false} RunStep(swap: Swap, lib: MathLib, ws: seq<World>, steps: seq<Step>, i: nat)
    requires Run(swap, lib, ws, steps) && i < |steps|
    ensures WorldInv(ws[i]) && WorldInv(ws[i + 1])
    ensures Next(swap, lib, ws[i], steps[i], ws[i + 1])
    ensures Advances(ws[i], ws[i + 1])
  {
    RunInvariant(swap, lib, ws, steps, i);
    StepKeepsInv(swap, lib, ws, steps, i);
  }

  lemma {:induction false} AdvancesTransitive(a: World, b: World, c: World)
    requires Advances(a, b) && Advances(b, c)
    ensures Advances(a, c)
  {
  }

  lemma {:induction false} AdvancesAlong(ws: seq<World>, i: nat, j: nat)
    requires i <= j < |ws|
    requires forall k :: 0 <= k < |ws| - 1 ==> Advances(ws[k], ws[k + 1])
    ensures Advances(ws[i], ws[j])
    decreases j
  {
    if i < j {
      var k := j - 1;
      AdvancesAlong(ws, i, k);
      assert Advances(ws[k], ws[k + 1]);
      AdvancesTransitive(ws[i], ws[k], ws[j]);
    }
  }

  /** Along every run the clock never goes back, no node disappears or changes what is fixed in
      its configuration, and no important table ever shrinks its capacity. */
  lemma {:induction false} RunAdvances(swap: Swap, lib: MathLib, ws: seq<World>, steps: seq<Step>, i: nat, j: nat)
    requires Run(swap, lib, ws, steps) && i <= j < |ws|
    ensures Advances(ws[i], ws[j])
  {
    forall k | 0 <= k < |ws| - 1
      ensures Advances(ws[k], ws[k + 1])
    {
      RunInvariant(swap, lib, ws, steps, k);
      StepKeepsInv(swap, lib, ws, steps, k);
    }
    AdvancesAlong(ws, i, j);
  }

  /** At every cleanup of every run the node contacts its peers as described by RequestsToPeers:
      bootstrap exactly when the random table is empty after the expiry, and never itself. */
  lemma {:induction false} CleanupContactsPeers(swap: Swap, lib: MathLib, ws: seq<World>, steps: seq<Step>, i: nat)
    requires Run(swap, lib, ws, steps) && i < |steps| && steps[i].Cleanup?
    ensures steps[i].host in ws[i + 1].hosts
    ensures RequestsToPeers(lib, steps[i].host, ws[i + 1].hosts[steps[i].host], ws[i].clock, steps[i].sent)
  {
    RunStep(swap, lib, ws, steps, i);
    var _ := CleanupOf(swap, lib, ws[i], steps[i], ws[i + 1]);
    CleanupKeeps(lib, steps[i].host, ws[i].hosts[steps[i].host], ws[i].clock, ws[i + 1].hosts[steps[i].host],
                 steps[i].sent, steps[i].delivered);
  }

  lemma {:induction false} CleanupOf(swap: Swap, lib: MathLib, w: World, s: Step, w': World) returns (h': HostState)
    requires Next(swap, lib, w, s, w') && s.Cleanup?
    ensures s.host in w.hosts && s.host in w'.hosts && h' == w'.hosts[s.host]
    ensures CleanupStep(lib, s.host, w.hosts[s.host], w.clock, h', s.sent, s.delivered)
    ensures w' == w.(hosts := w.hosts[s.host := h'], net := w.net + multiset(s.sent))
  {
    h' :| CleanupStep(lib, s.host, w.hosts[s.host], w.clock, h', s.sent, s.delivered)
          && w' == w.(hosts := w.hosts[s.host := h'], net := w.net + multiset(s.sent));
  }

  lemma {:induction false} ReceiveOf(swap: Swap, lib: MathLib, w: World, s: Step, w': World)
    returns (nc: seq<Node>, h': HostState)
    requires Next(swap, lib, w, s, w') && s.Receive?
    ensures s.host in w.hosts && s.host in w'.hosts && h' == w'.hosts[s.host] && s.pkt in w.net
    ensures Received(swap, lib, s.host, w.hosts[s.host], w.clock, s.pkt, nc, h', s.sent)
    ensures w' == w.(hosts := w.hosts[s.host := h'], net := w.net - multiset{s.pkt} + multiset(s.sent))
  {
    nc, h' :| Received(swap, lib, s.host, w.hosts[s.host], w.clock, s.pkt, nc, h', s.sent)
              && w' == w.(hosts := w.hosts[s.host := h'], net := w.net - multiset{s.pkt} + multiset(s.sent));
  }

  /** A step in which a node neither receives nor cleans up leaves its tables alone. */
  lemma {:induction false} SameTables(swap: Swap, lib: MathLib, w: World, s: Step, w': World, host: nat)
    requires Next(swap, lib, w, s, w') && host in w.hosts
    requires !(s.Receive? && s.host == host) && !(s.Cleanup? && s.host == host)
    ensures host in w'.hosts
    ensures w'.hosts[host].rn == w.hosts[host].rn && w'.hosts[host].im == w.hosts[host].im
    ensures !(s.Local? && s.host == host) ==> w'.hosts[host] == w.hosts[host]
    ensures s.Local? && s.host == host ==> w'.hosts[host] == Handled(w.hosts[host], s.lr)
  {
    match s {
      case Receive(_, _, _) => var _, _ := ReceiveOf(swap, lib, w, s, w');
      case Cleanup(_, _, _) => var _ := CleanupOf(swap, lib, w, s, w');
      case _ =>
    }
  }
}
