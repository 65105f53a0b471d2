/** What the messages of random nodes leave out. The comment on Protocol_sendRandomNodes says that
    it copies the table; as coded the last entry stays behind. */
module RandomMessages {
  import opened Collections
  import opened Records
  import opened Sorting
  import opened Dedup
  import opened Geometry
  import opened Merging
  import opened Steps
  import opened HostLaws
  import opened Network

  /** A message names an entry of the table exactly if it is not the last one. */
  lemma {:induction false} MessageNamesIff(own: Node, rn: seq<Node>, n: Node)
    requires TableInv(own.nodeID, rn) && n in rn
    ensures HasID(OnWire(RandomMessage(own, rn)), n.nodeID) <==> n != rn[|rn| - 1]
  {
    var last, msg := |rn| - 1, RandomMessage(own, rn);
    var i :| 0 <= i < |rn| && rn[i] == n;
    assert forall j :: 1 <= j < |msg| ==> msg[j] == rn[j - 1];
    if i < last {
      assert OnWire(msg)[i + 1].nodeID == n.nodeID;
    }
    if HasID(OnWire(msg), n.nodeID) {
      var j :| 0 <= j < |msg| && OnWire(msg)[j].nodeID == n.nodeID;
      assert msg[j].nodeID == n.nodeID;
      assert j > 0 && rn[j - 1].nodeID == rn[i].nodeID;
    }
  }

  /** So the message names the whole table, as the comment promises, only if there is none. */
  lemma {:induction false} MessageCopiesTableIff(own: Node, rn: seq<Node>)
    requires TableInv(own.nodeID, rn)
    ensures (forall n :: n in rn ==> HasID(OnWire(RandomMessage(own, rn)), n.nodeID)) <==> rn == []
  {
    if rn != [] {
      var last := rn[|rn| - 1];
      assert last in rn;
      MessageNamesIff(own, rn, last);
    }
  }

  lemma {:induction false} LastIsSmallest(rn: seq<Node>, n: Node)
    requires DistinctIDs(rn) && Descending(ByNodeID, rn) && n in rn
    ensures n != rn[|rn| - 1] <==> exists m :: m in rn && m.nodeID < n.nodeID
  {
    var i :| 0 <= i < |rn| && rn[i] == n;
    var last := rn[|rn| - 1];
    if i < |rn| - 1 {
      assert Rank(ByNodeID, rn[i]) >= Rank(ByNodeID, last);
      assert last in rn && last.nodeID < n.nodeID;
    } else {
      forall m | m in rn
        ensures m.nodeID >= n.nodeID
      {
        var j :| 0 <= j < |rn| && rn[j] == m;
        assert j < i ==> Rank(ByNodeID, rn[j]) >= Rank(ByNodeID, rn[i]);
      }
    }
  }

  /** The expiry leaves the random table in the order of IDs, so the request of a cleanup never
      names the smallest ID of the table, and names all others. */
  lemma {:induction false} CleanupOmitsSmallest(lib: MathLib, host: nat, h: HostState, now: U32, h': HostState,
                                                sent: seq<Packet>, delivered: Option<Dispatch>, n: Node)
    requires HostInv(h) && CleanupStep(lib, host, h, now, h', sent, delivered) && n in h'.rn
    ensures sent != [] && sent[0].ptype == RND_REQ
    ensures HasID(sent[0].nodes, n.nodeID) <==> exists m :: m in h'.rn && m.nodeID < n.nodeID
  {
    CleanupKeeps(lib, host, h, now, h', sent, delivered);
    var peer :| peer in h'.rn && peer.nodeID != h'.cfg.id && sent[0] == RandomPacket(host, h', now, RND_REQ, peer);
    MessageNamesIff(OwnNode(h'.cfg, now), h'.rn, n);
    LastIsSmallest(h'.rn, n);
  }

  /** At every cleanup of every run the request names every entry left in the random table but the
      one with the smallest ID. */
  lemma {:induction false} CleanupsOmitSmallest(swap: Swap, lib: MathLib, ws: seq<World>, steps: seq<Step>, i: nat,
                                                n: Node)
    requires Run(swap, lib, ws, steps) && i < |steps| && steps[i].Cleanup?
    requires steps[i].host in ws[i + 1].hosts && n in ws[i + 1].hosts[steps[i].host].rn
    ensures steps[i].sent != [] && steps[i].sent[0].ptype == RND_REQ
    ensures HasID(steps[i].sent[0].nodes, n.nodeID)
       <==> exists m :: m in ws[i + 1].hosts[steps[i].host].rn && m.nodeID < n.nodeID
  {
    RunInvariant(swap, lib, ws, steps, i);
    var s := steps[i];
    var h' := CleanupOf(swap, lib, ws[i], s, ws[i + 1]);
    CleanupOmitsSmallest(lib, s.host, ws[i].hosts[s.host], ws[i].clock, h', s.sent, s.delivered, n);
  }

  /** In every run the reply to a random request names every entry of the random table but the last
      one. */
  lemma {:induction false} RepliesOmitLast(swap: Swap, lib: MathLib, ws: seq<World>, steps: seq<Step>, i: nat, n: Node)
    requires Run(swap, lib, ws, steps) && i < |steps| && steps[i].Receive? && steps[i].pkt.ptype == RND_REQ
    requires steps[i].host in ws[i].hosts && n in ws[i].hosts[steps[i].host].rn
    ensures |steps[i].sent| == 1 && steps[i].sent[0].ptype == RND_NOREQ
    ensures var rn := ws[i].hosts[steps[i].host].rn;
            HasID(steps[i].sent[0].nodes, n.nodeID) <==> n != rn[|rn| - 1]
  {
    RunInvariant(swap, lib, ws, steps, i);
    var s := steps[i];
    var h := ws[i].hosts[s.host];
    var nc, h' := ReceiveOf(swap, lib, ws[i], s, ws[i + 1]);
    ReceiveReplies(swap, lib, s.host, h, ws[i].clock, s.pkt.ptype, nc, h', s.sent);
    MessageNamesIff(OwnNode(h.cfg, ws[i].clock), h.rn, n);
  }
}
