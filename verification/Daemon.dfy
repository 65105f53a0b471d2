/** The running node: the protocol functions of protocol.c, the local interface of io.c and one
    turn of the main loop, on collections edited in place. Sends are returned; the time and the
    received collection are arguments. */
module Daemon {
  import opened Collections
  import opened Records
  import opened Sorting
  import opened Dedup
  import opened Geometry
  import opened TableSpec
  import opened Merging
  import opened NodeTable
  import opened Subscribers
  import opened Steps

  lemma {:induction false} AppendedLive(a: seq<Node>, capacity: int, b: seq<Node>, ignore: U32)
    requires |a| <= capacity && AllLive(a) && AllLive(b)
    ensures AllLive(Appended(a, capacity, b, ignore))
  {
    AppendedMembers(a, capacity, b, ignore);
    var r := Appended(a, capacity, b, ignore);
    forall i | 0 <= i < |r|
      ensures r[i].nodeID != 0
    {
      assert r[i] in r;
    }
  }

  lemma {:induction false} MergedLive(own: U32, a: seq<Node>, b: seq<Node>, r: seq<Node>)
    requires AllLive(a) && AllLive(b) && Merged(own, a, b, r)
    ensures AllLive(r)
  {
    forall i | 0 <= i < |r|
      ensures r[i].nodeID != 0
    {
      assert r[i] in r;
    }
  }

  lemma {:induction false} ScoredLive(lib: MathLib, from: Node, s: seq<Node>)
    requires AllLive(s)
    ensures AllLive(Scored(lib, from, s))
  {
    assert forall i :: 0 <= i < |s| ==> Scored(lib, from, s)[i].nodeID == s[i].nodeID;
  }

  lemma {:induction false} SelectedSize(lib: MathLib, k: nat, im: seq<Node>, peer: Node, sel: seq<Node>)
    requires Selected(lib, k, im, peer, sel)
    ensures |sel| <= |im| && |sel| <= k
  {
    if |im| > k {
      var t :| SelectedVia(lib, k, im, peer, t, sel);
      SameBag(Scored(lib, peer, im), t);
    }
  }

  /** What is left after the expiry is live and no longer than before. */
  lemma {:induction false} ExpiryKeepsLive(key: SortKey, cutoff: int, s: seq<Node>, t: seq<Node>)
    requires AllLive(s) && ExpiryOf(key, cutoff, s, t)
    ensures AllLive(t) && |t| <= |s|
  {
    SameBag(Filter(Newer(cutoff), s), t);
    FilterMembers(Newer(cutoff), s);
    FilterSize(Newer(cutoff), s);
    forall i | 0 <= i < |t|
      ensures t[i].nodeID != 0
    {
      assert t[i] in t;
    }
  }

  /** What select may report, and the event the node then handles. */
  datatype Event = FromPeer(nc: NodeCollection) | FromLocal(lr: LocalRequest) | Nothing

  class Peer {
    const swap: Swap
    const lib: MathLib
    const host: nat
    const importantNodes: NodeCollection
    const randomNodes: NodeCollection
    const subs: SubscriberList
    var config: Config
    var lastCleanup: int

    ghost predicate Valid()
      reads this, importantNodes, importantNodes.nodes, randomNodes, randomNodes.nodes, subs
    {
      && importantNodes != randomNodes && importantNodes.nodes != randomNodes.nodes
      && importantNodes.Valid() && randomNodes.Valid()
      && subs.Valid() && subs.maxNumSubs == MAX_NUM_SUBSCRIBERS
      && config.Sound()
      && randomNodes.maxNodeCount == 2 * config.n && randomNodes.nodeCount <= config.n
      && importantNodes.nodeCount + config.k <= importantNodes.maxNodeCount < config.k + 0xffff
      && AllLive(randomNodes.Contents()) && AllLive(importantNodes.Contents())
    }

    ghost function State(): HostState
      reads this, importantNodes, importantNodes.nodes, randomNodes, randomNodes.nodes, subs, subs.subscribers
      requires Valid()
    {
      HostState(config, randomNodes.Contents(), importantNodes.Contents(), importantNodes.maxNodeCount,
                subs.Contents(), lastCleanup)
    }

    /** The set-up of main: two empty tables and an empty subscriber list. */
    constructor (swap: Swap, lib: MathLib, host: nat, config: Config, now: U32)
      requires config.Sound()
      ensures Valid() && State() == Initial(config, now)
    {
      this.swap, this.lib, this.host, this.config := swap, lib, host, config;
      importantNodes := new NodeCollection(VERSION_ID, INTERNAL, config.m + config.k);
      randomNodes := new NodeCollection(VERSION_ID, INTERNAL, config.n * 2);
      subs := new SubscriberList(MAX_NUM_SUBSCRIBERS);
      lastCleanup := now;
    }

    /** Protocol_updateRandomNodes */
    method UpdateRandomNodes(nc: NodeCollection, rn: NodeCollection)
      requires nc.Valid() && rn.Valid() && nc != rn && nc.nodes != rn.nodes
      requires AllLive(nc.Contents()) && AllLive(rn.Contents())
      modifies rn`nodeCount, rn.nodes
      ensures rn.Valid()
      ensures RandomMerge(swap, config.id, rn.maxNodeCount, old(rn.Contents()), old(nc.Contents()), rn.Contents())
    {
      AppendedLive(rn.Contents(), rn.maxNodeCount, nc.Contents(), config.id);
      rn.Append(nc, config.id);
      rn.RemoveDuplicateNodes(swap);
      ghost var d := rn.Contents();
      rn.SortBy(ByTimeStamp);
      ghost var t := rn.Contents();
      var _ := rn.RemoveExcessNodes(rn.maxNodeCount / 2);
      assert RandomMergeVia(swap, config.id, rn.maxNodeCount, old(rn.Contents()), old(nc.Contents()), d, t,
                            rn.Contents());
    }

    /** The first half of the update: append, deduplicate, sort by utility. */
    method MergeByUtility(nc: NodeCollection, im: NodeCollection) returns (ghost d: seq<Node>)
      requires nc.Valid() && im.Valid() && nc != im && nc.nodes != im.nodes
      requires AllLive(nc.Contents()) && AllLive(im.Contents())
      modifies im`nodeCount, im.nodes
      ensures im.Valid()
      ensures Deduped(swap, Appended(old(im.Contents()), im.maxNodeCount, nc.Contents(), config.id), d)
      ensures IsSort(ByUtility, d, im.Contents())
    {
      AppendedLive(im.Contents(), im.maxNodeCount, nc.Contents(), config.id);
      im.Append(nc, config.id);
      im.RemoveDuplicateNodes(swap);
      d := im.Contents();
      im.SortBy(ByUtility);
    }

    /** The second half: grow if the candidates ask for it, then cut. */
    method Resize(im: NodeCollection)
      requires im.Valid() && config.k <= im.maxNodeCount
      modifies im`nodeCount, im`maxNodeCount, im`nodes, im.nodes
      ensures im.Valid() && (im.nodes == old(im.nodes) || fresh(im.nodes))
      ensures im.maxNodeCount == Regrown(old(im.maxNodeCount), config.k, CandidateCount(old(im.Contents())))
      ensures im.maxNodeCount >= config.k
      ensures im.Contents() == Take(old(im.Contents()), im.maxNodeCount - config.k)
    {
      var candidateAmount := im.CountCandidateNodes();
      if candidateAmount > im.maxNodeCount - config.k {
        im.Grow(config.k);
      }
      if im.nodeCount > im.maxNodeCount - config.k {
        var _ := im.RemoveExcessNodes(im.maxNodeCount - config.k);
      }
    }

    /** Protocol_updateImportantNodes; the utilities are filled in on the incoming collection. */
    method UpdateImportantNodes(nc: NodeCollection, im: NodeCollection, now: U32)
      requires nc.Valid() && im.Valid() && nc != im && nc.nodes != im.nodes
      requires AllLive(nc.Contents()) && AllLive(im.Contents()) && config.k <= im.maxNodeCount
      modifies nc.nodes, im`nodeCount, im`maxNodeCount, im`nodes, im.nodes
      ensures nc.Valid() && nc.Contents() == Scored(lib, InternalNode(config, now), old(nc.Contents()))
      ensures im.Valid() && (im.nodes == old(im.nodes) || fresh(im.nodes))
      ensures ImportantMerge(swap, config.id, config.k, old(im.Contents()), old(im.maxNodeCount), nc.Contents(),
                             im.Contents(), im.maxNodeCount)
    {
      ghost var before, capacity := im.Contents(), im.maxNodeCount;
      ScoredLive(lib, InternalNode(config, now), nc.Contents());
      nc.CalculateUtility(lib, InternalNode(config, now));
      ghost var scored := nc.Contents();
      ghost var d := MergeByUtility(nc, im);
      ghost var t := im.Contents();
      Resize(im);
      assert nc.Contents() == scored;
      assert ImportantMergeVia(swap, config.id, config.k, before, capacity, scored, d, t,
                               im.Contents(), im.maxNodeCount);
    }

    /** Protocol_sendRandomNodes */
    method SendRandomNodes(rn: NodeCollection, ptype: U8, peer: Node, now: U32) returns (pkt: Packet)
      requires rn.Valid() && rn.nodeCount < 0xffff
      ensures pkt == Packet(host, peer.ipAddr, peer.port, ptype,
                            OnWire(RandomMessage(OwnNode(config, now), rn.Contents())))
    {
      var nc := RandomCollection(rn, ptype, now);
      pkt := SendToPeer(nc, peer);
    }

    /** The collection it sends. */
    method RandomCollection(rn: NodeCollection, ptype: U8, now: U32) returns (nc: NodeCollection)
      requires rn.Valid() && rn.nodeCount < 0xffff
      ensures fresh(nc) && fresh(nc.nodes) && nc.Valid() && nc.payloadType == ptype
      ensures nc.Contents() == RandomMessage(OwnNode(config, now), rn.Contents())
    {
      nc := new NodeCollection(VERSION_ID, ptype, rn.nodeCount + 1);
      nc.nodes[0] := OwnNode(config, now);
      if rn.nodeCount > 1 {
        var j := 1;
        while j < rn.nodeCount
          invariant 1 <= j <= rn.nodeCount
          invariant nc.nodes[..j] == [OwnNode(config, now)] + rn.nodes[..j - 1]
          modifies nc.nodes
        {
          nc.nodes[j] := rn.nodes[j - 1];
          j := j + 1;
        }
        assert rn.nodes[..j - 1] == rn.Contents()[..rn.nodeCount - 1];
        nc.nodeCount := rn.nodeCount;
      } else {
        nc.nodeCount := 1;
      }
    }

    /** NodeCollection_sendToPeer: packing drops the cached utilities. */
    method SendToPeer(nc: NodeCollection, peer: Node) returns (pkt: Packet)
      requires nc.Valid()
      ensures pkt == Packet(host, peer.ipAddr, peer.port, nc.payloadType, OnWire(nc.Contents()))
    {
      pkt := Packet(host, peer.ipAddr, peer.port, nc.payloadType, OnWire(nc.nodes[..nc.nodeCount]));
    }

    /** The records of the table that go to `peer`, in a collection of their own. */
    method SelectFor(im: NodeCollection, ptype: U8, peer: Node) returns (tmp: NodeCollection)
      requires im.Valid()
      ensures fresh(tmp) && fresh(tmp.nodes) && tmp.Valid()
      ensures Selected(lib, config.k, im.Contents(), peer, tmp.Contents())
    {
      tmp := CopyOf(im, ptype);
      if tmp.nodeCount > config.k {
        tmp.CalculateUtility(lib, peer);
        tmp.SortBy(ByUtility);
        ghost var t := tmp.Contents();
        var _ := tmp.RemoveExcessNodes(config.k);
        assert SelectedVia(lib, config.k, im.Contents(), peer, t, tmp.Contents());
      }
    }

    /** Protocol_sendImportantNodes */
    method SendImportantNodes(im: NodeCollection, ptype: U8, peer: Node, now: U32) returns (pkt: Packet)
      requires im.Valid() && im.nodeCount + config.k < 0x1_0000
      ensures exists sel :: Selected(lib, config.k, im.Contents(), peer, sel)
                            && pkt == Packet(host, peer.ipAddr, peer.port, ptype, OnWire([OwnNode(config, now)] + sel))
    {
      var tmp := SelectFor(im, ptype, peer);
      ghost var sel := tmp.Contents();
      SelectedSize(lib, config.k, im.Contents(), peer, sel);
      var nc := WithOwnNode(tmp, ptype, now);
      pkt := SendToPeer(nc, peer);
    }

    /** A new collection with the own record on top of `tmp`. */
    method WithOwnNode(tmp: NodeCollection, ptype: U8, now: U32) returns (nc: NodeCollection)
      requires tmp.Valid() && tmp.nodeCount < 0xffff
      ensures fresh(nc) && fresh(nc.nodes) && nc.Valid() && nc.payloadType == ptype
      ensures nc.Contents() == [OwnNode(config, now)] + tmp.Contents()
    {
      nc := new NodeCollection(VERSION_ID, ptype, tmp.nodeCount + 1);
      var j := 1;
      while j < tmp.nodeCount + 1
        invariant 1 <= j <= tmp.nodeCount + 1
        invariant nc.nodes[1..j] == tmp.nodes[..j - 1]
        modifies nc.nodes
      {
        nc.nodes[j] := tmp.nodes[j - 1];
        j := j + 1;
      }
      nc.nodes[0] := OwnNode(config, now);
      nc.nodeCount := tmp.nodeCount + 1;
    }

    method CopyOf(im: NodeCollection, ptype: U8) returns (tmp: NodeCollection)
      requires im.Valid()
      ensures fresh(tmp) && fresh(tmp.nodes) && tmp.Valid() && tmp.Contents() == im.Contents()
    {
      tmp := new NodeCollection(VERSION_ID, ptype, im.nodeCount);
      var l := 0;
      while l < im.nodeCount
        invariant 0 <= l <= im.nodeCount
        invariant tmp.nodes[..l] == im.nodes[..l]
        modifies tmp.nodes
      {
        tmp.nodes[l] := im.nodes[l];
        l := l + 1;
      }
      tmp.nodeCount := im.nodeCount;
    }

    /** Protocol_receiveFromPeer, from the unpacked collection on. */
    method ReceiveFromPeer(nc: NodeCollection, now: U32) returns (sent: seq<Packet>)
      requires Valid() && nc.Valid() && nc.nodeCount > 0 && AllLive(nc.Contents())
      requires nc != importantNodes && nc != randomNodes
      requires nc.nodes != importantNodes.nodes && nc.nodes != randomNodes.nodes
      modifies nc.nodes, randomNodes`nodeCount, randomNodes.nodes
      modifies importantNodes`nodeCount, importantNodes`maxNodeCount, importantNodes`nodes, importantNodes.nodes
      ensures Valid() && (importantNodes.nodes == old(importantNodes.nodes) || fresh(importantNodes.nodes))
      ensures ReceiveStep(swap, lib, host, old(State()), now, nc.payloadType, old(nc.Contents()), State(), sent)
    {
      sent := [];
      ghost var h := State();
      assert nc.nodes[0] == nc.Contents()[0];
      if nc.payloadType == RND_NOREQ {
        MergeRandom(nc, now);
      } else if nc.payloadType == RND_REQ {
        var pkt := SendRandomNodes(randomNodes, RND_NOREQ, nc.nodes[0], now);
        sent := [pkt];
        MergeRandom(nc, now);
      } else if nc.payloadType == IMP_NOREQ {
        MergeImportant(nc, now);
      } else if nc.payloadType == IMP_REQ {
        var pkt := SendImportantNodes(importantNodes, IMP_NOREQ, nc.nodes[0], now);
        sent := [pkt];
        MergeImportant(nc, now);
      }
    }

    /** The two updates that follow a collection of random nodes. */
    method MergeRandom(nc: NodeCollection, now: U32)
      requires Valid() && nc.Valid() && AllLive(nc.Contents())
      requires nc != importantNodes && nc != randomNodes
      requires nc.nodes != importantNodes.nodes && nc.nodes != randomNodes.nodes
      modifies randomNodes`nodeCount, randomNodes.nodes
      modifies importantNodes`nodeCount, importantNodes`maxNodeCount, importantNodes`nodes, importantNodes.nodes
      ensures Valid() && (importantNodes.nodes == old(importantNodes.nodes) || fresh(importantNodes.nodes))
      ensures exists rn1 :: RandomReceived(swap, lib, old(State()), now, old(nc.Contents()), rn1, State())
    {
      ghost var h := State();
      UpdateRandomNodes(nc, randomNodes);
      ghost var rn1 := randomNodes.Contents();
      RandomMergeKeeps(swap, config.id, 2 * config.n, h.rn, old(nc.Contents()), rn1);
      MergedLive(config.id, h.rn, old(nc.Contents()), rn1);
      UpdateImportantNodes(randomNodes, importantNodes, now);
      ScoredLive(lib, InternalNode(config, now), rn1);
      ImportantMergeKeeps(swap, config.id, config.k, h.im, h.imMax, randomNodes.Contents(),
                          importantNodes.Contents(), importantNodes.maxNodeCount);
      MergedLive(config.id, h.im, randomNodes.Contents(), importantNodes.Contents());
      assert RandomReceived(swap, lib, h, now, old(nc.Contents()), rn1, State());
    }

    /** The update that follows a collection of important nodes. */
    method MergeImportant(nc: NodeCollection, now: U32)
      requires Valid() && nc.Valid() && AllLive(nc.Contents())
      requires nc != importantNodes && nc != randomNodes
      requires nc.nodes != importantNodes.nodes && nc.nodes != randomNodes.nodes
      modifies nc.nodes
      modifies importantNodes`nodeCount, importantNodes`maxNodeCount, importantNodes`nodes, importantNodes.nodes
      ensures Valid() && (importantNodes.nodes == old(importantNodes.nodes) || fresh(importantNodes.nodes))
      ensures ImportantReceived(swap, lib, old(State()), now, old(nc.Contents()), State())
    {
      ghost var h := State();
      UpdateImportantNodes(nc, importantNodes, now);
      ScoredLive(lib, InternalNode(config, now), old(nc.Contents()));
      ImportantMergeKeeps(swap, config.id, config.k, h.im, h.imMax, nc.Contents(),
                          importantNodes.Contents(), importantNodes.maxNodeCount);
      MergedLive(config.id, h.im, nc.Contents(), importantNodes.Contents());
    }

    /** LocalIO_handleRequest */
    method HandleRequest(lr: LocalRequest) returns (success: bool)
      requires Valid()
      modifies this`config, subs`numSubs, subs.subscribers
      ensures Valid() && State() == Handled(old(State()), lr)
      ensures success <==> 0 <= lr.rtype <= 4
    {
      success := true;
      if lr.rtype == SET_POSITION {
        config := config.(lat := lr.lat, lon := lr.lon);
      } else if lr.rtype == SET_COORDINATION_RANGE {
        config := config.(coordRange := lr.coordRange);
      } else if lr.rtype == SET_POS_AND_RANGE {
        config := config.(lat := lr.lat, lon := lr.lon);
        config := config.(coordRange := lr.coordRange);
      } else if lr.rtype == SUB_CANDNODES {
        var _ := subs.AddSub(Subscriber(lr.sockAddr, |lr.sockAddr| + 1));
      } else if lr.rtype == UNSUB_CANDNODES {
        var _ := subs.RemoveSub(Subscriber(lr.sockAddr, |lr.sockAddr|));
      } else {
        success := false;
      }
    }

    /** Protocol_timeout */
    method Timeout(now: U32) returns (sent: seq<Packet>)
      requires Valid()
      modifies randomNodes`nodeCount, randomNodes.nodes, importantNodes`nodeCount, importantNodes.nodes
      ensures Valid()
      ensures Cleaned(old(State()), now, State().(lastCleanup := now))
      ensures Requests(lib, host, State().(lastCleanup := now), now, sent)
    {
      CleanTables(now);
      ghost var h := State().(lastCleanup := now);
      var p := randomNodes.GetRandomPeerNode(config.id);
      var first;
      if p.Some? {
        first := SendRandomNodes(randomNodes, RND_REQ, p.value, now);
      } else {
        first := SendBootstrap(now);
      }
      assert RandomRequest(host, h, now, p, first);
      var q := importantNodes.GetRandomImportantNode(config.id);
      var rest := RequestImportant(q, now);
      sent := [first] + rest;
      assert sent[1..] == rest;
      assert RequestsVia(lib, host, h, now, p, q, sent);
    }

    /** The request to the chosen important peer, if there is one. */
    method RequestImportant(q: Option<Node>, now: U32) returns (sent: seq<Packet>)
      requires Valid() && PeerChoice(importantNodes.Contents(), PeerRange(importantNodes.Contents()), config.id, q)
      ensures ImportantRequest(lib, host, State().(lastCleanup := now), now, q, sent)
    {
      sent := [];
      if q.Some? {
        var pkt := SendImportantNodes(importantNodes, IMP_REQ, q.value, now);
        sent := [pkt];
      }
    }

    /** The expiry of both tables. */
    method CleanTables(now: U32)
      requires Valid()
      modifies randomNodes`nodeCount, randomNodes.nodes, importantNodes`nodeCount, importantNodes.nodes
      ensures Valid()
      ensures Cleaned(old(State()), now, State().(lastCleanup := now))
    {
      ExpireByID(randomNodes, now);
      ghost var rn := randomNodes.Contents();
      ExpireByUtility(importantNodes, now);
      assert randomNodes.Contents() == rn;
    }

    /** Expiry leaves a table in the order of IDs. */
    method ExpireByID(rn: NodeCollection, now: U32)
      requires rn.Valid() && AllLive(rn.Contents())
      modifies rn`nodeCount, rn.nodes
      ensures rn.Valid() && AllLive(rn.Contents()) && rn.nodeCount <= old(rn.nodeCount)
      ensures ExpiryOf(ByNodeID, now - config.nodeMaxAge, old(rn.Contents()), rn.Contents())
    {
      ghost var s := rn.Contents();
      var _ := rn.RemoveExpiredNodes(now, config.nodeMaxAge);
      ExpiryKeepsLive(ByNodeID, now - config.nodeMaxAge, s, rn.Contents());
    }

    /** The important table is put back in order afterwards. */
    method ExpireByUtility(im: NodeCollection, now: U32)
      requires im.Valid() && AllLive(im.Contents())
      modifies im`nodeCount, im.nodes
      ensures im.Valid() && AllLive(im.Contents()) && im.nodeCount <= old(im.nodeCount)
      ensures ExpiryOf(ByUtility, now - config.nodeMaxAge, old(im.Contents()), im.Contents())
    {
      ghost var s := im.Contents();
      var _ := im.RemoveExpiredNodes(now, config.nodeMaxAge);
      im.SortBy(ByUtility);
      ExpiryKeepsLive(ByUtility, now - config.nodeMaxAge, s, im.Contents());
    }

    /** Protocol_bootstrap */
    method SendBootstrap(now: U32) returns (pkt: Packet)
      ensures pkt == Bootstrap(host, config, now)
    {
      var peer := Node(0, 0.0, 0.0, 0, config.originPeerIP, config.originPeerPort, now, 0, 0, 0.0);
      var nc := new NodeCollection(VERSION_ID, RND_REQ, 1);
      nc.nodes[0] := OwnNode(config, now);
      nc.nodeCount := 1;
      assert nc.Contents() == [OwnNode(config, now)];
      pkt := SendToPeer(nc, peer);
    }

    /** LocalIO_sendCandidateNodes: the collection, and the sockets it goes to. */
    method SendCandidateNodes(cn: NodeCollection, ownNode: Node) returns (d: Dispatch)
      requires cn.Valid() && cn.nodeCount < 0xffff && subs.Valid()
      ensures d == Dispatch(VERSION_ID, INTERNAL,
                            Appended([ownNode], |cn.Contents()| + 1, cn.Contents(), ownNode.nodeID),
                            Addresses(subs.Contents()))
    {
      var nodesToSend := new NodeCollection(VERSION_ID, INTERNAL, cn.nodeCount + 1);
      nodesToSend.nodes[0] := ownNode;
      nodesToSend.nodeCount := 1;
      assert nodesToSend.Contents() == [ownNode];
      nodesToSend.Append(cn, ownNode.nodeID);
      var to := Receivers();
      d := Dispatch(nodesToSend.versionID, nodesToSend.payloadType, nodesToSend.nodes[..nodesToSend.nodeCount], to);
    }

    /** The loop over the subscribers. */
    method Receivers() returns (to: seq<string>)
      requires subs.Valid()
      ensures to == Addresses(subs.Contents())
    {
      to := [];
      var i := 0;
      while i < subs.numSubs
        invariant 0 <= i <= subs.numSubs
        invariant to == Addresses(subs.Contents()[..i])
      {
        assert subs.Contents()[..i + 1] == subs.Contents()[..i] + [subs.subscribers[i]];
        to := to + [subs.subscribers[i].address];
        i := i + 1;
      }
      assert subs.Contents()[..i] == subs.Contents();
    }

    /** The periodic part of the main loop. */
    method Cleanup(now: U32) returns (sent: seq<Packet>, delivered: Option<Dispatch>)
      requires Valid()
      modifies this`lastCleanup
      modifies randomNodes`nodeCount, randomNodes.nodes, importantNodes`nodeCount, importantNodes.nodes
      ensures Valid()
      ensures CleanupStep(lib, host, old(State()), now, State(), sent, delivered)
    {
      sent := Timeout(now);
      delivered := Deliver(now);
      lastCleanup := now;
    }

    /** The candidate list goes to the subscribers, if there are any. */
    method Deliver(now: U32) returns (delivered: Option<Dispatch>)
      requires Valid()
      ensures delivered == Delivery(State(), now)
      ensures delivered.Some? <==> subs.numSubs > 0
    {
      var cn := importantNodes.GetCandidateNodes();
      FilterSize(Candidate(), importantNodes.Contents());
      delivered := None;
      if subs.numSubs > 0 {
        var d := SendCandidateNodes(cn, OwnNode(config, now));
        delivered := Some(d);
      }
    }

    /** One turn of the main loop: at most one event, then the cleanup if it is due. */
    method Turn(event: Event, now: U32)
      returns (replies: seq<Packet>, sent: seq<Packet>, delivered: Option<Dispatch>, ghost mid: HostState)
      requires Valid()
      requires event.FromPeer? ==>
                 && event.nc.Valid() && event.nc.nodeCount > 0 && AllLive(event.nc.Contents())
                 && event.nc != importantNodes && event.nc != randomNodes
                 && event.nc.nodes != importantNodes.nodes && event.nc.nodes != randomNodes.nodes
      modifies this, randomNodes, randomNodes.nodes, importantNodes, importantNodes.nodes, subs, subs.subscribers
      modifies if event.FromPeer? then {event.nc.nodes} else {}
      ensures Valid()
      ensures match event
              case FromPeer(nc) =>
                ReceiveStep(swap, lib, host, old(State()), now, nc.payloadType, old(nc.Contents()), mid, replies)
              case FromLocal(lr) => mid == Handled(old(State()), lr) && replies == []
              case Nothing => mid == old(State()) && replies == []
      ensures if now - mid.lastCleanup > mid.cfg.timeout then CleanupStep(lib, host, mid, now, State(), sent, delivered)
              else State() == mid && sent == [] && delivered == None
    {
      replies, sent, delivered := [], [], None;
      match event {
        case FromPeer(nc) => replies := ReceiveFromPeer(nc, now);
        case FromLocal(lr) => var _ := HandleRequest(lr);
        case Nothing =>
      }
      mid := State();
      if now - lastCleanup > config.timeout {
        sent, delivered := Cleanup(now);
      }
    }
  }
}
