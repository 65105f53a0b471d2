/** What every reaction of one node keeps and produces. */
module HostLaws {
  import opened Collections
  import opened Records
  import opened Sorting
  import opened Dedup
  import opened Geometry
  import opened TableSpec
  import opened Merging
  import opened Subscribers
  import opened Steps

  // ----- The table invariant -----

  /** A table holds live records with pairwise distinct IDs, none of them the node's own. */
  ghost predicate TableInv(own: U32, s: seq<Node>) {
    DistinctIDs(s) && AllLive(s) && !HasID(s, own)
  }

  /** The capacity of the important table has grown by some multiple of K, within the hard limit. */
  ghost predicate CapacityInv(cfg: Config, imMax: nat) {
    && (exists j: nat :: imMax == CapacityAfter(cfg, j))
    && (imMax <= NODES_MAX_SIZE || imMax == cfg.m + cfg.k)
  }

  function CapacityAfter(cfg: Config, j: nat): int {
    cfg.m + cfg.k + j * cfg.k
  }

  ghost predicate HostInv(h: HostState) {
    && h.cfg.Sound()
    && TableInv(h.cfg.id, h.rn) && |h.rn| <= h.cfg.n
    && TableInv(h.cfg.id, h.im) && |h.im| + h.cfg.k <= h.imMax
    && CapacityInv(h.cfg, h.imMax)
    && Wellformed(h.subs)
  }

  /** How many records a message of this type holds at most. */
  function MessageLimit(cfg: Config, ptype: U8): nat {
    if ptype == RND_REQ || ptype == RND_NOREQ then (if cfg.n == 0 then 1 else cfg.n) else cfg.k + 1
  }

  /** A datagram sent by a node: the own record first, distinct IDs, bounded by N or K. */
  ghost predicate PacketShape(host: nat, cfg: Config, p: Packet) {
    && p.from == host
    && p.nodes != [] && p.nodes[0].nodeID == cfg.id
    && DistinctIDs(p.nodes) && AllLive(p.nodes)
    && (forall n :: n in p.nodes ==> n.utility == 0.0)
    && (p.ptype == RND_REQ || p.ptype == RND_NOREQ || p.ptype == IMP_REQ || p.ptype == IMP_NOREQ)
    && |p.nodes| <= MessageLimit(cfg, p.ptype)
  }

  /** The first record is the one its sender makes about itself at this time. */
  predicate OwnOnTop(cfg: Config, now: U32, p: Packet) {
    p.nodes != [] && p.nodes[0] == OwnNode(cfg, now)
  }

  lemma {:induction false} InitialInv(cfg: Config, now: U32)
    requires cfg.Sound()
    ensures HostInv(Initial(cfg, now))
  {
    assert Initial(cfg, now).imMax == CapacityAfter(cfg, 0);
    assert Addresses([]) == [];
  }

  lemma {:induction false} MergedInv(own: U32, a: seq<Node>, b: seq<Node>, r: seq<Node>)
    requires TableInv(own, a) && AllLive(b) && Merged(own, a, b, r)
    ensures TableInv(own, r)
  {
    forall i | 0 <= i < |r|
      ensures r[i].nodeID != 0 && r[i].nodeID != own
    {
      assert r[i] in r;
    }
  }

  lemma {:induction false} ScoredInv(lib: MathLib, from: Node, own: U32, s: seq<Node>)
    requires TableInv(own, s)
    ensures TableInv(own, Scored(lib, from, s))
  {
    ScoredFacts(lib, from, s);
    assert forall i :: 0 <= i < |s| ==> Scored(lib, from, s)[i].nodeID == s[i].nodeID;
  }

  lemma {:induction false} ImportantMergeInv(swap: Swap, h: HostState, nc: seq<Node>, h': HostState)
    requires HostInv(h) && AllLive(nc)
    requires ImportantMerge(swap, h.cfg.id, h.cfg.k, h.im, h.imMax, nc, h'.im, h'.imMax)
    ensures TableInv(h.cfg.id, h'.im) && |h'.im| + h.cfg.k <= h'.imMax
    ensures CapacityInv(h.cfg, h'.imMax) && h'.imMax >= h.imMax
  {
    ImportantMergeKeeps(swap, h.cfg.id, h.cfg.k, h.im, h.imMax, nc, h'.im, h'.imMax);
    MergedInv(h.cfg.id, h.im, nc, h'.im);
    if h'.imMax != h.imMax {
      CapacityGrows(h.cfg, h.imMax);
    }
  }

  lemma {:induction false} CapacityGrows(cfg: Config, imMax: nat)
    requires CapacityInv(cfg, imMax) && imMax + cfg.k <= NODES_MAX_SIZE
    ensures CapacityInv(cfg, imMax + cfg.k)
  {
    var j: nat :| imMax == CapacityAfter(cfg, j);
    assert CapacityAfter(cfg, j + 1) == imMax + cfg.k;
  }

  lemma {:induction false} SubTableInv(own: U32, s: seq<Node>, t: seq<Node>)
    requires TableInv(own, s) && DistinctIDs(t) && forall n :: n in t ==> n in s
    ensures TableInv(own, t)
  {
    HasIDMembers(t, s);
    forall i | 0 <= i < |t|
      ensures t[i].nodeID != 0
    {
      assert t[i] in t;
      var j :| 0 <= j < |s| && s[j] == t[i];
    }
  }

  lemma {:induction false} RandomReceivedInv(swap: Swap, lib: MathLib, h: HostState, now: U32, nc: seq<Node>,
                                             rn1: seq<Node>, h': HostState)
    requires HostInv(h) && AllLive(nc) && RandomReceived(swap, lib, h, now, nc, rn1, h')
    ensures HostInv(h') && h'.imMax >= h.imMax
  {
    RandomMergeKeeps(swap, h.cfg.id, 2 * h.cfg.n, h.rn, nc, rn1);
    MergedInv(h.cfg.id, h.rn, nc, rn1);
    ScoredInv(lib, InternalNode(h.cfg, now), h.cfg.id, rn1);
    ImportantMergeInv(swap, h, h'.rn, h');
  }

  lemma {:induction false} ImportantReceivedInv(swap: Swap, lib: MathLib, h: HostState, now: U32, nc: seq<Node>,
                                                h': HostState)
    requires HostInv(h) && AllLive(nc) && ImportantReceived(swap, lib, h, now, nc, h')
    ensures HostInv(h') && h'.imMax >= h.imMax
  {
    var scored := Scored(lib, InternalNode(h.cfg, now), nc);
    assert AllLive(scored) by {
      assert forall i :: 0 <= i < |nc| ==> scored[i].nodeID == nc[i].nodeID;
    }
    ImportantMergeInv(swap, h, scored, h');
  }

  lemma {:induction false} ExpiryInv(key: SortKey, own: U32, cutoff: int, s: seq<Node>, t: seq<Node>)
    requires TableInv(own, s) && ExpiryOf(key, cutoff, s, t)
    ensures TableInv(own, t) && |t| <= |s|
    ensures forall n :: n in t <==> n in s && n.timeStamp > cutoff
  {
    var left := Filter(Newer(cutoff), s);
    FilterMembers(Newer(cutoff), s);
    FilterSize(Newer(cutoff), s);
    FilterDistinct(Newer(cutoff), s);
    SortMembers(key, left, t);
    PermutationDistinct(left, t);
    SubTableInv(own, s, t);
  }

  /** Expiry keeps exactly the records newer than the cutoff. */
  lemma {:induction false} ExpiryKeepsTheNew(h: HostState, now: U32, h': HostState)
    requires HostInv(h) && Cleaned(h, now, h')
    ensures HostInv(h')
    ensures forall n :: n in h'.rn <==> n in h.rn && n.timeStamp > now - h.cfg.nodeMaxAge
    ensures forall n :: n in h'.im <==> n in h.im && n.timeStamp > now - h.cfg.nodeMaxAge
    ensures Descending(ByUtility, h'.im)
  {
    ExpiryInv(ByNodeID, h.cfg.id, now - h.cfg.nodeMaxAge, h.rn, h'.rn);
    ExpiryInv(ByUtility, h.cfg.id, now - h.cfg.nodeMaxAge, h.im, h'.im);
  }

  lemma {:induction false} HandledInv(h: HostState, lr: LocalRequest)
    requires HostInv(h)
    ensures HostInv(Handled(h, lr)) && Handled(h, lr).cfg.Fixed() == h.cfg.Fixed()
    ensures Handled(h, lr).rn == h.rn && Handled(h, lr).im == h.im && Handled(h, lr).imMax == h.imMax
  {
    if lr.rtype == SUB_CANDNODES {
      AddRefines(h.subs, lr.sockAddr);
    } else if lr.rtype == UNSUB_CANDNODES {
      RemoveRefines(h.subs, lr.sockAddr);
    } else {
      ConfigInv(h, Handled(h, lr).cfg);
    }
  }

  lemma {:induction false} ConfigInv(h: HostState, cfg: Config)
    requires HostInv(h) && cfg.Fixed() == h.cfg.Fixed()
    ensures HostInv(h.(cfg := cfg))
  {
    SameFixed(h.cfg, cfg, h.imMax);
  }

  lemma {:induction false} SameFixed(c: Config, c': Config, imMax: nat)
    requires c.Fixed() == c'.Fixed()
    ensures c.id == c'.id && c.n == c'.n && c.m == c'.m && c.k == c'.k && c.nodeMaxAge == c'.nodeMaxAge
    ensures CapacityInv(c, imMax) <==> CapacityInv(c', imMax)
  {
    assert c.Fixed().id == c.id && c.Fixed().n == c.n && c.Fixed().m == c.m && c.Fixed().k == c.k;
    assert c.Fixed().nodeMaxAge == c.nodeMaxAge && c'.Fixed().nodeMaxAge == c'.nodeMaxAge;
    assert c'.Fixed().id == c'.id && c'.Fixed().n == c'.n && c'.Fixed().m == c'.m && c'.Fixed().k == c'.k;
    assert forall j: nat :: CapacityAfter(c, j) == CapacityAfter(c', j);
  }

  // ----- The messages -----

  lemma {:induction false} MessageShape(host: nat, h: HostState, now: U32, ptype: U8, ip: U32, port: U16,
                                        body: seq<Node>)
    requires HostInv(h) && TableInv(h.cfg.id, body)
    requires ptype == RND_REQ || ptype == RND_NOREQ || ptype == IMP_REQ || ptype == IMP_NOREQ
    requires |body| + 1 <= MessageLimit(h.cfg, ptype)
    ensures PacketShape(host, h.cfg, Packet(host, ip, port, ptype, OnWire([OwnNode(h.cfg, now)] + body)))
    ensures OwnOnTop(h.cfg, now, Packet(host, ip, port, ptype, OnWire([OwnNode(h.cfg, now)] + body)))
  {
    var s := [OwnNode(h.cfg, now)] + body;
    var w := OnWire(s);
    assert forall i :: 0 <= i < |s| ==> w[i].nodeID == s[i].nodeID && w[i].utility == 0.0;
    forall i | 1 <= i < |s|
      ensures s[i].nodeID != h.cfg.id && s[i].nodeID != 0
    {
      assert s[i] == body[i - 1];
    }
    forall i, j | 0 <= i < j < |w|
      ensures w[i].nodeID != w[j].nodeID
    {
      assert i > 0 ==> s[i] == body[i - 1];
      assert s[j] == body[j - 1];
    }
  }

  lemma {:induction false} PrefixInv(own: U32, s: seq<Node>, n: nat)
    requires TableInv(own, s) && n <= |s|
    ensures TableInv(own, s[..n])
  {
    HasIDMembers(s[..n], s);
  }

  lemma {:induction false} RandomPacketShape(host: nat, h: HostState, now: U32, ptype: U8, peer: Node)
    requires HostInv(h) && (ptype == RND_REQ || ptype == RND_NOREQ)
    ensures PacketShape(host, h.cfg, RandomPacket(host, h, now, ptype, peer))
    ensures OwnOnTop(h.cfg, now, RandomPacket(host, h, now, ptype, peer))
  {
    var body := if |h.rn| > 1 then h.rn[..|h.rn| - 1] else [];
    PrefixInv(h.cfg.id, h.rn, |body|);
    assert RandomMessage(OwnNode(h.cfg, now), h.rn) == [OwnNode(h.cfg, now)] + body;
    MessageShape(host, h, now, ptype, peer.ipAddr, peer.port, body);
  }

  lemma {:induction false} SelectedInv(lib: MathLib, own: U32, k: nat, im: seq<Node>, peer: Node, sel: seq<Node>)
    requires TableInv(own, im) && Selected(lib, k, im, peer, sel)
    ensures TableInv(own, sel) && |sel| <= k
    ensures forall n :: n in sel ==> Sends(im, n)
  {
    TopKForPeer(lib, k, im, peer, sel);
    forall i | 0 <= i < |sel|
      ensures sel[i].nodeID != 0 && sel[i].nodeID != own
    {
      assert sel[i] in sel;
      var m :| m in im && m.Wire() == sel[i].Wire();
      var j :| 0 <= j < |im| && im[j] == m;
      assert m.Wire().nodeID == m.nodeID && sel[i].Wire().nodeID == sel[i].nodeID;
    }
  }

  lemma {:induction false} ImportantPacketShape(lib: MathLib, host: nat, h: HostState, now: U32, ptype: U8,
                                                peer: Node, pkt: Packet)
    requires HostInv(h) && (ptype == IMP_REQ || ptype == IMP_NOREQ)
    requires ImportantSent(lib, host, h, now, ptype, peer, pkt)
    ensures PacketShape(host, h.cfg, pkt) && OwnOnTop(h.cfg, now, pkt) && pkt.ptype == ptype
  {
    var sel :| Selected(lib, h.cfg.k, h.im, peer, sel) && pkt == ImportantPacket(host, h, now, ptype, peer, sel);
    SelectedInv(lib, h.cfg.id, h.cfg.k, h.im, peer, sel);
    MessageShape(host, h, now, ptype, peer.ipAddr, peer.port, sel);
  }

  // ----- Whole reactions -----

  lemma {:induction false} ReceiveKeeps(swap: Swap, lib: MathLib, host: nat, h: HostState, now: U32, ptype: U8,
                                        nc: seq<Node>, h': HostState, sent: seq<Packet>)
    requires HostInv(h) && AllLive(nc) && ReceiveStep(swap, lib, host, h, now, ptype, nc, h', sent)
    ensures HostInv(h') && h'.cfg == h.cfg && h'.imMax >= h.imMax
  {
    if ptype == RND_NOREQ || ptype == RND_REQ {
      var rn1 :| RandomReceived(swap, lib, h, now, nc, rn1, h');
      RandomReceivedInv(swap, lib, h, now, nc, rn1, h');
    } else if ptype == IMP_NOREQ || ptype == IMP_REQ {
      ImportantReceivedInv(swap, lib, h, now, nc, h');
    }
  }

  /** The reply to a message whose first record is `peer`. */
  ghost predicate Replied(lib: MathLib, host: nat, h: HostState, now: U32, ptype: U8, peer: Node, sent: seq<Packet>) {
    if ptype == RND_REQ then sent == [RandomPacket(host, h, now, RND_NOREQ, peer)]
    else if ptype == IMP_REQ then |sent| == 1 && ImportantSent(lib, host, h, now, IMP_NOREQ, peer, sent[0])
    else sent == []
  }

  lemma {:induction false} ReceiveReplies(swap: Swap, lib: MathLib, host: nat, h: HostState, now: U32, ptype: U8,
                                          nc: seq<Node>, h': HostState, sent: seq<Packet>)
    requires ReceiveStep(swap, lib, host, h, now, ptype, nc, h', sent)
    ensures nc != [] && Replied(lib, host, h, now, ptype, nc[0], sent)
  {
  }

  lemma {:induction false} RepliesShaped(swap: Swap, lib: MathLib, host: nat, h: HostState, now: U32, ptype: U8,
                                         nc: seq<Node>, h': HostState, sent: seq<Packet>)
    requires HostInv(h) && ReceiveStep(swap, lib, host, h, now, ptype, nc, h', sent)
    ensures forall p :: p in sent ==> PacketShape(host, h.cfg, p) && OwnOnTop(h.cfg, now, p)
  {
    ReceiveReplies(swap, lib, host, h, now, ptype, nc, h', sent);
    ReplyShaped(lib, host, h, now, ptype, nc[0], sent);
  }

  lemma {:induction false} ReplyShaped(lib: MathLib, host: nat, h: HostState, now: U32, ptype: U8, peer: Node,
                                       sent: seq<Packet>)
    requires HostInv(h) && Replied(lib, host, h, now, ptype, peer, sent)
    ensures forall p :: p in sent ==> PacketShape(host, h.cfg, p) && OwnOnTop(h.cfg, now, p)
  {
    if ptype == RND_REQ {
      RandomPacketShape(host, h, now, RND_NOREQ, peer);
    } else if ptype == IMP_REQ {
      ImportantPacketShape(lib, host, h, now, IMP_NOREQ, peer, sent[0]);
    }
  }

  lemma {:induction false} BootstrapShape(host: nat, h: HostState, now: U32)
    requires HostInv(h)
    ensures PacketShape(host, h.cfg, Bootstrap(host, h.cfg, now)) && OwnOnTop(h.cfg, now, Bootstrap(host, h.cfg, now))
  {
    assert [OwnNode(h.cfg, now)] + [] == [OwnNode(h.cfg, now)];
    assert |[OwnNode(h.cfg, now)]| == 1;
    MessageShape(host, h, now, RND_REQ, h.cfg.originPeerIP, h.cfg.originPeerPort, []);
  }

  /** The requests of a cleanup. The bootstrap message goes out exactly when the random table is
      empty after the expiry; otherwise the peer is an entry of the table, never the node itself.
      An important request goes out exactly when the important table is not empty. */
  ghost predicate RequestsToPeers(lib: MathLib, host: nat, h: HostState, now: U32, sent: seq<Packet>) {
    && 1 <= |sent| <= 2
    && (h.rn == [] ==> sent[0] == Bootstrap(host, h.cfg, now))
    && (h.rn != [] ==> exists peer :: peer in h.rn && peer.nodeID != h.cfg.id
                                      && sent[0] == RandomPacket(host, h, now, RND_REQ, peer))
    && (|sent| == 1 <==> h.im == [])
    && (h.im != [] ==> exists r :: 0 <= r < PeerRange(h.im) && r < |h.im| && h.im[r].nodeID != h.cfg.id
                                   && ImportantSent(lib, host, h, now, IMP_REQ, h.im[r], sent[1]))
  }

  lemma {:induction false} RequestsFindPeers(lib: MathLib, host: nat, h: HostState, now: U32, sent: seq<Packet>)
    requires HostInv(h) && Requests(lib, host, h, now, sent)
    ensures RequestsToPeers(lib, host, h, now, sent)
  {
    var p, q :| RequestsVia(lib, host, h, now, p, q, sent);
    assert forall r :: 0 <= r < |h.rn| ==> h.rn[r].nodeID != h.cfg.id;
    assert forall r :: 0 <= r < |h.im| ==> h.im[r].nodeID != h.cfg.id;
    FilterSize(Candidate(), h.im);
    assert p.Some? <==> h.rn != [];
    assert q.Some? <==> h.im != [];
    if q.Some? {
      assert sent[1..][0] == sent[1];
    }
  }

  /** With at least ten candidates the important peer is one of them. */
  lemma {:induction false} ImportantPeerIsCandidate(h: HostState, r: nat)
    requires Descending(ByUtility, h.im) && |h.im| >= 10 && CandidateCount(h.im) >= 10
    requires r < PeerRange(h.im)
    ensures r < |h.im| && h.im[r].utility >= 1.0
  {
    CandidatePrefix(h.im);
    FilterMembers(Candidate(), h.im);
    var c := Filter(Candidate(), h.im);
    assert h.im[..|c|][r] == c[r] && c[r] in c;
  }

  /** In a table sorted by utility the candidates come first. */
  lemma {:induction false} CandidatePrefix(s: seq<Node>)
    requires Descending(ByUtility, s)
    ensures |Filter(Candidate(), s)| <= |s| && Filter(Candidate(), s) == s[..|Filter(Candidate(), s)|]
  {
    if s != [] {
      if s[0].utility >= 1.0 {
        CandidatePrefix(s[1..]);
      } else {
        forall n | n in s
          ensures !Candidate()(n)
        {
          var i :| 0 <= i < |s| && s[i] == n;
          assert Rank(ByUtility, s[0]) >= Rank(ByUtility, s[i]);
        }
        FilterNone(Candidate(), s);
      }
    }
  }

  lemma {:induction false} CleanupKeeps(lib: MathLib, host: nat, h: HostState, now: U32, h': HostState,
                                        sent: seq<Packet>, delivered: Option<Dispatch>)
    requires HostInv(h) && CleanupStep(lib, host, h, now, h', sent, delivered)
    ensures HostInv(h') && h'.cfg == h.cfg && h'.imMax == h.imMax
    ensures RequestsToPeers(lib, host, h', now, sent)
    ensures forall p :: p in sent ==> PacketShape(host, h.cfg, p) && OwnOnTop(h.cfg, now, p)
  {
    ExpiryKeepsTheNew(h, now, h');
    RequestsFindPeers(lib, host, h', now, sent);
    RequestsShaped(lib, host, h', now, sent);
  }

  lemma {:induction false} RequestsShaped(lib: MathLib, host: nat, h: HostState, now: U32, sent: seq<Packet>)
    requires HostInv(h) && RequestsToPeers(lib, host, h, now, sent)
    ensures forall p :: p in sent ==> PacketShape(host, h.cfg, p) && OwnOnTop(h.cfg, now, p)
  {
    RandomRequestShaped(lib, host, h, now, sent);
    if h.im != [] {
      ImportantRequestShaped(lib, host, h, now, sent);
    }
    forall p | p in sent
      ensures PacketShape(host, h.cfg, p) && OwnOnTop(h.cfg, now, p)
    {
      var i :| 0 <= i < |sent| && sent[i] == p;
    }
  }

  lemma {:induction false} RandomRequestShaped(lib: MathLib, host: nat, h: HostState, now: U32, sent: seq<Packet>)
    requires HostInv(h) && RequestsToPeers(lib, host, h, now, sent)
    ensures PacketShape(host, h.cfg, sent[0]) && OwnOnTop(h.cfg, now, sent[0])
  {
    if h.rn == [] {
      BootstrapShape(host, h, now);
    } else {
      var peer :| peer in h.rn && peer.nodeID != h.cfg.id && sent[0] == RandomPacket(host, h, now, RND_REQ, peer);
      RandomPacketShape(host, h, now, RND_REQ, peer);
    }
  }

  lemma {:induction false} ImportantRequestShaped(lib: MathLib, host: nat, h: HostState, now: U32, sent: seq<Packet>)
    requires HostInv(h) && RequestsToPeers(lib, host, h, now, sent) && h.im != []
    ensures PacketShape(host, h.cfg, sent[1]) && OwnOnTop(h.cfg, now, sent[1])
  {
    var r :| 0 <= r < PeerRange(h.im) && r < |h.im| && ImportantSent(lib, host, h, now, IMP_REQ, h.im[r], sent[1]);
    ImportantPacketShape(lib, host, h, now, IMP_REQ, h.im[r], sent[1]);
  }

  // ----- Delivery to local subscribers -----

  /** Each list is the own record followed by exactly the unexpired important nodes that are
      candidates, most useful first, with distinct IDs; equivalently by the first entries of the
      sorted table, as many as there are candidates. */
  lemma {:induction false} DeliveredList(lib: MathLib, host: nat, h: HostState, now: U32, h': HostState,
                                         sent: seq<Packet>, d: Dispatch)
    requires HostInv(h) && CleanupStep(lib, host, h, now, h', sent, Some(d))
    ensures d.nodes == [OwnNode(h.cfg, now)] + Take(h'.im, CandidateCount(h'.im))
    ensures forall n :: n in d.nodes[1..] <==>
              n in h.im && n.timeStamp > now - h.cfg.nodeMaxAge && n.utility >= 1.0
    ensures Descending(ByUtility, d.nodes[1..]) && DistinctIDs(d.nodes)
  {
    ExpiryKeepsTheNew(h, now, h');
    var own := OwnNode(h.cfg, now);
    CandidateListForm(own, h'.im);
    FilterMembers(Candidate(), h'.im);
    assert d.nodes[1..] == Filter(Candidate(), h'.im);
    DistinctWithOwn(own, h'.im, CandidateCount(h'.im));
  }

  lemma {:induction false} CandidateListForm(own: Node, im: seq<Node>)
    requires TableInv(own.nodeID, im) && Descending(ByUtility, im)
    ensures CandidateList(own, im) == [own] + Filter(Candidate(), im)
    ensures Filter(Candidate(), im) == Take(im, CandidateCount(im))
  {
    CandidatePrefix(im);
    FilterMembers(Candidate(), im);
    forall n | n in Filter(Candidate(), im)
      ensures NotIgnored(own.nodeID)(n)
    {
      var i :| 0 <= i < |im| && im[i] == n;
    }
    FilterAll(NotIgnored(own.nodeID), Filter(Candidate(), im));
  }

  lemma {:induction false} DistinctWithOwn(own: Node, s: seq<Node>, n: nat)
    requires TableInv(own.nodeID, s)
    ensures DistinctIDs([own] + Take(s, n))
  {
    var t := [own] + Take(s, n);
    forall i, j | 0 <= i < j < |t|
      ensures t[i].nodeID != t[j].nodeID
    {
      assert t[j] == s[j - 1];
      assert i > 0 ==> t[i] == s[i - 1];
    }
  }
}
