/** The NodeCollection of node.c: a bounded array of records, edited in place. */
module NodeTable {
  import opened Collections
  import opened Records
  import opened Sorting
  import opened Dedup
  import opened Geometry
  import opened TableSpec

  class NodeCollection {
    var versionID: U16
    var payloadType: U8
    var nodeCount: U16
    var maxNodeCount: U16
    var nodes: array<Node>

    ghost predicate Valid()
      reads this
    {
      nodeCount <= maxNodeCount == nodes.Length
    }

    /** The records in use. */
    ghost function Contents(): (s: seq<Node>)
      reads this, nodes
      requires Valid()
      ensures |s| == nodeCount
    {
      nodes[..nodeCount]
    }

    /** NodeCollection_new; the memory is not initialised. */
    constructor (versionID: U16, payloadType: U8, maxNodeCount: U16)
      ensures Valid() && fresh(nodes) && Contents() == []
      ensures this.versionID == versionID && this.payloadType == payloadType
      ensures this.maxNodeCount == maxNodeCount
    {
      this.versionID := versionID;
      this.payloadType := payloadType;
      this.maxNodeCount := maxNodeCount;
      nodes := new Node[maxNodeCount];
      nodeCount := 0;
    }

    /** NodeCollection_grow: reallocates unless the hard limit forbids it. */
    method Grow(growAmount: U16)
      requires Valid()
      modifies this`maxNodeCount, this`nodes
      ensures Valid() && Contents() == old(Contents())
      ensures maxNodeCount == Grown(old(maxNodeCount), growAmount)
      ensures nodes == old(nodes) || fresh(nodes)
    {
      if maxNodeCount + growAmount <= NODES_MAX_SIZE {
        var bigger := new Node[maxNodeCount + growAmount];
        var i := 0;
        while i < nodes.Length
          invariant 0 <= i <= nodes.Length
          invariant bigger[..i] == nodes[..i]
          modifies bigger
        {
          bigger[i] := nodes[i];
          i := i + 1;
        }
        assert bigger[..nodes.Length][..nodeCount] == nodes[..nodes.Length][..nodeCount];
        maxNodeCount := maxNodeCount + growAmount;
        nodes := bigger;
      }
    }

    /** NodeCollection_sortByUtility, _sortByTimeStamp, _sortByNodeID */
    method SortBy(key: SortKey)
      requires Valid()
      modifies nodes
      ensures Valid() && IsSort(key, old(Contents()), Contents())
    {
      SortPrefix(key, nodes, nodeCount);
    }

    /** NodeCollection_append */
    method Append(b: NodeCollection, ignoreNodeId: U32)
      requires Valid() && b.Valid() && b != this && b.nodes != nodes
      modifies this`nodeCount, nodes
      ensures Valid()
      ensures Contents() == Appended(old(Contents()), maxNodeCount, old(b.Contents()), ignoreNodeId)
    {
      ghost var a0, b0, room := Contents(), b.Contents(), maxNodeCount - nodeCount;
      var bPos := 0;
      while nodeCount < maxNodeCount && bPos < b.nodeCount
        invariant Valid() && 0 <= bPos <= b.nodeCount
        invariant b.nodes[..b.nodeCount] == b0
        invariant Contents() == a0 + Filter(NotIgnored(ignoreNodeId), b0[..bPos])
        decreases b.nodeCount - bPos
      {
        FilterOne(NotIgnored(ignoreNodeId), b0, bPos);
        assert b.nodes[bPos] == b0[bPos];
        if ignoreNodeId == 0 || ignoreNodeId != b.nodes[bPos].nodeID {
          nodes[nodeCount] := b.nodes[bPos];
          nodeCount := nodeCount + 1;
        }
        bPos := bPos + 1;
      }
      CopiedPrefix(ignoreNodeId, b0, bPos, room);
    }

    /** Node_nullOutNode */
    method NullOut(i: int)
      requires 0 <= i < nodes.Length
      modifies nodes
      ensures nodes[i] == old(nodes[i]).(nodeID := 0)
      ensures forall k :: 0 <= k < nodes.Length && k != i ==> nodes[k] == old(nodes[k])
    {
      nodes[i] := nodes[i].(nodeID := 0);
    }

    /** Node_swapPointers: as coded only the IDs trade places, as documented the records do. */
    method SwapPointers(i: int, j: int, swap: Swap)
      requires 0 <= i < j < nodes.Length
      modifies nodes
      ensures nodes[..] == old(nodes[..])[i := SwapNodes(swap, old(nodes[i]), old(nodes[j])).0]
                                         [j := SwapNodes(swap, old(nodes[i]), old(nodes[j])).1]
    {
      match swap
      case WordSwap =>
        var tmp := nodes[i].nodeID;
        nodes[i] := nodes[i].(nodeID := nodes[j].nodeID);
        nodes[j] := nodes[j].(nodeID := tmp);
      case RecordSwap =>
        nodes[i], nodes[j] := nodes[j], nodes[i];
    }

    /** The comparison of two neighbours in the scan; tells whether one of them was nulled. */
    method CompareNeighbours(i: int, swap: Swap) returns (nulled: bool)
      requires 0 <= i && i + 1 < nodes.Length
      modifies nodes
      ensures nulled == (old(nodes[i]).nodeID == old(nodes[i + 1]).nodeID)
      ensures nodes[..] == if nulled
                           then var r := Collide(swap, old(nodes[i]), old(nodes[i + 1]));
                                old(nodes[..])[i := r.0][i + 1 := r.1]
                           else old(nodes[..])
    {
      nulled := nodes[i].nodeID == nodes[i + 1].nodeID;
      if nulled {
        if nodes[i].timeStamp < nodes[i + 1].timeStamp {
          NullOut(i);
        } else {
          NullOut(i + 1);
          SwapPointers(i, i + 1, swap);
        }
      }
    }

    /** The scan over neighbours: nulls all but one record of every run of equal IDs. */
    method ScanDuplicates(swap: Swap) returns (newNodeCount: int)
      requires Valid() && AllLive(Contents())
      modifies nodes
      ensures Filter(Live(), Contents()) == Survivors(swap, old(Contents()))
      ensures newNodeCount == |Survivors(swap, old(Contents()))|
    {
      ghost var p := Contents();
      ScanStart(swap, p);
      newNodeCount := nodeCount;
      var i := 0;
      while i < nodeCount - 1
        invariant ScanAt(swap, p, Contents(), i, newNodeCount)
      {
        ghost var before := Contents();
        var nulled := CompareNeighbours(i, swap);
        assert Contents() == nodes[..][..nodeCount];
        ScanStep(swap, p, before, i, newNodeCount, Contents());
        if nulled {
          newNodeCount := newNodeCount - 1;
        }
        i := i + 1;
      }
      ScanEnd(swap, p, Contents(), i, newNodeCount);
    }

    /** NodeCollection_removeDuplicateNodes */
    method RemoveDuplicateNodes(swap: Swap)
      requires Valid() && AllLive(Contents())
      modifies this`nodeCount, nodes
      ensures Valid() && Deduped(swap, old(Contents()), Contents())
    {
      ghost var s := Contents();
      SortBy(ByNodeID);
      ghost var p := Contents();
      SortMembers(ByNodeID, s, p);
      var newNodeCount := ScanDuplicates(swap);
      ghost var scanned := Contents();
      SortBy(ByNodeID);
      SortedSurvivors(swap, p, scanned, Contents());
      nodeCount := newNodeCount;
      assert DedupVia(swap, s, p, Contents());
    }

    /** The first loop of the expiry: nulls the records that are too old. */
    method NullExpired(cmprTime: int) returns (num: int)
      requires Valid()
      modifies nodes
      ensures Valid() && Contents() == Expired(cmprTime, old(Contents()))
      ensures num == nodeCount - |Filter(Newer(cmprTime), old(Contents()))|
    {
      ghost var s := Contents();
      num := 0;
      var i := 0;
      while i < nodeCount
        invariant 0 <= i <= nodeCount
        invariant forall k :: 0 <= k < i ==> nodes[k] == Marked(cmprTime, s[k])
        invariant forall k :: i <= k < nodeCount ==> nodes[k] == s[k]
        invariant num == i - |Filter(Newer(cmprTime), s[..i])|
      {
        FilterOne(Newer(cmprTime), s, i);
        if nodes[i].timeStamp <= cmprTime {
          NullOut(i);
          num := num + 1;
        }
        i := i + 1;
      }
      assert s[..i] == s;
    }

    /** NodeCollection_removeExpiredNodes, with the current time and the age limit as arguments. */
    method RemoveExpiredNodes(now: U32, maxAge: U32) returns (num: int)
      requires Valid() && AllLive(Contents())
      modifies this`nodeCount, nodes
      ensures Valid() && ExpiryOf(ByNodeID, now - maxAge, old(Contents()), Contents())
      ensures num == old(nodeCount) - nodeCount
    {
      ghost var s := Contents();
      num := NullExpired(now - maxAge);
      CutNulled(num, now - maxAge, s);
    }

    /** The end of the expiry: the nulled records sink to the bottom and are cut off. */
    method CutNulled(num: int, ghost cutoff: int, ghost s: seq<Node>)
      requires Valid() && AllLive(s) && Contents() == Expired(cutoff, s)
      requires num == nodeCount - |Filter(Newer(cutoff), s)|
      modifies this`nodeCount, nodes
      ensures Valid() && ExpiryOf(ByNodeID, cutoff, s, Contents())
      ensures nodeCount == old(nodeCount) - num
    {
      ghost var marked := Contents();
      SortBy(ByNodeID);
      ghost var left := SortedAfterExpiry(cutoff, s, marked, Contents());
      nodeCount := nodeCount - num;
      assert Contents() == left;
    }

    /** NodeCollection_removeExcessNodes. What it returns is the capacity above the floor; that
        is the number of records dropped exactly if nothing is cut or the table was full. */
    method RemoveExcessNodes(floorValue: U16) returns (nodesRemoved: int)
      requires Valid()
      modifies this`nodeCount, nodes
      ensures Valid() && Contents() == Take(old(Contents()), floorValue)
      ensures nodesRemoved == if old(nodeCount) > floorValue then maxNodeCount - floorValue else 0
      ensures nodesRemoved == old(nodeCount) - nodeCount
              <==> old(nodeCount) <= floorValue || old(nodeCount) == maxNodeCount
    {
      nodesRemoved := 0;
      if nodeCount > floorValue {
        var i := floorValue as int;
        while i < maxNodeCount
          invariant floorValue <= i <= maxNodeCount
          invariant nodesRemoved == i - floorValue
          invariant nodes[..floorValue] == old(nodes[..floorValue])
        {
          NullOut(i);
          nodesRemoved := nodesRemoved + 1;
          i := i + 1;
        }
        nodeCount := floorValue;
      }
    }

    /** NodeCollection_calculateUtility */
    method CalculateUtility(lib: MathLib, n: Node)
      requires Valid()
      modifies nodes
      ensures Valid() && Contents() == Scored(lib, n, old(Contents()))
    {
      var i := 0;
      ghost var s := Contents();
      while i < nodeCount
        invariant 0 <= i <= nodeCount
        invariant Contents() == Scored(lib, n, s[..i]) + s[i..]
      {
        var u := Utility(lib, n, nodes[i]);
        assert nodes[i] == s[i];
        nodes[i] := nodes[i].(utility := u);
        ScoreStep(lib, n, s, i);
        i := i + 1;
      }
    }

    /** NodeCollection_countCandidateNodes */
    method CountCandidateNodes() returns (counter: int)
      requires Valid()
      ensures counter == CandidateCount(Contents())
    {
      counter := 0;
      var i := 0;
      while i < nodeCount
        invariant 0 <= i <= nodeCount
        invariant counter == CandidateCount(Contents()[..i])
      {
        FilterOne(Candidate(), Contents(), i);
        if nodes[i].utility >= 1.0 {
          counter := counter + 1;
        }
        i := i + 1;
      }
      assert Contents()[..nodeCount] == Contents();
    }

    /** NodeCollection_getCandidateNodes */
    method GetCandidateNodes() returns (cn: NodeCollection)
      requires Valid()
      ensures fresh(cn) && fresh(cn.nodes) && cn.Valid()
      ensures cn.Contents() == Filter(Candidate(), Contents())
      ensures cn.versionID == VERSION_ID && cn.payloadType == INTERNAL && cn.maxNodeCount == nodeCount
    {
      cn := new NodeCollection(VERSION_ID, INTERNAL, nodeCount);
      var i, j: U16 := 0, 0;
      while i < nodeCount
        invariant 0 <= i <= nodeCount && 0 <= j <= i
        invariant cn.nodes[..j] == Filter(Candidate(), Contents()[..i])
        modifies cn.nodes
      {
        FilterOne(Candidate(), Contents(), i);
        if nodes[i].utility >= 1.0 {
          cn.nodes[j] := nodes[i];
          j := j + 1;
        }
        i := i + 1;
      }
      assert Contents()[..nodeCount] == Contents();
      cn.nodeCount := j;
    }

    /** Up to 100 draws from the first `range` records, until one is not the node itself. */
    method Draw(range: U16, own: U32) returns (n: Option<Node>)
      requires Valid() && 0 < range <= nodeCount
      ensures PeerChoice(Contents(), range, own, n)
    {
      n := None;
      var i := 0;
      while i < 100
        invariant 0 <= i <= 100
        invariant i > 0 ==> exists r :: 0 <= r < range && Contents()[r].nodeID == own
      {
        var r: int :| 0 <= r < range;
        assert Contents()[r] == nodes[r];
        if nodes[r].nodeID != own {
          return Some(nodes[r]);
        }
        i := i + 1;
      }
    }

    /** Node_getRandomPeerNode */
    method GetRandomPeerNode(own: U32) returns (n: Option<Node>)
      requires Valid()
      ensures PeerChoice(Contents(), nodeCount, own, n)
    {
      n := None;
      if nodeCount == 1 {
        assert Contents()[0] == nodes[0];
        if nodes[0].nodeID != own {
          n := Some(nodes[0]);
        }
      } else if nodeCount > 1 {
        n := Draw(nodeCount, own);
      }
    }

    /** Node_getRandomImportantNode */
    method GetRandomImportantNode(own: U32) returns (n: Option<Node>)
      requires Valid()
      ensures PeerChoice(Contents(), PeerRange(Contents()), own, n)
    {
      n := None;
      if nodeCount == 1 {
        assert Contents()[0] == nodes[0];
        if nodes[0].nodeID != own {
          n := Some(nodes[0]);
        }
      } else if nodeCount > 1 {
        var candidateAmount := CountCandidateNodes();
        FilterSize(Candidate(), Contents());
        var nodeRange := 0;
        if nodeCount < 10 {
          nodeRange := nodeCount;
        } else if candidateAmount < 10 {
          nodeRange := 9;
        } else {
          nodeRange := candidateAmount;
        }
        n := Draw(nodeRange, own);
      }
    }
  }
}
