/** The second codec, python/p2pdprd_types.py. A Python float stands by its binary64 pattern, so
    packing it copies the pattern; a dotted IP address is four bytes. */
module PythonWire {
  import opened Collections
  import opened Records
  import opened Bytes
  import opened Wire

  // ----- struct, in network byte order -----

  function Width(code: char): nat {
    match code
    case 'B' => 1
    case 'H' => 2
    case 'I' => 4
    case _ => 8
  }

  /** How many bytes the first `k` codes of a format take. */
  function Before(fmt: string, k: nat): nat
    requires k <= |fmt|
  {
    if k == 0 then 0 else Before(fmt, k - 1) + Width(fmt[k - 1])
  }

  function CalcSize(fmt: string): nat {
    Before(fmt, |fmt|)
  }

  lemma {:induction false} BeforeGrows(fmt: string, j: nat, k: nat)
    requires j <= k <= |fmt|
    ensures Before(fmt, j) <= Before(fmt, k)
    decreases k
  {
    if j < k {
      BeforeGrows(fmt, j, k - 1);
    }
  }

  predicate Fits(code: char, v: int) {
    0 <= v < Pow256(Width(code))
  }

  predicate AllFit(fmt: string, vals: seq<int>) {
    |fmt| == |vals| && forall i :: 0 <= i < |fmt| ==> Fits(fmt[i], vals[i])
  }

  function PackedPrefix(fmt: string, vals: seq<int>, k: nat): (b: seq<U8>)
    requires k <= |fmt| && AllFit(fmt, vals)
    ensures |b| == Before(fmt, k)
  {
    if k == 0 then [] else PackedPrefix(fmt, vals, k - 1) + BigEndian(Width(fmt[k - 1]), vals[k - 1])
  }

  /** struct.pack; nothing where it raises struct.error. */
  function StructPack(fmt: string, vals: seq<int>): Option<seq<U8>> {
    if AllFit(fmt, vals) then Some(PackedPrefix(fmt, vals, |fmt|)) else None
  }

  /** struct.unpack; nothing where it raises struct.error. */
  function StructUnpack(fmt: string, b: seq<U8>): Option<seq<int>> {
    if |b| == CalcSize(fmt) then Some(Values(fmt, b, |fmt|)) else None
  }

  function Values(fmt: string, b: seq<U8>, n: nat): (v: seq<int>)
    requires n <= |fmt| && |b| == CalcSize(fmt)
    ensures |v| == n && forall k :: 0 <= k < n ==> v[k] == ValueAt(fmt, b, k)
  {
    if n == 0 then [] else Values(fmt, b, n - 1) + [ValueAt(fmt, b, n - 1)]
  }

  function ValueAt(fmt: string, b: seq<U8>, k: nat): (v: nat)
    requires k < |fmt| && |b| == CalcSize(fmt)
    ensures Fits(fmt[k], v)
  {
    BeforeGrows(fmt, k + 1, |fmt|);
    var part := b[Before(fmt, k)..Before(fmt, k) + Width(fmt[k])];
    FromBigEndianBound(part);
    FromBigEndian(part)
  }

  lemma {:induction false} PackedPart(fmt: string, vals: seq<int>, n: nat, k: nat)
    requires k < n <= |fmt| && AllFit(fmt, vals)
    ensures Before(fmt, k) + Width(fmt[k]) <= Before(fmt, n)
    ensures PackedPrefix(fmt, vals, n)[Before(fmt, k)..Before(fmt, k) + Width(fmt[k])]
            == BigEndian(Width(fmt[k]), vals[k])
    decreases n
  {
    if k < n - 1 {
      PackedPart(fmt, vals, n - 1, k);
    }
  }

  lemma {:induction false} StructUnpackPack(fmt: string, vals: seq<int>)
    requires StructPack(fmt, vals).Some?
    ensures StructUnpack(fmt, StructPack(fmt, vals).value) == Some(vals)
  {
    var b := StructPack(fmt, vals).value;
    forall k | 0 <= k < |fmt|
      ensures ValueAt(fmt, b, k) == vals[k]
    {
      PackedPart(fmt, vals, |fmt|, k);
      BigEndianRoundTrip(Width(fmt[k]), vals[k]);
    }
    assert StructUnpack(fmt, b).value == vals;
  }

  lemma {:induction false} RepackedValue(fmt: string, b: seq<U8>, k: nat)
    requires k < |fmt| && |b| == CalcSize(fmt)
    ensures Before(fmt, k + 1) <= |b|
    ensures b[..Before(fmt, k)] + BigEndian(Width(fmt[k]), ValueAt(fmt, b, k)) == b[..Before(fmt, k + 1)]
  {
    BeforeGrows(fmt, k + 1, |fmt|);
    var o, e := Before(fmt, k), Before(fmt, k + 1);
    FromBigEndianRoundTrip(b[o..e]);
    Join(b, 0, o, e);
    assert b[0..o] == b[..o] && b[0..e] == b[..e];
  }

  lemma {:induction false} RepackedStep(fmt: string, vals: seq<int>, b: seq<U8>, k: nat)
    requires k < |fmt| && |b| == CalcSize(fmt) && AllFit(fmt, vals) && vals[k] == ValueAt(fmt, b, k)
    requires Before(fmt, k) <= |b| && PackedPrefix(fmt, vals, k) == b[..Before(fmt, k)]
    ensures Before(fmt, k + 1) <= |b| && PackedPrefix(fmt, vals, k + 1) == b[..Before(fmt, k + 1)]
  {
    RepackedValue(fmt, b, k);
  }

  lemma {:induction false} RepackedPrefix(fmt: string, vals: seq<int>, b: seq<U8>, k: nat)
    requires k <= |fmt| && |b| == CalcSize(fmt) && AllFit(fmt, vals)
    requires forall i :: 0 <= i < |fmt| ==> vals[i] == ValueAt(fmt, b, i)
    ensures Before(fmt, k) <= |b| && PackedPrefix(fmt, vals, k) == b[..Before(fmt, k)]
  {
    if k > 0 {
      var j := k - 1;
      RepackedPrefix(fmt, vals, b, j);
      RepackedStep(fmt, vals, b, j);
    }
  }

  lemma {:induction false} StructPackUnpack(fmt: string, b: seq<U8>)
    requires StructUnpack(fmt, b).Some?
    ensures StructPack(fmt, StructUnpack(fmt, b).value) == Some(b)
  {
    var v := StructUnpack(fmt, b).value;
    assert forall i :: 0 <= i < |fmt| ==> v[i] == ValueAt(fmt, b, i) && Fits(fmt[i], v[i]);
    RepackedPrefix(fmt, v, b, |fmt|);
    assert b[..Before(fmt, |fmt|)] == b;
  }

  // ----- Node -----

  datatype DottedQuad = DottedQuad(a: U8, b: U8, c: U8, d: U8) {
    function Bytes(): seq<U8> { [a, b, c, d] }
  }

  datatype PyNode = PyNode(
    nodeId: U32, lat: U64, lon: U64, coordRange: U16, ip: DottedQuad, port: U16,
    radacIp: DottedQuad, radacPort: U16, timestamp: U32)

  const PACKED_SIZE := 38
  const NODE_FORMAT := "IddHIHIHI"
  const HEADER_FORMAT := "HBH"

  /** _ip2int */
  function Ip2Int(addr: DottedQuad): (r: U32)
    ensures r == FromBigEndian(addr.Bytes())
  {
    assert addr.Bytes()[0..4] == addr.Bytes();
    UnpackU32(addr.Bytes(), 0)
  }

  /** _int2ip */
  function Int2Ip(addr: U32): (r: DottedQuad)
    ensures r.Bytes() == BigEndian(4, addr)
  {
    var b := BigEndian(4, addr);
    DottedQuad(b[0], b[1], b[2], b[3])
  }

  lemma {:induction false} IpRoundTrip(addr: DottedQuad, n: U32)
    ensures Int2Ip(Ip2Int(addr)) == addr
    ensures Ip2Int(Int2Ip(n)) == n
  {
    FromBigEndianRoundTrip(addr.Bytes());
    assert Int2Ip(Ip2Int(addr)).Bytes() == addr.Bytes();
    var b, c := addr.Bytes(), Int2Ip(Ip2Int(addr)).Bytes();
    assert b[0] == c[0] && b[1] == c[1] && b[2] == c[2] && b[3] == c[3];
    Powers();
    BigEndianRoundTrip(4, n);
  }

  /** a.b.c.d is the number with these bytes, the first one the most significant. */
  lemma {:induction false} DottedNumber(a: U8, b: U8, c: U8, d: U8)
    ensures Ip2Int(DottedQuad(a, b, c, d)) == a * 0x100_0000 + b * 0x1_0000 + c * 0x100 + d
  {
    var s := DottedQuad(a, b, c, d).Bytes();
    assert s[0] == a && s[1] == b && s[2] == c && s[3] == d;
  }

  /** Node._packable */
  function Packable(n: PyNode): (v: seq<int>)
    ensures |v| == 9
  {
    [n.nodeId, n.lat, n.lon, n.coordRange, Ip2Int(n.ip), n.port, Ip2Int(n.radacIp), n.radacPort, n.timestamp]
  }

  /** Node.pack */
  function PackNode(n: PyNode): Option<seq<U8>> {
    StructPack(NODE_FORMAT, Packable(n))
  }

  predicate Ranges(v: seq<int>) {
    && |v| == 9
    && 0 <= v[0] < 0x1_0000_0000 && 0 <= v[1] < 0x1_0000_0000_0000_0000 && 0 <= v[2] < 0x1_0000_0000_0000_0000
    && 0 <= v[3] < 0x1_0000 && 0 <= v[4] < 0x1_0000_0000 && 0 <= v[5] < 0x1_0000
    && 0 <= v[6] < 0x1_0000_0000 && 0 <= v[7] < 0x1_0000 && 0 <= v[8] < 0x1_0000_0000
  }

  /** The constructor call on the list whose addresses were converted. */
  function Constructed(v: seq<int>): PyNode
    requires Ranges(v)
  {
    PyNode(v[0], v[1], v[2], v[3], Int2Ip(v[4]), v[5], Int2Ip(v[6]), v[7], v[8])
  }

  lemma {:induction false} ConstructedPackable(n: PyNode)
    ensures Constructed(Packable(n)) == n
  {
    IpRoundTrip(n.ip, 0);
    IpRoundTrip(n.radacIp, 0);
  }

  lemma {:induction false} PackableConstructed(v: seq<int>)
    requires Ranges(v)
    ensures Packable(Constructed(v)) == v
  {
    IpRoundTrip(Int2Ip(0), v[4]);
    IpRoundTrip(Int2Ip(0), v[6]);
  }

  /** The nine fields that travel, as the C side lays them out. */
  function Layout(v: seq<int>): seq<Field>
    requires Ranges(v)
  {
    [Field(4, v[0]), Field(8, v[1]), Field(8, v[2]), Field(2, v[3]), Field(4, v[4]), Field(2, v[5]),
     Field(4, v[6]), Field(2, v[7]), Field(4, v[8])]
  }

  lemma {:induction false} FormatFields(fmt: string, vals: seq<int>, fs: seq<Field>, k: nat)
    requires k <= |fmt| == |fs|
    requires AllFit(fmt, vals) && forall i :: 0 <= i < |fmt| ==> fs[i] == Field(Width(fmt[i]), vals[i])
    ensures PackedPrefix(fmt, vals, k) == FieldBytes(fs[..k])
  {
    if k > 0 {
      FormatFields(fmt, vals, fs, k - 1);
      FieldSnoc(fs[..k - 1], fs[k - 1]);
      assert fs[..k] == fs[..k - 1] + [fs[k - 1]];
    }
  }

  lemma {:induction false} FieldSnoc(fs: seq<Field>, f: Field)
    ensures FieldBytes(fs + [f]) == FieldBytes(fs) + BigEndian(f.width, f.value)
  {
    if fs == [] {
      assert fs + [f] == [f] + [];
      FirstField(f, []);
    } else {
      assert (fs + [f])[1..] == fs[1..] + [f];
      FieldSnoc(fs[1..], f);
    }
  }

  lemma {:induction false} NodeFormat(v: seq<int>)
    requires Ranges(v)
    ensures StructPack(NODE_FORMAT, v) == Some(FieldBytes(Layout(v)))
  {
    Powers();
    assert AllFit(NODE_FORMAT, v);
    FormatFields(NODE_FORMAT, v, Layout(v), 9);
    assert Layout(v)[..9] == Layout(v);
  }

  lemma {:induction false} FormatOffsets()
    ensures Before(NODE_FORMAT, 0) == 0 && Before(NODE_FORMAT, 1) == 4 && Before(NODE_FORMAT, 2) == 12
    ensures Before(NODE_FORMAT, 3) == 20 && Before(NODE_FORMAT, 4) == 22 && Before(NODE_FORMAT, 5) == 26
    ensures Before(NODE_FORMAT, 6) == 28 && Before(NODE_FORMAT, 7) == 32 && Before(NODE_FORMAT, 8) == 34
    ensures CalcSize(NODE_FORMAT) == PACKED_SIZE
    ensures Before(HEADER_FORMAT, 0) == 0 && Before(HEADER_FORMAT, 1) == 2 && Before(HEADER_FORMAT, 2) == 3
    ensures CalcSize(HEADER_FORMAT) == 5
  {
    assert Before(NODE_FORMAT, 1) == 4;
    assert Before(NODE_FORMAT, 2) == 12;
    assert Before(NODE_FORMAT, 3) == 20;
    assert Before(NODE_FORMAT, 4) == 22;
    assert Before(NODE_FORMAT, 5) == 26;
    assert Before(NODE_FORMAT, 6) == 28;
    assert Before(NODE_FORMAT, 7) == 32;
    assert Before(NODE_FORMAT, 8) == 34;
    assert Before(HEADER_FORMAT, 1) == 2;
    assert Before(HEADER_FORMAT, 2) == 3;
  }

  /** The bytes of a node; packing never raises for values in range. */
  function BytesOf(n: PyNode): (b: seq<U8>)
    ensures PackNode(n) == Some(b) && |b| == PACKED_SIZE
  {
    NodeFormat(Packable(n));
    FormatOffsets();
    PackNode(n).value
  }

  /** Node.from_bytes */
  function NodeFromBytes(b: seq<U8>): (r: Option<PyNode>)
    ensures r.Some? <==> |b| == PACKED_SIZE
  {
    FormatOffsets();
    match StructUnpack(NODE_FORMAT, b)
    case Some(v) => ValuesInRange(b); Some(Constructed(v))
    case None => None
  }

  lemma {:induction false} FitRanges(v: seq<int>)
    requires AllFit(NODE_FORMAT, v)
    ensures Ranges(v)
  {
    Powers();
    assert Fits(NODE_FORMAT[0], v[0]) && Fits(NODE_FORMAT[1], v[1]) && Fits(NODE_FORMAT[2], v[2]);
    assert Fits(NODE_FORMAT[3], v[3]) && Fits(NODE_FORMAT[4], v[4]) && Fits(NODE_FORMAT[5], v[5]);
    assert Fits(NODE_FORMAT[6], v[6]) && Fits(NODE_FORMAT[7], v[7]) && Fits(NODE_FORMAT[8], v[8]);
  }

  lemma {:induction false} ValuesInRange(b: seq<U8>)
    requires |b| == CalcSize(NODE_FORMAT)
    ensures Ranges(StructUnpack(NODE_FORMAT, b).value)
  {
    var v := StructUnpack(NODE_FORMAT, b).value;
    assert |v| == 9 && AllFit(NODE_FORMAT, v) by {
      assert forall k :: 0 <= k < 9 ==> v[k] == ValueAt(NODE_FORMAT, b, k);
    }
    FitRanges(v);
  }

  lemma {:induction false} NodeFromPack(n: PyNode)
    ensures NodeFromBytes(BytesOf(n)) == Some(n)
  {
    StructUnpackPack(NODE_FORMAT, Packable(n));
    ConstructedPackable(n);
  }

  lemma {:induction false} NodePackFrom(b: seq<U8>)
    requires |b| == PACKED_SIZE
    ensures BytesOf(NodeFromBytes(b).value) == b
  {
    FormatOffsets();
    ValuesInRange(b);
    PackableConstructed(StructUnpack(NODE_FORMAT, b).value);
    StructPackUnpack(NODE_FORMAT, b);
  }

  // ----- NodeCollection -----

  datatype PyCollection = PyCollection(versionId: U16, payloadType: U8, nodes: seq<PyNode>)

  function Joined(s: seq<PyNode>): (b: seq<U8>)
    ensures |b| == 38 * |s|
  {
    if s == [] then [] else Joined(s[..|s| - 1]) + BytesOf(s[|s| - 1])
  }

  /** The bytes of a collection; struct.error for more nodes than the count field can hold. */
  function PyPacked(c: PyCollection): Option<seq<U8>> {
    match StructPack(HEADER_FORMAT, [c.versionId, c.payloadType, |c.nodes|])
    case Some(header) => Some(header + Joined(c.nodes))
    case None => None
  }

  lemma {:induction false} JoinedSnoc(s: seq<PyNode>, i: nat)
    requires i < |s|
    ensures Joined(s[..i + 1]) == Joined(s[..i]) + BytesOf(s[i])
  {
    assert s[..i + 1][..i] == s[..i];
  }

  /** NodeCollection.pack */
  method Pack(c: PyCollection) returns (r: Option<seq<U8>>)
    ensures r == PyPacked(c)
  {
    var header := StructPack(HEADER_FORMAT, [c.versionId, c.payloadType, |c.nodes|]);
    if header.None? {
      return None;
    }
    var p := PackNodes(header.value, c.nodes);
    r := Some(p);
  }

  /** The packing loop. */
  method PackNodes(header: seq<U8>, nodes: seq<PyNode>) returns (p: seq<U8>)
    ensures p == header + Joined(nodes)
  {
    p := header;
    for i := 0 to |nodes|
      invariant p == header + Joined(nodes[..i])
    {
      JoinedSnoc(nodes, i);
      BlockWritten(header, Joined(nodes[..i]), BytesOf(nodes[i]));
      p := p + BytesOf(nodes[i]);
    }
    assert nodes[..|nodes|] == nodes;
  }

  function PyNodeAt(b: seq<U8>, o: nat): PyNode
    requires o + 38 <= |b|
  {
    NodeFromBytes(b[o..o + 38]).value
  }

  function PyNodesAt(b: seq<U8>, k: nat): (s: seq<PyNode>)
    requires Offset(k) <= |b|
    ensures |s| == k
  {
    seq(k, i requires 0 <= i < k => PyNodeAt(b, Offset(i)))
  }

  /** The collection in a buffer; struct.error exactly when the buffer is too short. */
  function PyUnpacked(b: seq<U8>): Option<PyCollection> {
    if WellSized(b) then Some(PyCollection(UnpackU16(b, 0), b[2], PyNodesAt(b, CountField(b)))) else None
  }

  /** b[lo:hi] */
  function Slice(b: seq<U8>, lo: nat, hi: nat): (s: seq<U8>)
    requires lo <= hi
    ensures hi <= |b| ==> s == b[lo..hi]
    ensures hi > |b| ==> |s| < hi - lo || lo == hi
  {
    if hi <= |b| then b[lo..hi] else if lo <= |b| then b[lo..] else []
  }

  lemma {:induction false} HeaderValues(b: seq<U8>)
    requires |b| >= 5
    ensures StructUnpack(HEADER_FORMAT, b[0..5]) == Some([UnpackU16(b, 0), b[2], CountField(b)])
  {
    FormatOffsets();
    var h := b[0..5];
    assert h[0..2] == b[0..2] && h[2..3] == [b[2]] && h[3..5] == b[3..5];
    Horner([], b[2]);
    assert [] + [b[2]] == [b[2]];
    assert ValueAt(HEADER_FORMAT, h, 0) == UnpackU16(b, 0);
    assert ValueAt(HEADER_FORMAT, h, 1) == b[2];
    assert ValueAt(HEADER_FORMAT, h, 2) == CountField(b);
    assert StructUnpack(HEADER_FORMAT, h).value == [UnpackU16(b, 0), b[2], CountField(b)];
  }

  lemma {:induction false} PyNodesAtSnoc(b: seq<U8>, i: nat)
    requires Offset(i + 1) <= |b|
    ensures PyNodesAt(b, i + 1) == PyNodesAt(b, i) + [PyNodeAt(b, Offset(i))]
  {
  }

  /** NodeCollection.from_bytes */
  method FromBytes(b: seq<U8>) returns (r: Option<PyCollection>)
    ensures r == PyUnpacked(b)
  {
    FormatOffsets();
    var header := StructUnpack(HEADER_FORMAT, Slice(b, 0, 5));
    if header.None? {
      return None;
    }
    HeaderValues(b);
    var nodeCount := header.value[2];
    var nodes := UnpackNodes(b, nodeCount);
    if nodes.None? || |nodes.value| != nodeCount {
      return None;
    }
    r := Some(PyCollection(header.value[0], header.value[1], nodes.value));
  }

  /** The unpacking loop. */
  method UnpackNodes(b: seq<U8>, nodeCount: nat) returns (r: Option<seq<PyNode>>)
    requires |b| >= 5
    ensures r == if Offset(nodeCount) <= |b| then Some(PyNodesAt(b, nodeCount)) else None
  {
    var offset := 5;
    var nodes: seq<PyNode> := [];
    for i := 0 to nodeCount
      invariant offset == Offset(i) <= |b|
      invariant nodes == PyNodesAt(b, i)
    {
      var n := UnpackSlot(b, offset);
      if n.None? {
        return None;
      }
      PyNodesAtSnoc(b, i);
      nodes := nodes + [n.value];
      offset := offset + PACKED_SIZE;
    }
    r := Some(nodes);
  }

  /** One turn of that loop. */
  function UnpackSlot(b: seq<U8>, offset: nat): (n: Option<PyNode>)
    ensures n == if offset + 38 <= |b| then Some(PyNodeAt(b, offset)) else None
  {
    NodeFromBytes(Slice(b, offset, offset + PACKED_SIZE))
  }

  // ----- Round trips -----

  lemma {:induction false} HeaderFormat(versionId: U16, payloadType: U8, n: nat)
    ensures n >= 0x1_0000 ==> StructPack(HEADER_FORMAT, [versionId, payloadType, n]) == None
    ensures n < 0x1_0000 ==>
              StructPack(HEADER_FORMAT, [versionId, payloadType, n])
              == Some(BigEndian(2, versionId) + (BigEndian(1, payloadType) + BigEndian(2, n)))
  {
    Powers();
    var v := [versionId, payloadType, n];
    if n < 0x1_0000 {
      assert AllFit(HEADER_FORMAT, v);
      PrefixOfThree(HEADER_FORMAT, v);
    } else {
      assert !Fits(HEADER_FORMAT[2], v[2]);
    }
  }

  lemma {:induction false} PrefixOfThree(fmt: string, v: seq<int>)
    requires |fmt| == 3 && AllFit(fmt, v) && v[0] >= 0 && v[1] >= 0 && v[2] >= 0
    ensures PackedPrefix(fmt, v, 3)
            == BigEndian(Width(fmt[0]), v[0]) + (BigEndian(Width(fmt[1]), v[1]) + BigEndian(Width(fmt[2]), v[2]))
  {
    assert PackedPrefix(fmt, v, 1) == BigEndian(Width(fmt[0]), v[0]);
    assert PackedPrefix(fmt, v, 2) == BigEndian(Width(fmt[0]), v[0]) + BigEndian(Width(fmt[1]), v[1]);
  }

  /** Every collection the count field can hold is packed; the layout is the one of the C side. */
  lemma {:induction false} PackedForm(c: PyCollection)
    ensures PyPacked(c).Some? <==> |c.nodes| < 0x1_0000
    ensures PyPacked(c).Some? ==>
              PyPacked(c).value == BigEndian(2, c.versionId) + (BigEndian(1, c.payloadType) + BigEndian(2, |c.nodes|))
                                   + Joined(c.nodes)
  {
    HeaderFormat(c.versionId, c.payloadType, |c.nodes|);
  }

  lemma {:induction false} HeaderFields(b: seq<U8>, versionId: U16, payloadType: U8, n: nat)
    requires n < 0x1_0000 && |b| >= 5
    requires b[..5] == BigEndian(2, versionId) + (BigEndian(1, payloadType) + BigEndian(2, n))
    ensures UnpackU16(b, 0) == versionId && b[2] == payloadType && CountField(b) == n
  {
    HeaderFormat(versionId, payloadType, n);
    StructUnpackPack(HEADER_FORMAT, [versionId, payloadType, n]);
    HeaderValues(b);
    assert b[0..5] == b[..5];
    var v, u := [versionId, payloadType, n], [UnpackU16(b, 0), b[2], CountField(b)];
    assert v == u;
    assert v[0] == u[0] && v[1] == u[1] && v[2] == u[2];
  }

  lemma {:induction false} JoinedAt(s: seq<PyNode>, i: nat)
    requires i < |s|
    ensures Joined(s)[38 * i..38 * i + 38] == BytesOf(s[i])
  {
    var front := s[..|s| - 1];
    if i < |s| - 1 {
      JoinedAt(front, i);
      assert Joined(s)[38 * i..38 * i + 38] == Joined(front)[38 * i..38 * i + 38];
    }
  }

  /** Reading what Python packed gives the collection back, whatever its floats. */
  lemma {:induction false} PythonUnpackPack(c: PyCollection)
    requires |c.nodes| < 0x1_0000
    ensures PyPacked(c).Some? && PyUnpacked(PyPacked(c).value) == Some(c)
  {
    PackedForm(c);
    var b := PyPacked(c).value;
    HeaderFields(b, c.versionId, c.payloadType, |c.nodes|);
    assert b[5..] == Joined(c.nodes);
    forall i | 0 <= i < |c.nodes|
      ensures PyNodeAt(b, Offset(i)) == c.nodes[i]
    {
      NodeAtOfPacked(b, c.nodes, i);
    }
    assert PyNodesAt(b, |c.nodes|) == c.nodes;
  }

  lemma {:induction false} NodeAtOfPacked(b: seq<U8>, s: seq<PyNode>, i: nat)
    requires i < |s| && |b| == Offset(|s|) && b[5..] == Joined(s)
    ensures PyNodeAt(b, Offset(i)) == s[i]
  {
    JoinedAt(s, i);
    assert b[Offset(i)..Offset(i) + 38] == b[5..][38 * i..38 * i + 38];
    NodeFromPack(s[i]);
  }

  lemma {:induction false} JoinedNodesAt(b: seq<U8>, k: nat)
    requires Offset(k) <= |b|
    ensures Joined(PyNodesAt(b, k)) == b[5..Offset(k)]
  {
    if k > 0 {
      JoinedNodesAt(b, k - 1);
      PyNodesAtSnoc(b, k - 1);
      var s := PyNodesAt(b, k);
      JoinedSnoc(s, k - 1);
      assert s[..k] == s && s[..k - 1] == PyNodesAt(b, k - 1);
      NodePackFrom(b[Offset(k - 1)..Offset(k)]);
      Join(b, 5, Offset(k - 1), Offset(k));
    }
  }

  /** Python writes back every buffer it can read, byte by byte, up to the last announced node. */
  lemma {:induction false} PythonPackUnpack(b: seq<U8>)
    requires PyUnpacked(b).Some?
    ensures PyPacked(PyUnpacked(b).value) == Some(b[..Offset(CountField(b))])
  {
    var c := PyUnpacked(b).value;
    PackedForm(c);
    JoinedNodesAt(b, CountField(b));
    HeaderWriteBack(b);
    Join(b, 0, 5, Offset(CountField(b)));
  }
}
