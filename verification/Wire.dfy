/** The record codec of serialize.c. */
module Wire {
  import opened Records
  import opened Bytes
  import opened Ieee754
  import opened NodeTable
  import opened Steps

  /** Where record `i` starts: five bytes of header, 38 bytes per record. */
  function Offset(i: nat): (o: nat)
    ensures o == 5 + 38 * i
  {
    5 + 38 * i
  }

  /** A decoded collection. */
  datatype Collection = Collection(versionID: U16, ptype: U8, nodes: seq<Node>)

  /** The coordinates are zero or normal doubles. */
  ghost predicate Encodable(n: Node) {
    Representable(n.lat) && Representable(n.lon)
  }

  ghost predicate AllEncodable(s: seq<Node>) {
    forall i :: 0 <= i < |s| ==> Encodable(s[i])
  }

  // ----- The layout -----

  /** An unsigned integer of so many bytes. */
  datatype Field = Field(width: nat, value: nat)

  function FieldBytes(fs: seq<Field>): seq<U8> {
    if fs == [] then [] else BigEndian(fs[0].width, fs[0].value) + FieldBytes(fs[1..])
  }

  /** The nine fields of a record, in the order in which they travel. */
  ghost function Fields(n: Node): seq<Field>
    requires Encodable(n)
  {
    [Field(4, n.nodeID), Field(8, Encode(n.lat)), Field(8, Encode(n.lon)), Field(2, n.coordRange),
     Field(4, n.ipAddr), Field(2, n.port), Field(4, n.radacIp), Field(2, n.radacPort), Field(4, n.timeStamp)]
  }

  ghost function NodeBytes(n: Node): (b: seq<U8>)
    requires Encodable(n)
    ensures |b| == 38
  {
    NodeLength(n);
    FieldBytes(Fields(n))
  }

  lemma {:induction false} NodeLength(n: Node)
    requires Encodable(n)
    ensures |FieldBytes(Fields(n))| == 38
  {
    var _ := NodeTail(n);
  }

  lemma {:induction false} FirstField(f: Field, fs: seq<Field>)
    ensures FieldBytes([f] + fs) == BigEndian(f.width, f.value) + FieldBytes(fs)
  {
    assert ([f] + fs)[1..] == fs;
  }

  /** The bytes of a list of fields, field by field: `t[k]` are those from field `k` on. */
  lemma {:induction false} FieldTails(fs: seq<Field>) returns (t: seq<seq<U8>>)
    ensures |t| == |fs| + 1 && t[0] == FieldBytes(fs) && t[|fs|] == []
    ensures forall k :: 0 <= k < |fs| ==> t[k] == BigEndian(fs[k].width, fs[k].value) + t[k + 1]
  {
    t := seq(|fs| + 1, k requires 0 <= k <= |fs| => FieldBytes(fs[k..]));
    assert fs[0..] == fs && fs[|fs|..] == [];
    forall k | 0 <= k < |fs|
      ensures t[k] == BigEndian(fs[k].width, fs[k].value) + t[k + 1]
    {
      assert fs[k..] == [fs[k]] + fs[k + 1..];
      FirstField(fs[k], fs[k + 1..]);
    }
  }

  lemma {:induction false} NodeTail(n: Node) returns (t: seq<seq<U8>>)
    requires Encodable(n)
    ensures |t| == 10 && t[0] == FieldBytes(Fields(n)) && t[9] == []
    ensures t[0] == BigEndian(4, n.nodeID) + t[1] && t[1] == BigEndian(8, Encode(n.lat)) + t[2]
    ensures t[2] == BigEndian(8, Encode(n.lon)) + t[3] && t[3] == BigEndian(2, n.coordRange) + t[4]
    ensures t[4] == BigEndian(4, n.ipAddr) + t[5] && t[5] == BigEndian(2, n.port) + t[6]
    ensures t[6] == BigEndian(4, n.radacIp) + t[7] && t[7] == BigEndian(2, n.radacPort) + t[8]
    ensures t[8] == BigEndian(4, n.timeStamp) + t[9]
  {
    var fs := Fields(n);
    t := FieldTails(fs);
    assert fs[0] == Field(4, n.nodeID) && fs[1] == Field(8, Encode(n.lat)) && fs[2] == Field(8, Encode(n.lon));
    assert fs[3] == Field(2, n.coordRange) && fs[4] == Field(4, n.ipAddr) && fs[5] == Field(2, n.port);
    assert fs[6] == Field(4, n.radacIp) && fs[7] == Field(2, n.radacPort) && fs[8] == Field(4, n.timeStamp);
  }

  ghost function NodesBytes(s: seq<Node>): (b: seq<U8>)
    requires AllEncodable(s)
    ensures |b| == 38 * |s|
  {
    if s == [] then [] else NodesBytes(s[..|s| - 1]) + NodeBytes(s[|s| - 1])
  }

  ghost function HeaderBytes(c: Collection): (b: seq<U8>)
    ensures |b| == 5
  {
    BigEndian(2, c.versionID) + (BigEndian(1, c.ptype) + BigEndian(2, |c.nodes|))
  }

  /** The bytes of a collection. */
  ghost function PackedBytes(c: Collection): (b: seq<U8>)
    requires AllEncodable(c.nodes)
    ensures |b| == Offset(|c.nodes|)
  {
    HeaderBytes(c) + NodesBytes(c.nodes)
  }

  function CountField(b: seq<U8>): U16
    requires |b| >= 5
  {
    UnpackU16(b, 3)
  }

  /** The buffer holds the header and as many records as the header announces. */
  predicate WellSized(b: seq<U8>) {
    |b| >= 5 && |b| >= Offset(CountField(b))
  }

  ghost function NodeAt(b: seq<U8>, o: nat): Node
    requires o + 38 <= |b|
  {
    Node(UnpackU32(b, o), Decode(UnpackU64(b, o + 4)), Decode(UnpackU64(b, o + 12)), UnpackU16(b, o + 20),
         UnpackU32(b, o + 22), UnpackU16(b, o + 26), UnpackU32(b, o + 34), UnpackU32(b, o + 28),
         UnpackU16(b, o + 32), 0.0)
  }

  /** The first `k` records of a buffer. */
  ghost function NodesAt(b: seq<U8>, k: nat): (s: seq<Node>)
    requires Offset(k) <= |b|
    ensures |s| == k
  {
    seq(k, i requires 0 <= i < k => NodeAt(b, Offset(i)))
  }

  /** The collection a well-sized buffer describes. */
  ghost function Unpacked(b: seq<U8>): Collection
    requires WellSized(b)
  {
    Collection(UnpackU16(b, 0), b[2], NodesAt(b, CountField(b)))
  }

  /** Every coordinate in the buffer is the pattern of zero or of a normal double. */
  ghost predicate CanonicalDoubles(b: seq<U8>)
    requires WellSized(b)
  {
    forall i :: 0 <= i < CountField(b) ==> CanonicalAt(b, Offset(i))
  }

  ghost predicate CanonicalAt(b: seq<U8>, o: nat)
    requires o + 38 <= |b|
  {
    Canonical(UnpackU64(b, o + 4)) && Canonical(UnpackU64(b, o + 12))
  }

  // ----- Splitting and joining -----

  lemma {:induction false} Split(b: seq<U8>, o: nat, head: seq<U8>, tail: seq<U8>)
    requires o + |head| + |tail| <= |b|
    requires b[o..o + |head| + |tail|] == head + tail
    ensures b[o..o + |head|] == head
    ensures b[o + |head|..o + |head| + |tail|] == tail
  {
    var part := b[o..o + |head| + |tail|];
    assert part[..|head|] == head && part[|head|..] == tail;
    assert b[o..o + |head|] == part[..|head|];
    assert b[o + |head|..o + |head| + |tail|] == part[|head|..];
  }

  lemma {:induction false} Join(b: seq<U8>, o: nat, m: nat, e: nat)
    requires o <= m <= e <= |b|
    ensures b[o..e] == b[o..m] + b[m..e]
  {
  }

  /** A node written anywhere in a buffer is read back from there. */
  lemma {:induction false} NodeReadBack(b: seq<U8>, o: nat, n: Node)
    requires Encodable(n) && o + 38 <= |b| && b[o..o + 38] == NodeBytes(n)
    ensures NodeAt(b, o) == n.Wire()
  {
    var t := NodeTail(n);
    Split(b, o, BigEndian(4, n.nodeID), t[1]);
    Split(b, o + 4, BigEndian(8, Encode(n.lat)), t[2]);
    Split(b, o + 12, BigEndian(8, Encode(n.lon)), t[3]);
    Split(b, o + 20, BigEndian(2, n.coordRange), t[4]);
    Split(b, o + 22, BigEndian(4, n.ipAddr), t[5]);
    Split(b, o + 26, BigEndian(2, n.port), t[6]);
    Split(b, o + 28, BigEndian(4, n.radacIp), t[7]);
    Split(b, o + 32, BigEndian(2, n.radacPort), t[8]);
    Split(b, o + 34, BigEndian(4, n.timeStamp), t[9]);
    Powers();
    BigEndianRoundTrip(4, n.nodeID);
    BigEndianRoundTrip(8, Encode(n.lat));
    BigEndianRoundTrip(8, Encode(n.lon));
    BigEndianRoundTrip(2, n.coordRange);
    BigEndianRoundTrip(4, n.ipAddr);
    BigEndianRoundTrip(2, n.port);
    BigEndianRoundTrip(4, n.radacIp);
    BigEndianRoundTrip(2, n.radacPort);
    BigEndianRoundTrip(4, n.timeStamp);
    DecodeEncode(n.lat);
    DecodeEncode(n.lon);
  }

  /** A node read from a buffer is written back as the same bytes. */
  lemma {:induction false} NodeWriteBack(b: seq<U8>, o: nat)
    requires o + 38 <= |b| && CanonicalAt(b, o)
    ensures Encodable(NodeAt(b, o)) && NodeBytes(NodeAt(b, o)) == b[o..o + 38]
  {
    DoubleWriteBack(b, o + 4);
    DoubleWriteBack(b, o + 12);
    FromBigEndianRoundTrip(b[o..o + 4]);
    FromBigEndianRoundTrip(b[o + 20..o + 22]);
    FromBigEndianRoundTrip(b[o + 22..o + 26]);
    FromBigEndianRoundTrip(b[o + 26..o + 28]);
    FromBigEndianRoundTrip(b[o + 28..o + 32]);
    FromBigEndianRoundTrip(b[o + 32..o + 34]);
    FromBigEndianRoundTrip(b[o + 34..o + 38]);
    var t := NodeTail(NodeAt(b, o));
    NineJoined(b, o, t);
  }

  lemma {:induction false} DoubleWriteBack(b: seq<U8>, o: nat)
    requires o + 8 <= |b| && Canonical(UnpackU64(b, o))
    ensures Representable(Decode(UnpackU64(b, o)))
    ensures BigEndian(8, Encode(Decode(UnpackU64(b, o)))) == b[o..o + 8]
  {
    EncodeDecode(UnpackU64(b, o));
    FromBigEndianRoundTrip(b[o..o + 8]);
  }

  /** Nine slices of the buffer in a row make up the whole record. */
  lemma {:induction false} NineJoined(b: seq<U8>, o: nat, t: seq<seq<U8>>)
    requires o + 38 <= |b| && |t| == 10 && t[9] == []
    requires t[0] == b[o..o + 4] + t[1] && t[1] == b[o + 4..o + 12] + t[2] && t[2] == b[o + 12..o + 20] + t[3]
    requires t[3] == b[o + 20..o + 22] + t[4] && t[4] == b[o + 22..o + 26] + t[5] && t[5] == b[o + 26..o + 28] + t[6]
    requires t[6] == b[o + 28..o + 32] + t[7] && t[7] == b[o + 32..o + 34] + t[8] && t[8] == b[o + 34..o + 38] + t[9]
    ensures t[0] == b[o..o + 38]
  {
    assert t[8] == b[o + 34..o + 38];
    Join(b, o + 32, o + 34, o + 38);
    Join(b, o + 28, o + 32, o + 38);
    Join(b, o + 26, o + 28, o + 38);
    Join(b, o + 22, o + 26, o + 38);
    Join(b, o + 20, o + 22, o + 38);
    Join(b, o + 12, o + 20, o + 38);
    Join(b, o + 4, o + 12, o + 38);
    Join(b, o, o + 4, o + 38);
  }

  lemma {:induction false} NodesBytesAt(s: seq<Node>, i: nat)
    requires AllEncodable(s) && i < |s|
    ensures NodesBytes(s)[38 * i..38 * i + 38] == NodeBytes(s[i])
  {
    var front := s[..|s| - 1];
    if i < |s| - 1 {
      NodesBytesAt(front, i);
      assert NodesBytes(s)[38 * i..38 * i + 38] == NodesBytes(front)[38 * i..38 * i + 38];
    }
  }

  // ----- The round trips -----

  /** Unpacking what was packed restores version, type, count and all nine fields of every record,
      in order. */
  lemma {:induction false} UnpackPack(c: Collection)
    requires AllEncodable(c.nodes) && |c.nodes| < 0x1_0000
    ensures WellSized(PackedBytes(c)) && |PackedBytes(c)| == Offset(|c.nodes|)
    ensures Unpacked(PackedBytes(c)) == Collection(c.versionID, c.ptype, OnWire(c.nodes))
  {
    var b := PackedBytes(c);
    HeaderReadBack(b, c);
    assert b[5..] == NodesBytes(c.nodes);
    NodesReadBack(b, c.nodes, |c.nodes|);
    assert c.nodes[..|c.nodes|] == c.nodes;
  }

  lemma {:induction false} NodesReadBack(b: seq<U8>, s: seq<Node>, k: nat)
    requires AllEncodable(s) && k <= |s| && |b| == Offset(|s|) && b[5..] == NodesBytes(s)
    ensures NodesAt(b, k) == OnWire(s[..k])
  {
    if k > 0 {
      NodesReadBack(b, s, k - 1);
      NodesReadOn(b, s, k - 1);
    }
  }

  lemma {:induction false} NodesReadOn(b: seq<U8>, s: seq<Node>, i: nat)
    requires AllEncodable(s) && i < |s| && |b| == Offset(|s|) && b[5..] == NodesBytes(s)
    requires NodesAt(b, i) == OnWire(s[..i])
    ensures NodesAt(b, i + 1) == OnWire(s[..i + 1])
  {
    var front, n := s[..i], s[i];
    assert s[..i + 1] == front + [n];
    NodeReadBackAt(b, s, i);
    NodesAtSnoc(b, i, front, n);
  }

  lemma {:induction false} NodeReadBackAt(b: seq<U8>, s: seq<Node>, i: nat)
    requires AllEncodable(s) && i < |s| && |b| == Offset(|s|) && b[5..] == NodesBytes(s)
    ensures NodeAt(b, Offset(i)) == s[i].Wire()
  {
    NodesBytesAt(s, i);
    assert b[Offset(i)..Offset(i) + 38] == b[5..][38 * i..38 * i + 38];
    NodeReadBack(b, Offset(i), s[i]);
  }

  lemma {:induction false} HeaderReadBack(b: seq<U8>, c: Collection)
    requires |c.nodes| < 0x1_0000 && |b| >= 5 && b[..5] == HeaderBytes(c)
    ensures UnpackU16(b, 0) == c.versionID && b[2] == c.ptype && CountField(b) == |c.nodes|
  {
    assert b[0..5] == b[..5];
    var tail := BigEndian(1, c.ptype) + BigEndian(2, |c.nodes|);
    Split(b, 0, BigEndian(2, c.versionID), tail);
    Split(b, 2, BigEndian(1, c.ptype), BigEndian(2, |c.nodes|));
    Powers();
    BigEndianRoundTrip(2, c.versionID);
    BigEndianRoundTrip(2, |c.nodes|);
    assert b[2..3][0] == b[2] && BigEndian(1, c.ptype)[0] == c.ptype;
  }

  lemma {:induction false} HeaderWriteBack(b: seq<U8>)
    requires WellSized(b)
    ensures HeaderBytes(Unpacked(b)) == b[..5]
  {
    FromBigEndianRoundTrip(b[0..2]);
    FromBigEndianRoundTrip(b[3..5]);
    assert BigEndian(1, b[2]) == [b[2]] == b[2..3];
    Join(b, 2, 3, 5);
    Join(b, 0, 2, 5);
  }

  lemma {:induction false} NodesWriteBack(b: seq<U8>, k: nat)
    requires Offset(k) <= |b|
    requires forall i :: 0 <= i < k ==> CanonicalAt(b, Offset(i))
    ensures AllEncodable(NodesAt(b, k)) && NodesBytes(NodesAt(b, k)) == b[5..Offset(k)]
  {
    if k > 0 {
      NodesWriteBack(b, k - 1);
      assert CanonicalAt(b, Offset(k - 1));
      NodesAtSplit(b, k - 1);
      NodeWriteBackAfter(b, k - 1, NodesAt(b, k - 1));
    }
  }

  lemma {:induction false} NodeWriteBackAfter(b: seq<U8>, i: nat, s: seq<Node>)
    requires Offset(i + 1) <= |b| && CanonicalAt(b, Offset(i))
    requires AllEncodable(s) && NodesBytes(s) == b[5..Offset(i)]
    ensures AllEncodable(s + [NodeAt(b, Offset(i))])
    ensures NodesBytes(s + [NodeAt(b, Offset(i))]) == b[5..Offset(i + 1)]
  {
    NodeWriteBack(b, Offset(i));
    BlockAfter(b, i, s, NodeAt(b, Offset(i)));
  }

  lemma {:induction false} BlockAfter(b: seq<U8>, i: nat, s: seq<Node>, n: Node)
    requires Offset(i + 1) <= |b| && AllEncodable(s) && Encodable(n)
    requires NodesBytes(s) == b[5..Offset(i)] && NodeBytes(n) == b[Offset(i)..Offset(i) + 38]
    ensures AllEncodable(s + [n]) && NodesBytes(s + [n]) == b[5..Offset(i + 1)]
  {
    NodesBytesSnoc(s, n);
    Join(b, 5, Offset(i), Offset(i + 1));
  }

  lemma {:induction false} NodesBytesSnoc(s: seq<Node>, n: Node)
    requires AllEncodable(s) && Encodable(n)
    ensures AllEncodable(s + [n]) && NodesBytes(s + [n]) == NodesBytes(s) + NodeBytes(n)
  {
    assert (s + [n])[..|s|] == s;
  }

  /** Packing what was unpacked gives back the bytes of every well-sized buffer whose coordinates
      are zero or normal doubles. */
  lemma {:induction false} PackUnpack(b: seq<U8>)
    requires WellSized(b) && CanonicalDoubles(b)
    ensures AllEncodable(Unpacked(b).nodes)
    ensures PackedBytes(Unpacked(b)) == b[..Offset(CountField(b))]
  {
    HeaderWriteBack(b);
    NodesWriteBack(b, CountField(b));
    Join(b, 0, 5, Offset(CountField(b)));
  }

  // ----- The code -----

  /** packdouble */
  method PackDouble(buf: array<U8>, o: nat, f: real)
    requires o + 8 <= buf.Length && Representable(f)
    modifies buf
    ensures buf[..o + 8] == old(buf[..o]) + BigEndian(8, Encode(f))
  {
    RepresentableIsFinite(f);
    var bits := Enc754(f);
    Pack64(buf, o, bits);
  }

  /** The part of the prefix still to be written shrinks by each field. */
  lemma {:induction false} FieldWritten(before: seq<U8>, head: seq<U8>, tail: seq<U8>, after: seq<U8>)
    requires after == before + head
    ensures after + tail == before + (head + tail)
  {
  }

  /** The body of the packing loop: one record. */
  method PackNode(buff: array<U8>, sz: nat, n: Node)
    requires sz + 38 <= buff.Length && Encodable(n)
    modifies buff
    ensures buff[..sz + 38] == old(buff[..sz]) + NodeBytes(n)
  {
    ghost var t := NodeTail(n);
    ghost var at := buff[..sz];
    Pack32(buff, sz, n.nodeID);
    FieldWritten(at, BigEndian(4, n.nodeID), t[1], buff[..sz + 4]);
    at := buff[..sz + 4];
    PackDouble(buff, sz + 4, n.lat);
    FieldWritten(at, BigEndian(8, Encode(n.lat)), t[2], buff[..sz + 12]);
    at := buff[..sz + 12];
    PackDouble(buff, sz + 12, n.lon);
    FieldWritten(at, BigEndian(8, Encode(n.lon)), t[3], buff[..sz + 20]);
    at := buff[..sz + 20];
    Pack16(buff, sz + 20, n.coordRange);
    FieldWritten(at, BigEndian(2, n.coordRange), t[4], buff[..sz + 22]);
    at := buff[..sz + 22];
    Pack32(buff, sz + 22, n.ipAddr);
    FieldWritten(at, BigEndian(4, n.ipAddr), t[5], buff[..sz + 26]);
    at := buff[..sz + 26];
    Pack16(buff, sz + 26, n.port);
    FieldWritten(at, BigEndian(2, n.port), t[6], buff[..sz + 28]);
    at := buff[..sz + 28];
    Pack32(buff, sz + 28, n.radacIp);
    FieldWritten(at, BigEndian(4, n.radacIp), t[7], buff[..sz + 32]);
    at := buff[..sz + 32];
    Pack16(buff, sz + 32, n.radacPort);
    FieldWritten(at, BigEndian(2, n.radacPort), t[8], buff[..sz + 34]);
    at := buff[..sz + 34];
    Pack32(buff, sz + 34, n.timeStamp);
    FieldWritten(at, BigEndian(4, n.timeStamp), t[9], buff[..sz + 38]);
  }

  method PackHeader(buff: array<U8>, nc: NodeCollection)
    requires buff.Length >= 5
    modifies buff
    ensures buff[..5] == BigEndian(2, nc.versionID) + (BigEndian(1, nc.payloadType) + BigEndian(2, nc.nodeCount))
  {
    Pack16(buff, 0, nc.versionID);
    Pack8(buff, 2, nc.payloadType);
    Pack16(buff, 3, nc.nodeCount);
    assert buff[..5] == (BigEndian(2, nc.versionID) + BigEndian(1, nc.payloadType)) + BigEndian(2, nc.nodeCount);
  }

  /** NodeCollection_pack */
  method Pack(nc: NodeCollection) returns (buff: array<U8>, size: int)
    requires nc.Valid() && AllEncodable(nc.Contents())
    ensures fresh(buff) && size == buff.Length == Offset(nc.nodeCount)
    ensures buff[..] == PackedBytes(Collection(nc.versionID, nc.payloadType, nc.Contents()))
  {
    ghost var s := nc.Contents();
    ghost var header := HeaderBytes(Collection(nc.versionID, nc.payloadType, s));
    buff := new U8[5 + 38 * nc.nodeCount];
    PackHeader(buff, nc);
    var sz, i := 5, 0;
    while i < nc.nodeCount
      invariant 0 <= i <= nc.nodeCount && sz == Offset(i)
      invariant buff[..sz] == header + NodesBytes(s[..i])
      modifies buff
    {
      assert nc.nodes[i] == s[i];
      PackSlot(buff, sz, nc.nodes[i], header, s, i);
      sz := sz + 38;
      i := i + 1;
    }
    assert s[..i] == s;
    assert buff[..] == buff[..sz];
    size := sz;
  }

  /** One turn of that loop. */
  method PackSlot(buff: array<U8>, sz: nat, n: Node, ghost header: seq<U8>, ghost s: seq<Node>, ghost i: nat)
    requires i < |s| && n == s[i] && AllEncodable(s)
    requires sz + 38 <= buff.Length && buff[..sz] == header + NodesBytes(s[..i])
    modifies buff
    ensures buff[..sz + 38] == header + NodesBytes(s[..i + 1])
  {
    PackNode(buff, sz, n);
    NodesBytesSnoc(s[..i], n);
    assert s[..i] + [n] == s[..i + 1];
    BlockWritten(header, NodesBytes(s[..i]), NodeBytes(n));
  }

  lemma {:induction false} BlockWritten(a: seq<U8>, b: seq<U8>, c: seq<U8>)
    ensures (a + b) + c == a + (b + c)
  {
  }

  /** NodeCollection_unpack: nothing for an empty buffer; the cached utilities stay undefined. */
  method Unpack(buff: seq<U8>, size: int) returns (nc: NodeCollection?)
    requires size > 0 ==> WellSized(buff)
    ensures size <= 0 <==> nc == null
    ensures nc != null ==>
              && fresh(nc) && fresh(nc.nodes) && nc.Valid()
              && nc.maxNodeCount == nc.nodeCount
              && Collection(nc.versionID, nc.payloadType, OnWire(nc.Contents())) == Unpacked(buff)
  {
    nc := null;
    if size > 0 {
      nc := new NodeCollection(UnpackU16(buff, 0), buff[2], UnpackU16(buff, 3));
      UnpackNodes(buff, nc);
    }
  }

  /** The unpacking loop. */
  method UnpackNodes(buff: seq<U8>, nc: NodeCollection)
    requires nc.Valid() && Offset(nc.maxNodeCount) <= |buff|
    modifies nc`nodeCount, nc.nodes
    ensures nc.Valid() && nc.nodeCount == nc.maxNodeCount
    ensures OnWire(nc.Contents()) == NodesAt(buff, nc.nodeCount)
  {
    nc.nodeCount := nc.maxNodeCount;
    var i := 0;
    while i < nc.nodeCount
      invariant 0 <= i <= nc.nodeCount
      invariant OnWire(nc.nodes[..i]) == NodesAt(buff, i)
      modifies nc.nodes
    {
      UnpackSlot(buff, nc, i);
      i := i + 1;
    }
    assert nc.nodes[..i] == nc.Contents();
  }

  /** One turn of that loop. */
  method UnpackSlot(buff: seq<U8>, nc: NodeCollection, i: nat)
    requires i < nc.nodes.Length && Offset(i + 1) <= |buff|
    requires OnWire(nc.nodes[..i]) == NodesAt(buff, i)
    modifies nc.nodes
    ensures OnWire(nc.nodes[..i + 1]) == NodesAt(buff, i + 1)
  {
    ghost var before := nc.nodes[..i];
    var n := UnpackNode(buff, Offset(i), nc.nodes[i]);
    NodesAtSnoc(buff, i, before, n);
    nc.nodes[i] := n;
    assert nc.nodes[..i + 1] == before + [n];
  }

  lemma {:induction false} NodesAtSnoc(b: seq<U8>, i: nat, before: seq<Node>, n: Node)
    requires Offset(i + 1) <= |b|
    requires OnWire(before) == NodesAt(b, i) && n.Wire() == NodeAt(b, Offset(i))
    ensures OnWire(before + [n]) == NodesAt(b, i + 1)
  {
    OnWireSnoc(before, n);
    NodesAtSplit(b, i);
  }

  lemma {:induction false} NodesAtSplit(b: seq<U8>, i: nat)
    requires Offset(i + 1) <= |b|
    ensures NodesAt(b, i + 1) == NodesAt(b, i) + [NodeAt(b, Offset(i))]
  {
  }

  lemma {:induction false} OnWireSnoc(s: seq<Node>, n: Node)
    ensures OnWire(s + [n]) == OnWire(s) + [n.Wire()]
  {
  }

  /** The body of the unpacking loop: all fields but the cached utility are set. */
  method UnpackNode(b: seq<U8>, o: nat, slot: Node) returns (n: Node)
    requires o + 38 <= |b|
    ensures n.Wire() == NodeAt(b, o) && n.utility == slot.utility
  {
    var lat := Dec754(UnpackU64(b, o + 4));
    var lon := Dec754(UnpackU64(b, o + 12));
    n := slot.(nodeID := UnpackU32(b, o), lat := lat, lon := lon, coordRange := UnpackU16(b, o + 20),
               ipAddr := UnpackU32(b, o + 22), port := UnpackU16(b, o + 26), radacIp := UnpackU32(b, o + 28),
               radacPort := UnpackU16(b, o + 32), timeStamp := UnpackU32(b, o + 34));
  }
}
