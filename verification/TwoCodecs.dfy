/** The C and the Python codec agree: on collections, and on local requests, which only Python
    writes and only C reads. */
module TwoCodecs {
  import opened Collections
  import opened Records
  import opened Bytes
  import opened Ieee754
  import opened Subscribers
  import opened Steps
  import opened Wire
  import LocalWire
  import opened PythonWire

  // ----- Collections -----

  /** The two sides hold the same record. A Python float stands for the number its pattern denotes
      by the standard. */
  predicate Alike(n: Node, p: PyNode) {
    && n.nodeID == p.nodeId && n.coordRange == p.coordRange && n.timeStamp == p.timestamp
    && n.ipAddr == Ip2Int(p.ip) && n.port == p.port
    && n.radacIp == Ip2Int(p.radacIp) && n.radacPort == p.radacPort
    && n.lat == StandardValue(p.lat) && n.lon == StandardValue(p.lon)
  }

  ghost predicate AllAlike(s: seq<Node>, t: seq<PyNode>) {
    |s| == |t| && forall i :: 0 <= i < |s| ==> Alike(s[i], t[i])
  }

  ghost predicate SameCollection(c: Collection, p: PyCollection) {
    c.versionID == p.versionId && c.ptype == p.payloadType && AllAlike(c.nodes, p.nodes)
  }

  ghost predicate NormalFloats(p: PyNode) {
    Canonical(p.lat) && Canonical(p.lon)
  }

  lemma {:induction false} PatternOf(f: real, b: U64)
    requires Canonical(b) && f == StandardValue(b)
    ensures Representable(f) && Encode(f) == b
  {
    CanonicalIff(b);
    DecodeAgreesIff(b);
    EncodeDecode(b);
  }

  lemma {:induction false} NodesPackAlike(n: Node, p: PyNode)
    requires Alike(n, p) && NormalFloats(p)
    ensures Encodable(n) && NodeBytes(n) == BytesOf(p)
  {
    PatternOf(n.lat, p.lat);
    PatternOf(n.lon, p.lon);
    NodeFormat(Packable(p));
    assert Layout(Packable(p)) == Fields(n);
  }

  lemma {:induction false} AllPackAlike(s: seq<Node>, t: seq<PyNode>)
    requires AllAlike(s, t) && forall i :: 0 <= i < |t| ==> NormalFloats(t[i])
    ensures AllEncodable(s) && NodesBytes(s) == Joined(t)
  {
    if s != [] {
      var k := |s| - 1;
      AllPackAlike(s[..k], t[..k]);
      NodesPackAlike(s[k], t[k]);
      NodesBytesSnoc(s[..k], s[k]);
      assert s[..k] + [s[k]] == s;
    }
  }

  /** Equal collections have equal bytes on both sides. */
  lemma {:induction false} PackedAlike(c: Collection, p: PyCollection)
    requires SameCollection(c, p) && |c.nodes| < 0x1_0000
    requires forall i :: 0 <= i < |p.nodes| ==> NormalFloats(p.nodes[i])
    ensures AllEncodable(c.nodes) && PyPacked(p) == Some(PackedBytes(c))
  {
    AllPackAlike(c.nodes, p.nodes);
    PackedForm(p);
  }

  /** The record as Python holds it. */
  ghost function ToPython(n: Node): PyNode
    requires Encodable(n)
  {
    PyNode(n.nodeID, Encode(n.lat), Encode(n.lon), n.coordRange, Int2Ip(n.ipAddr), n.port,
           Int2Ip(n.radacIp), n.radacPort, n.timeStamp)
  }

  lemma {:induction false} NumberOf(f: real)
    requires Representable(f)
    ensures Canonical(Encode(f)) && StandardValue(Encode(f)) == f
  {
    var d :| Denotes(d, f);
    assert Encodes(d, Encode(f));
    CanonicalIff(Encode(f));
    DecodeAgreesIff(Encode(f));
    DecodeEncode(f);
  }

  lemma {:induction false} ToPythonAlike(n: Node)
    requires Encodable(n)
    ensures Alike(n, ToPython(n)) && NormalFloats(ToPython(n))
  {
    NumberOf(n.lat);
    NumberOf(n.lon);
    IpRoundTrip(Int2Ip(0), n.ipAddr);
    IpRoundTrip(Int2Ip(0), n.radacIp);
  }

  /** Python reads whatever the C side packs. */
  lemma {:induction false} PythonReadsPacked(c: Collection)
    requires AllEncodable(c.nodes) && |c.nodes| < 0x1_0000
    ensures PyUnpacked(PackedBytes(c)).Some? && SameCollection(c, PyUnpacked(PackedBytes(c)).value)
  {
    var t := seq(|c.nodes|, i requires 0 <= i < |c.nodes| => ToPython(c.nodes[i]));
    forall i | 0 <= i < |t|
      ensures Alike(c.nodes[i], t[i]) && NormalFloats(t[i])
    {
      ToPythonAlike(c.nodes[i]);
    }
    var p := PyCollection(c.versionID, c.ptype, t);
    PackedAlike(c, p);
    PythonUnpackPack(p);
  }

  /** No pattern in the buffer is an infinity or a NaN. */
  predicate FiniteAt(b: seq<U8>, o: nat)
    requires o + 38 <= |b|
  {
    ExponentField(UnpackU64(b, o + 4)) <= 2046 && ExponentField(UnpackU64(b, o + 12)) <= 2046
  }

  lemma {:induction false} NodeParts(b: seq<U8>, o: nat)
    requires o + 38 <= |b|
    ensures PyNodeAt(b, o)
            == PyNode(UnpackU32(b, o), UnpackU64(b, o + 4), UnpackU64(b, o + 12), UnpackU16(b, o + 20),
                      Int2Ip(UnpackU32(b, o + 22)), UnpackU16(b, o + 26), Int2Ip(UnpackU32(b, o + 28)),
                      UnpackU16(b, o + 32), UnpackU32(b, o + 34))
  {
    var s := b[o..o + 38];
    FormatOffsets();
    var v := StructUnpack(NODE_FORMAT, s).value;
    assert forall k :: 0 <= k < 9 ==> v[k] == ValueAt(NODE_FORMAT, s, k);
    ValuesInRange(s);
    assert PyNodeAt(b, o) == Constructed(v);
    Parts(b, o, s);
  }

  lemma {:induction false} Parts(b: seq<U8>, o: nat, s: seq<U8>)
    requires o + 38 <= |b| && s == b[o..o + 38] && |s| == CalcSize(NODE_FORMAT)
    ensures ValueAt(NODE_FORMAT, s, 0) == UnpackU32(b, o) && ValueAt(NODE_FORMAT, s, 1) == UnpackU64(b, o + 4)
    ensures ValueAt(NODE_FORMAT, s, 2) == UnpackU64(b, o + 12) && ValueAt(NODE_FORMAT, s, 3) == UnpackU16(b, o + 20)
    ensures ValueAt(NODE_FORMAT, s, 4) == UnpackU32(b, o + 22) && ValueAt(NODE_FORMAT, s, 5) == UnpackU16(b, o + 26)
    ensures ValueAt(NODE_FORMAT, s, 6) == UnpackU32(b, o + 28) && ValueAt(NODE_FORMAT, s, 7) == UnpackU16(b, o + 32)
    ensures ValueAt(NODE_FORMAT, s, 8) == UnpackU32(b, o + 34)
  {
    FormatOffsets();
    SubSlice(b, o, 0, 4);
    SubSlice(b, o, 4, 12);
    SubSlice(b, o, 12, 20);
    SubSlice(b, o, 20, 22);
    SubSlice(b, o, 22, 26);
    SubSlice(b, o, 26, 28);
    SubSlice(b, o, 28, 32);
    SubSlice(b, o, 32, 34);
    SubSlice(b, o, 34, 38);
  }

  lemma {:induction false} SubSlice(b: seq<U8>, o: nat, lo: nat, hi: nat)
    requires lo <= hi <= 38 && o + 38 <= |b|
    ensures b[o..o + 38][lo..hi] == b[o + lo..o + hi]
  {
    var s, t := b[o..o + 38][lo..hi], b[o + lo..o + hi];
    forall k | 0 <= k < hi - lo
      ensures s[k] == t[k]
    {
      assert s[k] == b[o..o + 38][lo + k] == b[o + (lo + k)];
    }
  }

  lemma {:induction false} NodesReadAlikeIff(b: seq<U8>, o: nat)
    requires o + 38 <= |b| && FiniteAt(b, o)
    ensures Alike(NodeAt(b, o), PyNodeAt(b, o)) <==> CanonicalAt(b, o)
  {
    NodeParts(b, o);
    var p := PyNodeAt(b, o);
    IpRoundTrip(p.ip, UnpackU32(b, o + 22));
    IpRoundTrip(p.radacIp, UnpackU32(b, o + 28));
    DecodeAgreesIff(UnpackU64(b, o + 4));
    DecodeAgreesIff(UnpackU64(b, o + 12));
  }

  /** Both sides read the same collection from a buffer of finite doubles exactly when all of these
      are plus zero or normal: only the C decoder misreads minus zero and subnormal numbers. */
  lemma {:induction false} ReadAlikeIff(b: seq<U8>)
    requires WellSized(b) && forall i :: 0 <= i < CountField(b) ==> FiniteAt(b, Offset(i))
    ensures PyUnpacked(b).Some?
    ensures SameCollection(Unpacked(b), PyUnpacked(b).value) <==> CanonicalDoubles(b)
  {
    var c, p := Unpacked(b), PyUnpacked(b).value;
    forall i | 0 <= i < CountField(b)
      ensures Alike(c.nodes[i], p.nodes[i]) <==> CanonicalAt(b, Offset(i))
    {
      NodesReadAlikeIff(b, Offset(i));
    }
  }

  // ----- Local requests -----

  /** The fields of a message; those its type does not use stay None. A float stands by its
      pattern, a path by its bytes. */
  datatype IPCMessage = IPCMessage(
    messageType: int, coordRange: Option<int>, position: Option<(U64, U64)>, sockPath: Option<seq<U8>>)

  function SetPosition(lat: U64, lon: U64): IPCMessage {
    IPCMessage(SET_POSITION, None, Some((lat, lon)), None)
  }

  function SetCoordinationRange(r: int): IPCMessage {
    IPCMessage(SET_COORDINATION_RANGE, Some(r), None, None)
  }

  function Subscribe(path: seq<U8>): IPCMessage {
    IPCMessage(SUB_CANDNODES, None, None, Some(path))
  }

  function Unsubscribe(path: seq<U8>): IPCMessage {
    IPCMessage(UNSUB_CANDNODES, None, None, Some(path))
  }

  /** struct.pack of one byte and a byte string of its own length */
  function TypeAndString(t: U8, s: seq<U8>): seq<U8> {
    BigEndian(1, t) + s
  }

  /** IPCMessage.pack: nothing where it raises, no bytes for deprecated and unknown types. */
  function MessageBytes(m: IPCMessage): Option<seq<U8>> {
    if m.messageType == SET_POSITION then
      match m.position
      case Some((lat, lon)) => StructPack("Bdd", [m.messageType, lat, lon])
      case None => None
    else if m.messageType == SET_COORDINATION_RANGE then
      match m.coordRange
      case Some(r) => StructPack("BH", [m.messageType, r])
      case None => None
    else if m.messageType == SUB_CANDNODES || m.messageType == UNSUB_CANDNODES then
      match m.sockPath
      case Some(path) => Some(TypeAndString(m.messageType, path))
      case None => None
    else
      Some([])
  }

  /** What the daemon makes of the datagram. */
  ghost function Arrives(msg: seq<U8>): Option<LocalRequest> {
    LocalWire.Requested(LocalWire.Buffer(msg), LocalWire.ReadSize(msg))
  }

  lemma {:induction false} PositionBytes(lat: U64, lon: U64)
    ensures MessageBytes(SetPosition(lat, lon)) == Some([SET_POSITION] + (BigEndian(8, lat) + BigEndian(8, lon)))
  {
    Powers();
    var v := [SET_POSITION, lat, lon];
    assert AllFit("Bdd", v);
    PrefixOfThree("Bdd", v);
    assert BigEndian(1, SET_POSITION) == [SET_POSITION];
  }

  lemma {:induction false} RangeBytes(r: int)
    ensures MessageBytes(SetCoordinationRange(r)).Some? <==> 0 <= r < 0x1_0000
    ensures 0 <= r < 0x1_0000 ==>
              MessageBytes(SetCoordinationRange(r)) == Some([SET_COORDINATION_RANGE] + BigEndian(2, r))
  {
    Powers();
    var v := [SET_COORDINATION_RANGE, r];
    if 0 <= r < 0x1_0000 {
      assert AllFit("BH", v);
      assert PackedPrefix("BH", v, 1) == BigEndian(1, SET_COORDINATION_RANGE) == [SET_COORDINATION_RANGE];
    } else {
      assert !Fits("BH"[1], v[1]);
    }
  }

  lemma {:induction false} BufferPart(t: U8, body: seq<U8>, lo: nat, hi: nat)
    requires lo <= hi <= |body| < LocalWire.LOCAL_SOCK_BUF_SIZE
    ensures LocalWire.Buffer([t] + body)[1 + lo..1 + hi] == body[lo..hi]
  {
    var b := LocalWire.Buffer([t] + body);
    LocalWire.BufferTail(t, body);
    assert b[1 + lo..1 + hi] == b[1..][lo..hi];
  }

  /** A position arrives as the numbers Python sent exactly when both are plus zero or normal. */
  lemma {:induction false} PositionArrivesIff(lat: U64, lon: U64)
    requires ExponentField(lat) <= 2046 && ExponentField(lon) <= 2046
    ensures MessageBytes(SetPosition(lat, lon)).Some?
    ensures Arrives(MessageBytes(SetPosition(lat, lon)).value)
            == Some(LocalRequest(SET_POSITION, StandardValue(lat), StandardValue(lon), 0, " "))
            <==> Canonical(lat) && Canonical(lon)
  {
    PositionBytes(lat, lon);
    PositionRead(lat, lon);
    DecodeAgreesIff(lat);
    DecodeAgreesIff(lon);
  }

  lemma {:induction false} PositionRead(lat: U64, lon: U64)
    ensures var msg := [SET_POSITION] + (BigEndian(8, lat) + BigEndian(8, lon));
            Arrives(msg) == Some(LocalRequest(SET_POSITION, Decode(lat), Decode(lon), 0, " "))
  {
    var body := BigEndian(8, lat) + BigEndian(8, lon);
    LocalWire.BufferTail(SET_POSITION, body);
    BufferPart(SET_POSITION, body, 0, 8);
    BufferPart(SET_POSITION, body, 8, 16);
    assert body[0..8] == BigEndian(8, lat) && body[8..16] == BigEndian(8, lon);
    Powers();
    BigEndianRoundTrip(8, lat);
    BigEndianRoundTrip(8, lon);
    assert UnpackU64(LocalWire.Buffer([SET_POSITION] + body), 1) == lat;
    assert UnpackU64(LocalWire.Buffer([SET_POSITION] + body), 9) == lon;
  }

  /** A range is either refused by Python or arrives unchanged. */
  lemma {:induction false} RangeArrives(r: int)
    ensures MessageBytes(SetCoordinationRange(r)).Some? <==> 0 <= r < 0x1_0000
    ensures 0 <= r < 0x1_0000 ==>
              Arrives(MessageBytes(SetCoordinationRange(r)).value)
              == Some(LocalRequest(SET_COORDINATION_RANGE, 0.0, 0.0, r, " "))
  {
    RangeBytes(r);
    if 0 <= r < 0x1_0000 {
      var body := BigEndian(2, r);
      LocalWire.BufferTail(SET_COORDINATION_RANGE, body);
      BufferPart(SET_COORDINATION_RANGE, body, 0, 2);
      assert body[0..2] == body;
      Powers();
      BigEndianRoundTrip(2, r);
    }
  }

  /** A subscription or its withdrawal arrives with the path Python sent exactly when the path is
      free of NULs and has at most 511 bytes. */
  lemma {:induction false} PathArrivesIff(path: seq<U8>)
    ensures Arrives(MessageBytes(Subscribe(path)).value)
            == Some(LocalRequest(SUB_CANDNODES, 0.0, 0.0, 0, LocalWire.Chars(path)))
            <==> LocalWire.NulFree(path) && |path| <= 511
    ensures Arrives(MessageBytes(Unsubscribe(path)).value)
            == Some(LocalRequest(UNSUB_CANDNODES, 0.0, 0.0, 0, LocalWire.Chars(path)))
            <==> LocalWire.NulFree(path) && |path| <= 511
  {
    PathMessage(SUB_CANDNODES, path);
    PathMessage(UNSUB_CANDNODES, path);
  }

  lemma {:induction false} PathMessage(t: U8, path: seq<U8>)
    requires t == SUB_CANDNODES || t == UNSUB_CANDNODES
    ensures Arrives(TypeAndString(t, path)) == Some(LocalRequest(t, 0.0, 0.0, 0, LocalWire.Chars(path)))
            <==> LocalWire.NulFree(path) && |path| <= 511
  {
    assert BigEndian(1, t) == [t];
    LocalWire.PathRecoveredIff(t, path);
    var b := LocalWire.Buffer([t] + path);
    assert Take([t] + path, LocalWire.LOCAL_SOCK_BUF_SIZE)[0] == t;
    assert b[0] == t;
  }

  /** A client that subscribes through Python and then withdraws leaves the node as it was,
      provided its path fits, its subscription is new and the list has room. */
  lemma {:induction false} SubscribeThenUnsubscribe(h: HostState, path: seq<U8>, s: LocalRequest, u: LocalRequest)
    requires Wellformed(h.subs) && LocalWire.NulFree(path) && |path| <= 511
    requires Arrives(MessageBytes(Subscribe(path)).value) == Some(s)
    requires Arrives(MessageBytes(Unsubscribe(path)).value) == Some(u)
    requires LocalWire.Chars(path) !in Addresses(h.subs) && |h.subs| < MAX_NUM_SUBSCRIBERS
    ensures Addresses(Handled(h, s).subs) == Addresses(h.subs) + [LocalWire.Chars(path)]
    ensures Handled(Handled(h, s), u) == h
  {
    PathArrivesIff(path);
    RemoveUndoesAdd(h.subs, LocalWire.Chars(path));
  }

  // ----- What a datagram on the local socket does, byte by byte -----

  /** What the node is after a local datagram. */
  ghost function AfterDatagram(h: HostState, msg: seq<U8>): HostState {
    match Arrives(msg)
    case Some(lr) => Handled(h, lr)
    case None => h
  }

  /** A zero byte and two normal floats, as Python sends them, set latitude and longitude. */
  lemma {:induction false} ZeroByteSetsPosition(h: HostState, lat: U64, lon: U64)
    requires 1 <= ExponentField(lat) <= 2046 && 1 <= ExponentField(lon) <= 2046
    ensures var msg := [0] + (BigEndian(8, lat) + BigEndian(8, lon));
            && MessageBytes(SetPosition(lat, lon)) == Some(msg)
            && AfterDatagram(h, msg) == h.(cfg := h.cfg.(lat := StandardValue(lat), lon := StandardValue(lon)))
  {
    CanonicalIff(lat);
    CanonicalIff(lon);
    PositionBytes(lat, lon);
    PositionRead(lat, lon);
    DecodeAgreesIff(lat);
    DecodeAgreesIff(lon);
  }

  /** A one and two bytes set the coordination range. */
  lemma {:induction false} OneByteSetsRange(h: HostState, r: U16)
    ensures var msg := [1] + BigEndian(2, r);
            && MessageBytes(SetCoordinationRange(r)) == Some(msg)
            && AfterDatagram(h, msg) == h.(cfg := h.cfg.(coordRange := r))
  {
    RangeBytes(r);
    RangeArrives(r);
  }

  /** A three and a path subscribe it if there is room for it among 25, a four withdraws it; nothing
      else changes. */
  lemma {:induction false} ThreeAndFourSubscribe(h: HostState, path: seq<U8>)
    requires Wellformed(h.subs) && LocalWire.NulFree(path) && |path| <= 511
    ensures MessageBytes(Subscribe(path)) == Some([3] + path) && MessageBytes(Unsubscribe(path)) == Some([4] + path)
    ensures var a, to, h' := LocalWire.Chars(path), Addresses(h.subs), AfterDatagram(h, [3] + path);
            && h' == h.(subs := h'.subs)
            && Addresses(h'.subs) == if a in to || |to| == 25 then to else to + [a]
    ensures var a, to, h' := LocalWire.Chars(path), Addresses(h.subs), AfterDatagram(h, [4] + path);
            && h' == h.(subs := h'.subs)
            && Addresses(h'.subs) == Filter(OtherThan(a), to)
  {
    assert BigEndian(1, 3) == [3] && BigEndian(1, 4) == [4];
    PathArrivesIff(path);
    AddRefines(h.subs, LocalWire.Chars(path));
    RemoveRefines(h.subs, LocalWire.Chars(path));
  }

  /** A two, and any byte above four, changes nothing. */
  lemma {:induction false} OtherBytesDoNothing(h: HostState, t: U8, body: seq<U8>)
    requires t == 2 || t > 4
    ensures AfterDatagram(h, [t] + body) == h
  {
    var msg := [t] + body;
    assert LocalWire.Buffer(msg)[0] == t by {
      assert Take(msg, LocalWire.LOCAL_SOCK_BUF_SIZE)[0] == t;
    }
  }
}
