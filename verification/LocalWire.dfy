/** The local request decoder of serialize.c, with the receive buffer of p2p-dprd.c. */
module LocalWire {
  import opened Collections
  import opened Records
  import opened Bytes
  import opened Ieee754
  import opened Steps

  const LOCAL_SOCK_BUF_SIZE := 1024
  const LOCAL_ADDR_MAX_LENGTH := 512

  function Zeros(n: nat): (z: seq<U8>)
    ensures |z| == n && forall i :: 0 <= i < n ==> z[i] == 0
  {
    seq(n, i => 0)
  }

  /** The zeroed receive buffer after a datagram was read into it. */
  function Buffer(msg: seq<U8>): (b: seq<U8>)
    ensures |b| == LOCAL_SOCK_BUF_SIZE
  {
    Take(msg, LOCAL_SOCK_BUF_SIZE) + Zeros(LOCAL_SOCK_BUF_SIZE - |Take(msg, LOCAL_SOCK_BUF_SIZE)|)
  }

  /** The number of bytes read. */
  function ReadSize(msg: seq<U8>): nat {
    |Take(msg, LOCAL_SOCK_BUF_SIZE)|
  }

  function Chars(b: seq<U8>): (s: string)
    ensures |s| == |b| && forall i :: 0 <= i < |b| ==> s[i] == b[i] as char
  {
    seq(|b|, i requires 0 <= i < |b| => b[i] as char)
  }

  /** The string up to the first NUL, cut after `room` characters. */
  function CString(b: seq<U8>, room: nat): (s: string)
    ensures |s| <= room
  {
    if b == [] || b[0] == 0 || room == 0 then "" else [b[0] as char] + CString(b[1..], room - 1)
  }

  predicate NulFree(b: seq<U8>) {
    forall i :: 0 <= i < |b| ==> b[i] != 0
  }

  /** The request in the first `size` bytes of the buffer; nothing for an empty one and for the
      deprecated type. */
  ghost function Requested(b: seq<U8>, size: int): Option<LocalRequest>
    requires |b| == LOCAL_SOCK_BUF_SIZE
  {
    if size <= 0 || b[0] == SET_POS_AND_RANGE then None
    else if b[0] == SET_POSITION then
      Some(LocalRequest(SET_POSITION, Decode(UnpackU64(b, 1)), Decode(UnpackU64(b, 9)), 0, " "))
    else if b[0] == SET_COORDINATION_RANGE then
      Some(LocalRequest(SET_COORDINATION_RANGE, 0.0, 0.0, UnpackU16(b, 1), " "))
    else if b[0] == SUB_CANDNODES || b[0] == UNSUB_CANDNODES then
      Some(LocalRequest(b[0], 0.0, 0.0, 0, CString(b[1..], LOCAL_ADDR_MAX_LENGTH - 1)))
    else
      Some(LocalRequest(b[0], 0.0, 0.0, 0, " "))
  }

  /** LocalRequest_unpack */
  method Unpack(buff: seq<U8>, size: int) returns (lr: Option<LocalRequest>)
    requires |buff| == LOCAL_SOCK_BUF_SIZE
    ensures lr == Requested(buff, size)
  {
    if size <= 0 {
      return None;
    }
    var r := LocalRequest(-1, 0.0, 0.0, 0, " ");
    r := r.(rtype := buff[0]);
    if r.rtype == SET_POSITION {
      var lat := Dec754(UnpackU64(buff, 1));
      var lon := Dec754(UnpackU64(buff, 9));
      r := r.(lat := lat, lon := lon);
    } else if r.rtype == SET_COORDINATION_RANGE {
      r := r.(coordRange := UnpackU16(buff, 1));
    } else if r.rtype == SET_POS_AND_RANGE {
      return None;
    } else if r.rtype == SUB_CANDNODES || r.rtype == UNSUB_CANDNODES {
      r := r.(sockAddr := CString(buff[1..], LOCAL_ADDR_MAX_LENGTH - 1));
    }
    lr := Some(r);
  }

  // ----- Paths -----

  /** A terminated path that fits is read in full. */
  lemma {:induction false} CStringReads(path: seq<U8>, rest: seq<U8>, room: nat)
    requires NulFree(path) && |path| <= room
    requires rest == [] || rest[0] == 0
    ensures CString(path + rest, room) == Chars(path)
  {
    if path == [] {
      assert path + rest == rest;
    } else {
      assert (path + rest)[1..] == path[1..] + rest;
      CStringReads(path[1..], rest, room - 1);
      assert Chars(path) == [path[0] as char] + Chars(path[1..]);
    }
  }

  lemma {:induction false} CStringNoNul(b: seq<U8>, room: nat)
    ensures forall i :: 0 <= i < |CString(b, room)| ==> CString(b, room)[i] != 0 as char
  {
    if b != [] && b[0] != 0 && room != 0 {
      CStringNoNul(b[1..], room - 1);
    }
  }

  /** The buffer behind the type byte. */
  lemma {:induction false} BufferTail(t: U8, body: seq<U8>)
    requires |body| < LOCAL_SOCK_BUF_SIZE
    ensures Buffer([t] + body)[0] == t && ReadSize([t] + body) == 1 + |body|
    ensures Buffer([t] + body)[1..] == body + Zeros(LOCAL_SOCK_BUF_SIZE - 1 - |body|)
  {
    assert Take([t] + body, LOCAL_SOCK_BUF_SIZE) == [t] + body;
  }

  /** A path arrives intact exactly when it holds no NUL and has at most 511 bytes. */
  lemma {:induction false} PathRecoveredIff(t: U8, path: seq<U8>)
    ensures CString(Buffer([t] + path)[1..], LOCAL_ADDR_MAX_LENGTH - 1) == Chars(path)
            <==> NulFree(path) && |path| < LOCAL_ADDR_MAX_LENGTH
  {
    var tail := Buffer([t] + path)[1..];
    if |path| < LOCAL_ADDR_MAX_LENGTH {
      BufferTail(t, path);
      if NulFree(path) {
        CStringReads(path, Zeros(LOCAL_SOCK_BUF_SIZE - 1 - |path|), LOCAL_ADDR_MAX_LENGTH - 1);
      } else {
        CStringNoNul(tail, LOCAL_ADDR_MAX_LENGTH - 1);
        var i :| 0 <= i < |path| && path[i] == 0;
        assert Chars(path)[i] == 0 as char;
      }
    }
  }
}
