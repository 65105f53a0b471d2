/** Big-endian integers in byte buffers: the pack and unpack routines of upack.c. */
module Bytes {
  import opened Records

  function Pow256(n: nat): (r: nat)
    ensures r > 0
  {
    if n == 0 then 1 else 256 * Pow256(n - 1)
  }

  /** The last `width` base-256 digits of `v`, most significant first. */
  function BigEndian(width: nat, v: nat): (b: seq<U8>)
    ensures |b| == width
  {
    if width == 0 then [] else BigEndian(width - 1, v / 256) + [v % 256]
  }

  function FromBigEndian(b: seq<U8>): nat {
    if b == [] then 0 else 256 * FromBigEndian(b[..|b| - 1]) + b[|b| - 1]
  }

  lemma {:induction false} FromBigEndianBound(b: seq<U8>)
    ensures FromBigEndian(b) < Pow256(|b|)
  {
    if b != [] {
      FromBigEndianBound(b[..|b| - 1]);
    }
  }

  lemma {:induction false} BigEndianRoundTrip(width: nat, v: nat)
    requires v < Pow256(width)
    ensures FromBigEndian(BigEndian(width, v)) == v
  {
    if width > 0 {
      BigEndianRoundTrip(width - 1, v / 256);
      assert BigEndian(width, v)[..width - 1] == BigEndian(width - 1, v / 256);
    }
  }

  lemma {:induction false} FromBigEndianRoundTrip(b: seq<U8>)
    ensures BigEndian(|b|, FromBigEndian(b)) == b
  {
    if b != [] {
      var v := FromBigEndian(b[..|b| - 1]);
      FromBigEndianRoundTrip(b[..|b| - 1]);
      assert (256 * v + b[|b| - 1]) / 256 == v;
      assert b == b[..|b| - 1] + [b[|b| - 1]];
    }
  }

  lemma {:induction false} DivDiv(v: nat, p: nat)
    requires p > 0
    ensures v / 256 / p == v / (256 * p)
  {
    var q, r := v / 256, v % 256;
    var a, b := q / p, q % p;
    assert v == 256 * q + r && q == a * p + b;
    assert v == a * (256 * p) + (256 * b + r);
    assert 0 <= 256 * b + r < 256 * p;
    QuotientUnique(v, 256 * p, a, 256 * b + r);
  }

  lemma {:induction false} QuotientUnique(v: nat, d: nat, q: nat, r: nat)
    requires d > 0 && r < d && v == q * d + r
    ensures v / d == q
  {
    var q', r' := v / d, v % d;
    assert v == q' * d + r';
    assert (q' - q) * d == q' * d - q * d;
    SmallMultiple(q' - q, d);
  }

  lemma {:induction false} SmallMultiple(x: int, d: int)
    requires -d < x * d < d
    ensures x == 0
  {
    if x >= 1 {
      MultipleGrows(x, d);
    } else if x <= -1 {
      MultipleGrows(-x, d);
    }
  }

  lemma {:induction false} MultipleGrows(x: int, d: int)
    requires x >= 1 && d >= 0
    ensures x * d >= d
    ensures (0 - x) * d == -(x * d)
  {
    assert (x - 1) * d >= 0;
  }

  /** Each byte is the value shifted right and cut to eight bits. */
  lemma {:induction false} BigEndianAt(width: nat, v: nat, j: nat)
    requires j < width
    ensures BigEndian(width, v)[j] == v / Pow256(width - 1 - j) % 256
  {
    if j < width - 1 {
      BigEndianAt(width - 1, v / 256, j);
      DivDiv(v, Pow256(width - 2 - j));
    }
  }

  lemma {:induction false} Powers()
    ensures Pow256(0) == 1 && Pow256(1) == 0x100 && Pow256(2) == 0x1_0000 && Pow256(3) == 0x100_0000
    ensures Pow256(4) == 0x1_0000_0000 && Pow256(5) == 0x100_0000_0000
    ensures Pow256(6) == 0x1_0000_0000_0000 && Pow256(7) == 0x100_0000_0000_0000
    ensures Pow256(8) == 0x1_0000_0000_0000_0000
  {
    assert Pow256(2) == 256 * Pow256(1);
    assert Pow256(3) == 256 * Pow256(2);
    assert Pow256(4) == 256 * Pow256(3);
    assert Pow256(5) == 256 * Pow256(4);
    assert Pow256(6) == 256 * Pow256(5);
    assert Pow256(7) == 256 * Pow256(6);
  }

  // ----- The routines -----

  /** pack8 */
  method Pack8(buf: array<U8>, o: nat, i: U8)
    requires o + 1 <= buf.Length
    modifies buf
    ensures buf[..o + 1] == old(buf[..o]) + BigEndian(1, i)
  {
    buf[o] := i;
    assert BigEndian(1, i) == [i];
  }

  /** pack16 */
  method Pack16(buf: array<U8>, o: nat, i: U16)
    requires o + 2 <= buf.Length
    modifies buf
    ensures buf[..o + 2] == old(buf[..o]) + BigEndian(2, i)
  {
    Powers();
    BigEndianAt(2, i, 0);
    BigEndianAt(2, i, 1);
    buf[o] := i / 0x100 % 256;
    buf[o + 1] := i % 256;
    assert buf[o..o + 2] == BigEndian(2, i);
    assert buf[..o + 2] == buf[..o] + buf[o..o + 2];
  }

  /** pack32 */
  method Pack32(buf: array<U8>, o: nat, i: U32)
    requires o + 4 <= buf.Length
    modifies buf
    ensures buf[..o + 4] == old(buf[..o]) + BigEndian(4, i)
  {
    Powers();
    BigEndianAt(4, i, 0);
    BigEndianAt(4, i, 1);
    BigEndianAt(4, i, 2);
    BigEndianAt(4, i, 3);
    buf[o], buf[o + 1] := i / 0x100_0000 % 256, i / 0x1_0000 % 256;
    buf[o + 2], buf[o + 3] := i / 0x100 % 256, i % 256;
    assert buf[o..o + 4] == BigEndian(4, i);
    assert buf[..o + 4] == buf[..o] + buf[o..o + 4];
  }

  /** pack64 */
  method Pack64(buf: array<U8>, o: nat, i: U64)
    requires o + 8 <= buf.Length
    modifies buf
    ensures buf[..o + 8] == old(buf[..o]) + BigEndian(8, i)
  {
    Shifts64(i);
    buf[o], buf[o + 1] := i / 0x100_0000_0000_0000 % 256, i / 0x1_0000_0000_0000 % 256;
    buf[o + 2], buf[o + 3] := i / 0x100_0000_0000 % 256, i / 0x1_0000_0000 % 256;
    buf[o + 4], buf[o + 5] := i / 0x100_0000 % 256, i / 0x1_0000 % 256;
    buf[o + 6], buf[o + 7] := i / 0x100 % 256, i % 256;
    assert buf[o..o + 8] == BigEndian(8, i);
    assert buf[..o + 8] == buf[..o] + buf[o..o + 8];
  }

  lemma {:induction false} Shifts64(i: U64)
    ensures BigEndian(8, i)[0] == i / 0x100_0000_0000_0000 % 256
    ensures BigEndian(8, i)[1] == i / 0x1_0000_0000_0000 % 256
    ensures BigEndian(8, i)[2] == i / 0x100_0000_0000 % 256
    ensures BigEndian(8, i)[3] == i / 0x1_0000_0000 % 256
    ensures BigEndian(8, i)[4] == i / 0x100_0000 % 256
    ensures BigEndian(8, i)[5] == i / 0x1_0000 % 256
    ensures BigEndian(8, i)[6] == i / 0x100 % 256
    ensures BigEndian(8, i)[7] == i % 256
  {
    Powers();
    forall j | 0 <= j < 8
      ensures BigEndian(8, i)[j] == i / Pow256(7 - j) % 256
    {
      BigEndianAt(8, i, j);
    }
  }

  lemma {:induction false} Horner(b: seq<U8>, x: U8)
    ensures FromBigEndian(b + [x]) == 256 * FromBigEndian(b) + x
  {
    assert (b + [x])[..|b|] == b;
  }

  /** unpacku16 */
  function UnpackU16(buf: seq<U8>, o: nat): (r: U16)
    requires o + 2 <= |buf|
    ensures r == FromBigEndian(buf[o..o + 2])
  {
    Horner([], buf[o]);
    Horner([buf[o]], buf[o + 1]);
    assert buf[o..o + 2] == [buf[o]] + [buf[o + 1]];
    assert [] + [buf[o]] == [buf[o]];
    buf[o] as int * 0x100 + buf[o + 1]
  }

  /** unpacku32 */
  function UnpackU32(buf: seq<U8>, o: nat): (r: U32)
    requires o + 4 <= |buf|
    ensures r == FromBigEndian(buf[o..o + 4])
  {
    assert UnpackU16(buf, o) == FromBigEndian(buf[o..o + 2]);
    Horner(buf[o..o + 2], buf[o + 2]);
    Horner(buf[o..o + 3], buf[o + 3]);
    assert buf[o..o + 3] == buf[o..o + 2] + [buf[o + 2]];
    assert buf[o..o + 4] == buf[o..o + 3] + [buf[o + 3]];
    buf[o] as int * 0x100_0000 + buf[o + 1] as int * 0x1_0000 + buf[o + 2] as int * 0x100 + buf[o + 3]
  }

  /** unpacku64 */
  function UnpackU64(buf: seq<U8>, o: nat): (r: U64)
    requires o + 8 <= |buf|
    ensures r == FromBigEndian(buf[o..o + 8])
  {
    assert UnpackU32(buf, o) == FromBigEndian(buf[o..o + 4]);
    Horner(buf[o..o + 4], buf[o + 4]);
    Horner(buf[o..o + 5], buf[o + 5]);
    Horner(buf[o..o + 6], buf[o + 6]);
    Horner(buf[o..o + 7], buf[o + 7]);
    assert buf[o..o + 5] == buf[o..o + 4] + [buf[o + 4]];
    assert buf[o..o + 6] == buf[o..o + 5] + [buf[o + 5]];
    assert buf[o..o + 7] == buf[o..o + 6] + [buf[o + 6]];
    assert buf[o..o + 8] == buf[o..o + 7] + [buf[o + 7]];
    buf[o] as int * 0x100_0000_0000_0000 + buf[o + 1] as int * 0x1_0000_0000_0000 + buf[o + 2] as int * 0x100_0000_0000
    + buf[o + 3] as int * 0x1_0000_0000 + buf[o + 4] as int * 0x100_0000 + buf[o + 5] as int * 0x1_0000
    + buf[o + 6] as int * 0x100 + buf[o + 7]
  }
}
