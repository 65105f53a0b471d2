/** The hand-written binary64 codec of upack.c, against section 3.4 of IEEE Std 754-2008.
    Doubles are modelled by the reals they denote. Zero and the normal numbers come first; what the
    code does to minus zero and to subnormal numbers is stated separately. Fields that do not
    overlap are joined with `+` where the code writes `|`. */
module Ieee754 {
  import opened Records

  const TWO_52 := 0x10_0000_0000_0000
  const TWO_63 := 0x8000_0000_0000_0000
  const TWO_64 := 0x1_0000_0000_0000_0000
  const BIAS := 1023
  const SMALLEST := -1074

  function Pow2(k: int): (r: real)
    ensures r > 0.0
    decreases if k < 0 then -k else k
  {
    if k == 0 then 1.0
    else if k > 0 then 2.0 * Pow2(k - 1)
    else Pow2(k + 1) / 2.0
  }

  lemma {:induction false} Pow2Step(k: int)
    ensures Pow2(k + 1) == 2.0 * Pow2(k)
  {
  }

  lemma {:induction false} Pow2Grows(j: int, k: int)
    requires j < k
    ensures Pow2(k) >= 2.0 * Pow2(j)
    decreases k - j
  {
    Pow2Step(j);
    if j + 1 < k {
      Pow2Grows(j + 1, k);
    }
  }

  lemma {:induction false} MulLess(a: real, b: real, p: real)
    requires a < b && p > 0.0
    ensures a * p < b * p
  {
  }

  /** The significand with its implied leading one. */
  function Mantissa(t: int): (r: real)
    requires 0 <= t < TWO_52
    ensures 1.0 <= r < 2.0
    ensures (r - 1.0) * 4503599627370496.0 == t as real
  {
    1.0 + t as real / 4503599627370496.0
  }

  /** (1 + T * 2^-52) * 2^(E - bias) */
  function Magnitude(t: int, e: int): (r: real)
    requires 0 <= t < TWO_52
    ensures r > 0.0
  {
    Product(Mantissa(t), Pow2(e - BIAS))
  }

  function Product(m: real, p: real): (r: real)
    requires m > 0.0 && p > 0.0
    ensures r > 0.0
  {
    MulLess(0.0, m, p);
    m * p
  }

  /** The largest finite double. */
  const DBL_MAX: real := (2.0 - 1.0 / 4503599627370496.0) * Pow2(1023)

  lemma {:induction false} DblMaxIsLarge()
    ensures DBL_MAX >= 1.0
  {
    Pow2Grows(0, 1023);
    assert DBL_MAX >= 1.0 * Pow2(1023);
  }

  /** Zero and the normal numbers: sign, biased exponent in 1..2046, 52-bit trailing significand. */
  datatype Binary64 = Zero | Normal(negative: bool, biased: int, significand: int) {
    predicate Valid() {
      Normal? ==> 1 <= biased <= 2046 && 0 <= significand < TWO_52
    }

    /** The number denoted: (-1)^S * (1 + T * 2^-52) * 2^(E - bias). */
    ghost function Value(): real
      requires Valid()
    {
      match this
      case Zero => 0.0
      case Normal(s, e, t) =>
        Signed(s, Magnitude(t, e))
    }

    /** The interchange format: sign bit, 11 exponent bits, 52 significand bits. */
    function Bits(): (b: U64)
      requires Valid()
    {
      match this
      case Zero => 0
      case Normal(s, e, t) => (if s then TWO_63 else 0) + e * TWO_52 + t
    }
  }

  ghost predicate Denotes(d: Binary64, f: real) {
    d.Valid() && d.Value() == f
  }

  /** `f` is zero or a normal double. */
  ghost predicate Representable(f: real) {
    exists d :: Denotes(d, f)
  }

  ghost predicate Encodes(d: Binary64, b: U64) {
    d.Valid() && d.Bits() == b
  }

  /** `b` is the pattern of zero or of a normal double. */
  ghost predicate Canonical(b: U64) {
    exists d :: Encodes(d, b)
  }

  // ----- Uniqueness of the normal form -----

  lemma {:induction false} ProductOrder(m1: real, low: real, m2: real, high: real)
    requires m1 < 2.0 && 1.0 <= m2 && 0.0 < low && 2.0 * low <= high
    ensures m1 * low < m2 * high
  {
    MulLess(m1, 2.0, low);
    assert (m2 - 1.0) * high >= 0.0;
  }

  lemma {:induction false} NormalFormOrder(m1: real, k1: int, m2: real, k2: int)
    requires 1.0 <= m1 < 2.0 && 1.0 <= m2 < 2.0
    requires k1 < k2
    ensures m1 * Pow2(k1) < m2 * Pow2(k2)
  {
    Pow2Grows(k1, k2);
    ProductOrder(m1, Pow2(k1), m2, Pow2(k2));
  }

  /** A positive number has one mantissa in [1, 2) and one exponent. */
  lemma {:induction false} NormalFormUnique(m1: real, k1: int, m2: real, k2: int)
    requires 1.0 <= m1 < 2.0 && 1.0 <= m2 < 2.0
    requires Product(m1, Pow2(k1)) == Product(m2, Pow2(k2))
    ensures k1 == k2 && m1 == m2
  {
    if k1 < k2 {
      NormalFormOrder(m1, k1, m2, k2);
    } else if k2 < k1 {
      NormalFormOrder(m2, k2, m1, k1);
    } else if m1 < m2 {
      MulLess(m1, m2, Pow2(k1));
    } else if m2 < m1 {
      MulLess(m2, m1, Pow2(k1));
    }
  }

  lemma {:induction false} NormalNonZero(d: Binary64)
    requires d.Valid() && d.Normal?
    ensures d.negative ==> d.Value() < 0.0
    ensures !d.negative ==> d.Value() > 0.0
  {
  }

  lemma {:induction false} MantissaInjective(t1: int, t2: int)
    requires 0 <= t1 < TWO_52 && 0 <= t2 < TWO_52
    requires Mantissa(t1) == Mantissa(t2)
    ensures t1 == t2
  {
    assert t1 as real == t2 as real;
  }

  lemma {:induction false} MagnitudeInjective(t1: int, e1: int, t2: int, e2: int)
    requires 0 <= t1 < TWO_52 && 0 <= t2 < TWO_52
    requires Magnitude(t1, e1) == Magnitude(t2, e2)
    ensures t1 == t2 && e1 == e2
  {
    NormalFormUnique(Mantissa(t1), e1 - BIAS, Mantissa(t2), e2 - BIAS);
    MantissaInjective(t1, t2);
  }

  /** Distinct doubles denote distinct numbers. */
  lemma {:induction false} ValueInjective(d1: Binary64, d2: Binary64)
    requires d1.Valid() && d2.Valid() && d1.Value() == d2.Value()
    ensures d1 == d2
  {
    if d1.Normal? && d2.Normal? {
      assert Magnitude(d1.significand, d1.biased) == Magnitude(d2.significand, d2.biased) by {
        NormalNonZero(d1);
        NormalNonZero(d2);
      }
      MagnitudeInjective(d1.significand, d1.biased, d2.significand, d2.biased);
      NormalNonZero(d1);
      NormalNonZero(d2);
    }
  }

  /** The largest double is one, and no double is larger. */
  lemma {:induction false} DblMaxIsLargest(f: real)
    requires Representable(f)
    ensures Representable(DBL_MAX) && f <= DBL_MAX
  {
    var e, t := 2046, TWO_52 - 1;
    var top := Normal(false, e, t);
    assert Mantissa(t) == 2.0 - 1.0 / 4503599627370496.0;
    assert Denotes(top, DBL_MAX) by {
      assert top.Value() == Product(Mantissa(t), Pow2(e - BIAS));
    }
    var d :| Denotes(d, f);
    if d.Normal? {
      NormalAtMost(d, DBL_MAX, Pow2(e - BIAS), t);
    }
  }

  lemma {:induction false} NormalAtMost(d: Binary64, largest: real, p: real, t: int)
    requires d.Valid() && d.Normal? && t == TWO_52 - 1
    requires p == Pow2(2046 - BIAS) && largest == Product(Mantissa(t), p)
    ensures d.Value() <= largest
  {
    MagnitudeAtMost(d.significand, d.biased, t, 2046);
    assert d.Value() == Signed(d.negative, Magnitude(d.significand, d.biased));
  }

  lemma {:induction false} MagnitudeAtMost(s: int, e: int, t: int, top: int)
    requires 0 <= s <= t < TWO_52 && e <= top
    ensures Magnitude(s, e) <= Magnitude(t, top)
  {
    MantissaMonotone(s, t);
    if e == top {
      ProductMonotone(Mantissa(s), Mantissa(t), Pow2(e - BIAS));
    } else {
      NormalFormOrder(Mantissa(s), e - BIAS, Mantissa(t), top - BIAS);
    }
  }

  lemma {:induction false} MantissaMonotone(s: int, t: int)
    requires 0 <= s <= t < TWO_52
    ensures Mantissa(s) <= Mantissa(t)
  {
  }

  lemma {:induction false} ProductMonotone(a: real, b: real, p: real)
    requires 0.0 < a <= b && p > 0.0
    ensures Product(a, p) <= Product(b, p)
  {
  }

  // ----- Specification functions -----

  /** The pattern of a representable number. */
  ghost function Encode(f: real): (b: U64)
    requires Representable(f)
    ensures forall d :: Denotes(d, f) ==> Encodes(d, b)
  {
    var d :| Denotes(d, f);
    assert forall e :: Denotes(e, f) ==> e == d by {
      forall e | Denotes(e, f)
        ensures e == d
      {
        ValueInjective(e, d);
      }
    }
    d.Bits()
  }

  function SignBit(b: U64): int { b / TWO_63 }

  function ExponentField(b: U64): int { b / TWO_52 % 2048 }

  function SignificandField(b: U64): (t: int)
    ensures 0 <= t < TWO_52
  {
    b % TWO_52
  }

  /** What decoding yields for any pattern: every non-zero pattern is read as a normal number. */
  ghost function Decode(b: U64): real {
    if b == 0 then 0.0
    else Signed(SignBit(b) == 1, Magnitude(SignificandField(b), ExponentField(b)))
  }

  function Signed(negative: bool, f: real): real {
    if negative then -f else f
  }

  lemma {:induction false} FieldsOfBits(d: Binary64)
    requires d.Valid() && d.Normal?
    ensures SignBit(d.Bits()) == if d.negative then 1 else 0
    ensures ExponentField(d.Bits()) == d.biased
    ensures SignificandField(d.Bits()) == d.significand
    ensures d.Bits() != 0
  {
    var b := d.Bits();
    assert b / TWO_52 == (if d.negative then 2048 else 0) + d.biased;
  }

  lemma {:induction false} DecodeBits(d: Binary64)
    requires d.Valid()
    ensures Decode(d.Bits()) == d.Value()
  {
    if d.Normal? {
      FieldsOfBits(d);
    }
  }

  lemma {:induction false} CanonicalIff(b: U64)
    ensures Canonical(b) <==> b == 0 || 1 <= ExponentField(b) <= 2046
  {
    if Canonical(b) {
      var d :| Encodes(d, b);
      if d.Normal? {
        FieldsOfBits(d);
      }
    }
    if b == 0 {
      assert Encodes(Zero, b);
    } else if 1 <= ExponentField(b) <= 2046 {
      var d := Normal(SignBit(b) == 1, ExponentField(b), SignificandField(b));
      assert b / TWO_52 == SignBit(b) * 2048 + ExponentField(b);
      assert Encodes(d, b);
    }
  }

  // ----- The round trips -----

  lemma {:induction false} DecodeEncode(f: real)
    requires Representable(f)
    ensures Decode(Encode(f)) == f
  {
    var d :| Denotes(d, f);
    assert Encodes(d, Encode(f));
    DecodeBits(d);
  }

  lemma {:induction false} EncodeDecode(b: U64)
    requires Canonical(b)
    ensures Representable(Decode(b)) && Encode(Decode(b)) == b
  {
    var d :| Encodes(d, b);
    DecodeBits(d);
    assert Denotes(d, Decode(b));
    assert Encodes(d, Encode(Decode(b)));
  }

  /** The number a finite pattern denotes by the standard, subnormal numbers included. */
  function StandardValue(b: U64): real {
    if ExponentField(b) == 0
    then Signed(SignBit(b) == 1, SignificandField(b) as real / 4503599627370496.0 * Pow2(1 - BIAS))
    else Signed(SignBit(b) == 1, Magnitude(SignificandField(b), ExponentField(b)))
  }

  lemma {:induction false} SubnormalDiffers(t: real, p: real)
    requires 0.0 <= t < 1.0 && p > 0.0
    ensures (1.0 + t) * p > t * (2.0 * p) >= 0.0
  {
    MulLess(2.0 * t, 1.0 + t, p);
  }

  /** On finite patterns decoding agrees with the standard exactly on plus zero and the normal
      numbers: minus zero and every subnormal number come back as something else. */
  lemma {:induction false} DecodeAgreesIff(b: U64)
    requires ExponentField(b) <= 2046
    ensures Decode(b) == StandardValue(b) <==> Canonical(b)
  {
    CanonicalIff(b);
    if b != 0 && ExponentField(b) == 0 {
      var t := SignificandField(b) as real / 4503599627370496.0;
      Pow2Step(-BIAS);
      SubnormalDiffers(t, Pow2(-BIAS));
    }
  }

  // ----- Encoding of every finite double -----

  /** A finite double, subnormal numbers and minus zero included. */
  ghost predicate Finite(f: real) {
    exists b: U64 :: ExponentField(b) <= 2046 && StandardValue(b) == f
  }

  ghost predicate NormalFormOf(f: real, m: real, k: int) {
    f != 0.0 && 1.0 <= m < 2.0 && (if f < 0.0 then -f else f) == Product(m, Pow2(k)) && 0 <= Truncated(m) < TWO_52
  }

  /** The significand as the code computes it. */
  function Truncated(m: real): int {
    ((m - 1.0) * (4503599627370496.0 + 0.5)).Floor
  }

  /** The three shifted fields joined by `|` in 64 bits; a negative exponent fills its upper bits. */
  function Assembled(negative: bool, exp: int, t: int): (b: U64)
    requires 0 <= t < TWO_52
  {
    var top := TopBits(negative, exp);
    TopFields(top, t);
    top * TWO_52 + t
  }

  /** Sign and exponent, twelve bits. */
  function TopBits(negative: bool, exp: int): (top: int)
    ensures 0 <= top < 4096
  {
    var low := exp % 4096;
    if negative && low < 2048 then low + 2048 else low
  }

  lemma {:induction false} TopFields(top: int, t: int)
    requires 0 <= top < 4096 && 0 <= t < TWO_52
    ensures (top * TWO_52 + t) / TWO_52 == top && (top * TWO_52 + t) % TWO_52 == t
    ensures 0 <= top * TWO_52 + t < TWO_64
  {
  }

  lemma {:induction false} TopBitsModulo(negative: bool, exp: int)
    ensures TopBits(negative, exp) % 2048 == exp % 2048
  {
    var q, h, l := exp / 4096, exp % 4096 / 2048, exp % 4096 % 2048;
    assert exp == (2 * q + h) * 2048 + l;
  }

  lemma {:induction false} AssembledFields(negative: bool, exp: int, t: int)
    requires 0 <= t < TWO_52
    ensures SignificandField(Assembled(negative, exp, t)) == t
    ensures ExponentField(Assembled(negative, exp, t)) == exp % 2048
    ensures 0 <= exp < 2048 ==> Assembled(negative, exp, t) == (if negative then TWO_63 else 0) + exp * TWO_52 + t
  {
    TopFields(TopBits(negative, exp), t);
    TopBitsModulo(negative, exp);
  }

  /** What enc754 makes of a finite double. */
  ghost predicate EncodesAs(f: real, r: U64) {
    if f == 0.0 then r == 0
    else exists m, k :: NormalFormOf(f, m, k) && r == Assembled(f < 0.0, k + BIAS, Truncated(m))
  }

  lemma {:induction false} Pow2Add(j: int, k: nat)
    ensures Pow2(j + k) == Product(Pow2(j), Pow2(k))
  {
    if k == 0 {
      TimesOne(Pow2(j));
    } else {
      var i := k - 1;
      Pow2Add(j, i);
      Pow2Step(j + i);
      Pow2Step(i);
      TimesDouble(Pow2(j), Pow2(i));
    }
  }

  lemma {:induction false} TimesOne(a: real)
    requires a > 0.0
    ensures Product(a, 1.0) == a
  {
  }

  lemma {:induction false} TimesDouble(a: real, b: real)
    requires a > 0.0 && b > 0.0
    ensures Product(a, 2.0 * b) == 2.0 * Product(a, b)
  {
  }

  function IntPow2(e: nat): (p: nat)
    ensures p as real == Pow2(e)
  {
    if e == 0 then 1 else 2 * IntPow2(e - 1)
  }

  lemma {:induction false} IntPow2Steps(j: nat, p: nat)
    requires IntPow2(j) == p
    ensures IntPow2(j + 4) == 16 * p
  {
    assert IntPow2(j + 1) == 2 * p;
    assert IntPow2(j + 2) == 4 * p;
    assert IntPow2(j + 3) == 8 * p;
  }

  lemma {:induction false} IntPow2Of52(n: nat)
    requires n == 52
    ensures IntPow2(n) == TWO_52
  {
    var j, p := 0, 1;
    IntPow2Steps(j, p);
    IntPow2Steps(j + 4, 0x10);
    IntPow2Steps(j + 8, 0x100);
    IntPow2Steps(j + 12, 0x1000);
    IntPow2Steps(j + 16, 0x1_0000);
    IntPow2Steps(j + 20, 0x10_0000);
    IntPow2Steps(j + 24, 0x100_0000);
    IntPow2Steps(j + 28, 0x1000_0000);
    IntPow2Steps(j + 32, 0x1_0000_0000);
    IntPow2Steps(j + 36, 0x10_0000_0000);
    IntPow2Steps(j + 40, 0x100_0000_0000);
    IntPow2Steps(j + 44, 0x1000_0000_0000);
    IntPow2Steps(j + 48, 0x1_0000_0000_0000);
  }

  /** The smallest subnormal number is 2^-1074. */
  lemma {:induction false} SmallestUnit()
    ensures Pow2(1 - BIAS) == Pow2(SMALLEST) * 4503599627370496.0
  {
    var n := 1 - BIAS - SMALLEST;
    IntPow2Of52(n);
    assert IntPow2(n) as real == Pow2(n);
    Pow2Add(SMALLEST, n);
  }

  /** The magnitude of a subnormal pattern. */
  function Subnormal(t: int): real {
    t as real * Pow2(SMALLEST)
  }

  lemma {:induction false} SubnormalValue(b: U64)
    requires ExponentField(b) == 0
    ensures StandardValue(b) == Signed(SignBit(b) == 1, Subnormal(SignificandField(b)))
  {
    SmallestUnit();
    Rescale(SignificandField(b) as real, 4503599627370496.0, Pow2(SMALLEST));
  }

  lemma {:induction false} Rescale(t: real, c: real, u: real)
    requires c > 0.0
    ensures t / c * (u * c) == t * u
  {
    var q := t / c;
    assert q * c == t;
    assert q * (u * c) == (q * c) * u;
  }

  lemma {:induction false} Pow2Order(j: int, k: int)
    requires Pow2(j) < Pow2(k)
    ensures j < k
  {
    if k < j {
      Pow2Grows(k, j);
    }
  }

  lemma {:induction false} SubnormalExponent(t: int, m: real, k: int)
    requires 0 < t < TWO_52 && 1.0 <= m < 2.0 && Subnormal(t) == Product(m, Pow2(k))
    ensures SMALLEST <= k <= -BIAS
  {
    SmallestUnit();
    BetweenUnits(t as real, m, Pow2(SMALLEST), Pow2(k));
    Pow2Order(k, 1 - BIAS);
    Pow2Step(k);
    Pow2Order(SMALLEST, k + 1);
  }

  lemma {:induction false} BetweenUnits(t: real, m: real, u: real, p: real)
    requires 1.0 <= t < 4503599627370496.0 && 1.0 <= m < 2.0 && u > 0.0 && p > 0.0 && t * u == m * p
    ensures u < 2.0 * p && p < u * 4503599627370496.0
  {
    Positive(4503599627370496.0 - t, u);
    Positive(2.0 - m, p);
    assert (t - 1.0) * u >= 0.0 && (m - 1.0) * p >= 0.0;
  }

  lemma {:induction false} Positive(a: real, b: real)
    requires a > 0.0 && b > 0.0
    ensures a * b > 0.0
  {
  }

  lemma {:induction false} MulAtMost(a: real, b: real, p: real)
    requires a <= b && p > 0.0
    ensures a * p <= b * p
  {
  }

  /** The mantissa of a subnormal number is an integer number of 2^-52. */
  lemma {:induction false} SubnormalMantissa(t: int, m: real, k: int)
    requires 0 < t < TWO_52 && 1.0 <= m < 2.0 && Subnormal(t) == Product(m, Pow2(k))
    requires SMALLEST <= k <= -BIAS
    ensures m * 4503599627370496.0 == (t * IntPow2(1 - BIAS - k)) as real
  {
    var q := IntPow2(1 - BIAS - k);
    ToUnits(k);
    Cancel(m, Pow2(k), t as real, Pow2(SMALLEST), q as real);
    IntegerProduct(t, q);
  }

  lemma {:induction false} ToUnits(k: int)
    requires SMALLEST <= k <= -BIAS
    ensures Pow2(k) * IntPow2(1 - BIAS - k) as real == Pow2(SMALLEST) * 4503599627370496.0
  {
    var e := 1 - BIAS - k;
    var q := IntPow2(e) as real;
    assert q == Pow2(e);
    SmallestUnit();
    Pow2Add(k, e);
    assert Product(Pow2(k), q) == Pow2(k) * q;
  }

  lemma {:induction false} IntegerProduct(a: int, b: int)
    ensures a as real * b as real == (a * b) as real
  {
  }

  lemma {:induction false} Cancel(m: real, p: real, t: real, u: real, q: real)
    requires u > 0.0 && m * p == t * u && p * q == u * 4503599627370496.0
    ensures m * 4503599627370496.0 == t * q
  {
    assert (m * p) * q == m * (p * q);
    assert (t * u) * q == (t * q) * u;
    assert (m * 4503599627370496.0 - t * q) * u == 0.0;
  }

  lemma {:induction false} TruncatedExactly(m: real, t: int)
    requires 1.0 <= m < 2.0 && m * 4503599627370496.0 == (t + TWO_52) as real
    ensures Truncated(m) == t && 0 <= t < TWO_52
  {
    MulAtMost(1.0, m, 4503599627370496.0);
    MulLess(m, 2.0, 4503599627370496.0);
    ScaledMantissa(m - 1.0, t as real, 0.5);
  }

  /** What the code computes from a subnormal number. */
  lemma {:induction false} SubnormalTruncated(t: int, m: real, k: int)
    requires 0 < t < TWO_52 && 1.0 <= m < 2.0 && Subnormal(t) == Product(m, Pow2(k))
    ensures SMALLEST <= k <= -BIAS
    ensures Truncated(m) == t * IntPow2(1 - BIAS - k) - TWO_52 && 0 <= Truncated(m) < TWO_52
  {
    SubnormalExponent(t, m, k);
    SubnormalMantissa(t, m, k);
    TruncatedExactly(m, t * IntPow2(1 - BIAS - k) - TWO_52);
  }

  lemma {:induction false} SubnormalNonZero(t: int)
    requires 0 <= t < TWO_52
    ensures Subnormal(t) >= 0.0 && (Subnormal(t) == 0.0 <==> t == 0)
  {
    if t > 0 {
      MulLess(0.0, t as real, Pow2(SMALLEST));
    }
  }

  /** Every normal form of a finite double has a significand of 52 bits. */
  lemma {:induction false} FiniteMantissa(f: real, magnitude: real, m: real, k: int)
    requires Finite(f) && f != 0.0 && magnitude == (if f < 0.0 then -f else f)
    requires 1.0 <= m < 2.0 && magnitude == Product(m, Pow2(k))
    ensures 0 <= Truncated(m) < TWO_52
  {
    var b: U64 :| ExponentField(b) <= 2046 && StandardValue(b) == f;
    if ExponentField(b) == 0 {
      SubnormalValue(b);
      SubnormalNonZero(SignificandField(b));
      SubnormalTruncated(SignificandField(b), m, k);
    } else {
      var t, e := SignificandField(b), ExponentField(b);
      assert magnitude == Magnitude(t, e);
      NormalFormUnique(m, k, Mantissa(t), e - BIAS);
      HalfIsLost(t, 4503599627370496.0 + 0.5);
    }
  }

  lemma {:induction false} RepresentableIsFinite(f: real)
    requires Representable(f)
    ensures Finite(f)
  {
    var d :| Denotes(d, f);
    var b := d.Bits();
    assert Encodes(d, b);
    CanonicalIff(b);
    DecodeAgreesIff(b);
    DecodeBits(d);
    if d.Zero? {
      CanonicalIff(0);
    }
  }

  /** From a finite double enc754 makes the pattern of that double exactly if it is plus zero or
      normal: minus zero and every subnormal number get another one. */
  lemma {:induction false} EncodeAgreesIff(b: U64, r: U64)
    requires ExponentField(b) <= 2046 && EncodesAs(StandardValue(b), r)
    ensures r == b <==> Canonical(b)
  {
    CanonicalIff(b);
    var f := StandardValue(b);
    if Canonical(b) {
      EncodeDecode(b);
      DecodeAgreesIff(b);
      RepresentableEncoded(f, r);
    } else {
      SubnormalValue(b);
      SubnormalNonZero(SignificandField(b));
      if f != 0.0 {
        var m, k :| NormalFormOf(f, m, k) && r == Assembled(f < 0.0, k + BIAS, Truncated(m));
        SubnormalTruncated(SignificandField(b), m, k);
        SubnormalMisencoded(SignificandField(b), f < 0.0, k, Truncated(m));
      }
    }
  }

  lemma {:induction false} SubnormalMisencoded(t: int, negative: bool, k: int, s: int)
    requires 0 < t < TWO_52 && SMALLEST <= k <= -BIAS
    requires 0 <= s < TWO_52 && s == t * IntPow2(1 - BIAS - k) - TWO_52
    ensures var r := Assembled(negative, k + BIAS, s); ExponentField(r) != 0 || SignificandField(r) != t
  {
    AssembledFields(negative, k + BIAS, s);
    if k == -BIAS {
      assert IntPow2(1) == 2;
    }
  }

  // ----- Decoding with the hardware's rounding -----

  /** Half of `n`, rounded to the nearest integer, ties to even. */
  function HalfToEven(n: nat): (r: nat)
    ensures -1 <= 2 * r - n <= 1 && (2 * r == n || r % 2 == 0)
  {
    if n % 2 == 0 then n / 2 else if n / 2 % 2 == 0 then n / 2 else n / 2 + 1
  }

  /** What dec754 yields where the last halving leaves the normal numbers and is rounded to a
      multiple of 2^-1074, the smallest subnormal number; everywhere else its arithmetic is exact. */
  function RoundedDecode(b: U64): real {
    if b == 0 then 0.0
    else if ExponentField(b) == 0 then Signed(SignBit(b) == 1, Subnormal(HalfToEven(TWO_52 + SignificandField(b))))
    else Signed(SignBit(b) == 1, Magnitude(SignificandField(b), ExponentField(b)))
  }

  /** A subnormal pattern is the one case in which the arithmetic of dec754 is not exact. There the
      exact result is half of a number of smallest units, and the rounded one is that half rounded
      to the nearest integer; on every other pattern the two are the same. */
  lemma {:induction false} LastHalving(b: U64)
    ensures b != 0 && ExponentField(b) == 0 ==>
              var n := TWO_52 + SignificandField(b);
              && Decode(b) == Signed(SignBit(b) == 1, HalfUnits(n))
              && RoundedDecode(b) == Signed(SignBit(b) == 1, Subnormal(HalfToEven(n)))
    ensures b == 0 || ExponentField(b) != 0 ==> RoundedDecode(b) == Decode(b)
  {
    LowestMagnitude(SignificandField(b));
  }

  /** Half of so many smallest units. */
  function HalfUnits(n: int): real {
    n as real / 2.0 * Pow2(SMALLEST)
  }

  lemma {:induction false} LowestMagnitude(t: int)
    requires 0 <= t < TWO_52
    ensures Magnitude(t, 0) == HalfUnits(TWO_52 + t)
  {
    SmallestUnit();
    Pow2Step(-BIAS);
    ToHalfUnits(Mantissa(t), t as real, Pow2(-BIAS), Pow2(SMALLEST));
  }

  lemma {:induction false} ToHalfUnits(m: real, t: real, p: real, u: real)
    requires (m - 1.0) * 4503599627370496.0 == t && 2.0 * p == u * 4503599627370496.0
    ensures m * p == (4503599627370496.0 + t) / 2.0 * u
  {
    assert m * 4503599627370496.0 == 4503599627370496.0 + t;
    assert m * (2.0 * p) == (m * 4503599627370496.0) * u;
  }

  /** The rounding does not help: on finite patterns decoding agrees with the standard exactly on
      plus zero and the normal numbers. */
  lemma {:induction false} RoundedDecodeAgreesIff(b: U64)
    requires ExponentField(b) <= 2046
    ensures RoundedDecode(b) == StandardValue(b) <==> Canonical(b)
  {
    CanonicalIff(b);
    LastHalving(b);
    if b == 0 || ExponentField(b) != 0 {
      DecodeAgreesIff(b);
    } else {
      SubnormalValue(b);
      var t := SignificandField(b);
      SubnormalNonZero(t);
      SubnormalGrows(t, HalfToEven(TWO_52 + t));
    }
  }

  lemma {:induction false} SubnormalGrows(t: int, r: int)
    requires t < r
    ensures Subnormal(t) < Subnormal(r)
  {
    MulLess(t as real, r as real, Pow2(SMALLEST));
  }

  // ----- The code -----

  /** Whatever precision the scale factor is computed in, its extra half never reaches the
      significand: for any factor between 2^52 and 2^52 + 1/2 the product truncates to `t`. */
  lemma {:induction false} HalfIsLost(t: int, scale: real)
    requires 0 <= t < TWO_52
    requires 4503599627370496.0 <= scale <= 4503599627370496.0 + 0.5
    ensures ((Mantissa(t) - 1.0) * scale).Floor == t
  {
    ScaledMantissa(Mantissa(t) - 1.0, t as real, scale - 4503599627370496.0);
  }

  lemma {:induction false} ScaledMantissa(x: real, t: real, extra: real)
    requires 0.0 <= x < 1.0 && x * 4503599627370496.0 == t
    requires 0.0 <= extra <= 0.5
    ensures t <= x * (4503599627370496.0 + extra) <= t + 0.5
  {
    assert 0.0 <= x * extra <= 1.0 * extra;
  }

  /** Halves and doubles a positive number into [1, 2), counting the steps. */
  method Normalize(f: real) returns (fnorm: real, shift: int)
    requires f > 0.0
    ensures 1.0 <= fnorm < 2.0
    ensures f == Product(fnorm, Pow2(shift))
  {
    fnorm, shift := f, 0;
    while fnorm >= 2.0
      invariant fnorm > 0.0
      invariant f == Product(fnorm, Pow2(shift))
      decreases fnorm.Floor
    {
      Pow2Step(shift);
      Rebalance(fnorm / 2.0, Pow2(shift));
      HalvingLowers(fnorm);
      fnorm := fnorm / 2.0;
      shift := shift + 1;
    }
    while fnorm < 1.0
      invariant 0.0 < fnorm < 2.0
      invariant f == Product(fnorm, Pow2(shift))
      decreases Inverse(fnorm).Floor
    {
      Pow2Step(shift - 1);
      Rebalance(fnorm, Pow2(shift - 1));
      InverseHalves(fnorm);
      fnorm := fnorm * 2.0;
      shift := shift - 1;
    }
  }

  lemma {:induction false} Rebalance(m: real, p: real)
    requires m > 0.0 && p > 0.0
    ensures Product(m * 2.0, p) == Product(m, 2.0 * p)
  {
  }

  function Inverse(x: real): (r: real)
    requires x > 0.0
    ensures r > 0.0
    ensures x < 1.0 ==> r > 1.0
  {
    1.0 / x
  }

  lemma {:induction false} HalvingLowers(x: real)
    requires x >= 2.0
    ensures 0 <= (x / 2.0).Floor < x.Floor
  {
  }

  lemma {:induction false} InverseHalves(x: real)
    requires 0.0 < x < 1.0
    ensures 0 <= Inverse(x * 2.0).Floor < Inverse(x).Floor
  {
    var r, h := Inverse(x), Inverse(x * 2.0);
    assert r * x == 1.0 && h * (x * 2.0) == 1.0;
    assert (r - 2.0 * h) * x == 0.0;
    assert r == 2.0 * h;
  }

  /** enc754 */
  method Enc754(f: real) returns (r: U64)
    requires Finite(f)
    ensures EncodesAs(f, r)
    ensures Representable(f) ==> r == Encode(f)
  {
    if f == 0.0 {
      r := 0;
      ZeroEncoded();
      return;
    }
    var negative, magnitude := false, f;
    if f < 0.0 {
      negative, magnitude := true, -f;
    }
    var fnorm, shift := Normalize(magnitude);
    ghost var mantissa := fnorm;
    FiniteMantissa(f, magnitude, mantissa, shift);
    fnorm := fnorm - 1.0;
    var significand := (fnorm * (4503599627370496.0 + 0.5)).Floor;
    var exp := shift + BIAS;
    r := Assembled(negative, exp, significand);
    assert NormalFormOf(f, mantissa, shift);
    if Representable(f) {
      RepresentableEncoded(f, r);
    }
  }

  lemma {:induction false} ZeroEncoded()
    ensures Representable(0.0) && Encode(0.0) == 0
  {
    assert Denotes(Zero, 0.0);
    assert Encodes(Zero, Encode(0.0));
  }

  lemma {:induction false} RepresentableEncoded(f: real, r: U64)
    requires Representable(f) && EncodesAs(f, r)
    ensures r == Encode(f)
  {
    var d :| Denotes(d, f);
    assert Encodes(d, Encode(f));
    if f == 0.0 {
      ZeroEncoded();
    } else {
      var m, k :| NormalFormOf(f, m, k) && r == Assembled(f < 0.0, k + BIAS, Truncated(m));
      EncodedBits(d, f, m, k);
    }
  }

  lemma {:induction false} EncodedBits(d: Binary64, f: real, m: real, k: int)
    requires Denotes(d, f) && NormalFormOf(f, m, k)
    ensures Assembled(f < 0.0, k + BIAS, Truncated(m)) == d.Bits()
  {
    EncodedFields(d, f, if f < 0.0 then -f else f, m, k);
    AssembledFields(f < 0.0, k + BIAS, Truncated(m));
  }

  lemma {:induction false} EncodedFields(d: Binary64, f: real, magnitude: real, mantissa: real, shift: int)
    requires Denotes(d, f) && f != 0.0
    requires magnitude == if f < 0.0 then -f else f
    requires 1.0 <= mantissa < 2.0 && magnitude == Product(mantissa, Pow2(shift))
    ensures d.Normal? && d.negative == (f < 0.0) && d.biased == shift + BIAS
    ensures ((mantissa - 1.0) * (4503599627370496.0 + 0.5)).Floor == d.significand
  {
    NormalNonZero(d);
    assert magnitude == Magnitude(d.significand, d.biased);
    NormalFormUnique(mantissa, shift, Mantissa(d.significand), d.biased - BIAS);
    HalfIsLost(d.significand, 4503599627370496.0 + 0.5);
  }

  /** Doubles or halves `n` times. */
  method Scale(f: real, n: int) returns (result: real)
    requires f > 0.0
    ensures result == Product(f, Pow2(n))
  {
    result := f;
    var shift := n;
    while shift > 0
      invariant result > 0.0 && Product(result, Pow2(shift)) == Product(f, Pow2(n))
      decreases shift
    {
      Pow2Step(shift - 1);
      Rebalance(result, Pow2(shift - 1));
      result := result * 2.0;
      shift := shift - 1;
    }
    while shift < 0
      invariant shift <= 0
      invariant result > 0.0 && Product(result, Pow2(shift)) == Product(f, Pow2(n))
      decreases -shift
    {
      Pow2Step(shift);
      Rebalance(result / 2.0, Pow2(shift));
      result := result / 2.0;
      shift := shift + 1;
    }
  }

  /** dec754; the exponent is subtracted without a sign and then reinterpreted. */
  method Dec754(i: U64) returns (result: real)
    ensures result == Decode(i)
  {
    if i == 0 {
      return 0.0;
    }
    result := (i % TWO_52) as real;
    result := result / 4503599627370496.0;
    result := result + 1.0;
    ghost var mantissa := result;
    assert mantissa == Mantissa(SignificandField(i));
    var unsigned := (i / TWO_52 % 2048 - BIAS) % TWO_64;
    var shift := if unsigned >= TWO_63 then unsigned - TWO_64 else unsigned;
    assert shift == ExponentField(i) - BIAS;
    result := Scale(result, shift);
    assert result == Magnitude(SignificandField(i), ExponentField(i));
    result := result * (if i / TWO_63 % 2 == 1 then -1.0 else 1.0);
  }
}
