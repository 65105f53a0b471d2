/** Distance on the sphere and the utility of one node for another, over exact reals. */
module Geometry {
  import opened Records
  import Ieee754

  const EARTH_RADIUS := 6371008.7714
  const TO_RAD := 3.1415926536 / 180.0

  /** The library functions the distance calls. */
  datatype MathLib = MathLib(sin: real -> real, cos: real -> real, asin: real -> real, sqrt: real -> real) {
    /** The facts used about them: one point per angle on the unit circle, an even cosine, and
        non-negative roots and arcs. */
    ghost predicate Lawful() {
      && (forall x :: sin(x) * sin(x) + cos(x) * cos(x) == 1.0)
      && (forall x :: cos(-x) == cos(x))
      && (forall x :: x >= 0.0 ==> sqrt(x) >= 0.0 && sqrt(x) * sqrt(x) == x)
      && (forall x :: 0.0 <= x <= 1.0 ==> asin(x) >= 0.0)
    }

    /** The formulas for the sine and cosine of a difference. */
    ghost predicate Differences() {
      forall x, y :: DifferenceAt(x, y)
    }

    /** Sine and arc sine undo each other between 0 and the right angle `h`. */
    ghost predicate Arcs(h: real) {
      && (forall x :: 0.0 <= x <= 1.0 ==> ArcAt(h, x))
      && (forall x :: 0.0 <= x <= h ==> SineAt(x))
    }

    ghost predicate ArcAt(h: real, x: real) {
      0.0 <= asin(x) <= h && sin(asin(x)) == x
    }

    ghost predicate SineAt(x: real) {
      0.0 <= sin(x) <= 1.0 && asin(sin(x)) == x
    }

    ghost predicate DifferenceAt(x: real, y: real) {
      sin(x - y) == sin(x) * cos(y) - cos(x) * sin(y) && cos(x - y) == cos(x) * cos(y) + sin(x) * sin(y)
    }
  }

  /** Squared length of the chord between two points given by the sine and cosine of their
      latitudes and of the difference of their longitudes. */
  function Chord(s1: real, c1: real, s2: real, c2: real, sp: real, cp: real): real {
    var dz := s1 - s2;
    var dx := cp * c1 - c2;
    var dy := sp * c1;
    dx * dx + dy * dy + dz * dz
  }

  function ChordSquared(lib: MathLib, th1: real, ph1: real, th2: real, ph2: real): real {
    var a, b, p := th1 * TO_RAD, th2 * TO_RAD, (ph1 - ph2) * TO_RAD;
    Chord(lib.sin(a), lib.cos(a), lib.sin(b), lib.cos(b), lib.sin(p), lib.cos(p))
  }

  /** geo_distance_meters */
  function DistanceMeters(lib: MathLib, th1: real, ph1: real, th2: real, ph2: real): real {
    lib.asin(lib.sqrt(ChordSquared(lib, th1, ph1, th2, ph2)) / 2.0) * 2.0 * EARTH_RADIUS
  }

  function Distance(lib: MathLib, a: Node, b: Node): real {
    DistanceMeters(lib, a.lat, a.lon, b.lat, b.lon)
  }

  /** Squared range over squared distance, the largest double when the distance is zero. */
  function Ratio(range: real, distance: real): real {
    if distance * distance != 0.0 then range * range / (distance * distance) else Ieee754.DBL_MAX
  }

  function RangeSum(a: Node, b: Node): real {
    (a.coordRange + b.coordRange) as real
  }

  /** Node_utility */
  function Utility(lib: MathLib, a: Node, b: Node): real {
    Ratio(RangeSum(a, b), Distance(lib, a, b))
  }

  lemma {:induction false} ExpandChord(s1: real, c1: real, s2: real, c2: real, sp: real, cp: real)
    requires s1 * s1 + c1 * c1 == 1.0 && s2 * s2 + c2 * c2 == 1.0 && sp * sp + cp * cp == 1.0
    ensures Chord(s1, c1, s2, c2, sp, cp) == 2.0 - 2.0 * (cp * (c1 * c2) + s1 * s2)
  {
    var x := cp * (c1 * c2);
    calc {
      (cp * c1 - c2) * (cp * c1 - c2) + (sp * c1) * (sp * c1);
      (cp * cp) * (c1 * c1) - 2.0 * x + c2 * c2 + (sp * sp) * (c1 * c1);
      (cp * cp + sp * sp) * (c1 * c1) - 2.0 * x + c2 * c2;
      c1 * c1 - 2.0 * x + c2 * c2;
    }
    assert (s1 - s2) * (s1 - s2) == s1 * s1 - 2.0 * (s1 * s2) + s2 * s2;
  }

  /** Twice the cosine of the angle between the two points. */
  function TwiceCosine(s1: real, c1: real, s2: real, c2: real, cp: real): real {
    2.0 * (cp * (c1 * c2) + s1 * s2)
  }

  lemma {:induction false} ChordIsPositive(s1: real, c1: real, s2: real, c2: real, sp: real, cp: real)
    requires s1 * s1 + c1 * c1 == 1.0 && s2 * s2 + c2 * c2 == 1.0 && sp * sp + cp * cp == 1.0
    ensures 0.0 <= Chord(s1, c1, s2, c2, sp, cp) == 2.0 - TwiceCosine(s1, c1, s2, c2, cp)
  {
    ExpandChord(s1, c1, s2, c2, sp, cp);
    SumOfSquares(cp * c1 - c2, sp * c1, s1 - s2);
  }

  /** The chord to the antipode of the second point is a sum of squares as well. */
  lemma {:induction false} AntipodeChord(s1: real, c1: real, s2: real, c2: real, sp: real, cp: real)
    requires s1 * s1 + c1 * c1 == 1.0 && s2 * s2 + c2 * c2 == 1.0 && sp * sp + cp * cp == 1.0
    ensures 2.0 + TwiceCosine(s1, c1, s2, c2, cp) >= 0.0
  {
    var s, c := -s2, -c2;
    ChordIsPositive(s1, c1, s, c, sp, cp);
    Antipode(s1, c1, s2, c2, cp, s, c);
  }

  lemma {:induction false} Antipode(s1: real, c1: real, s2: real, c2: real, cp: real, s: real, c: real)
    requires s == -s2 && c == -c2
    ensures TwiceCosine(s1, c1, s, c, cp) == -TwiceCosine(s1, c1, s2, c2, cp)
  {
    assert c1 * c == -(c1 * c2);
    assert cp * (c1 * c) == -(cp * (c1 * c2)) && s1 * s == -(s1 * s2);
  }

  lemma {:induction false} ChordAtMostTwo(s1: real, c1: real, s2: real, c2: real, sp: real, cp: real)
    requires s1 * s1 + c1 * c1 == 1.0 && s2 * s2 + c2 * c2 == 1.0 && sp * sp + cp * cp == 1.0
    ensures 0.0 <= Chord(s1, c1, s2, c2, sp, cp) <= 4.0
  {
    ChordIsPositive(s1, c1, s2, c2, sp, cp);
    AntipodeChord(s1, c1, s2, c2, sp, cp);
  }

  lemma {:induction false} SumOfSquares(x: real, y: real, z: real)
    ensures x * x + y * y + z * z >= 0.0
  {
    assert x * x >= 0.0 && y * y >= 0.0 && z * z >= 0.0;
  }

  /** The chord does not depend on the order of the two points. */
  lemma {:induction false} ChordSymmetric(lib: MathLib, th1: real, ph1: real, th2: real, ph2: real)
    requires lib.Lawful()
    ensures ChordSquared(lib, th1, ph1, th2, ph2) == ChordSquared(lib, th2, ph2, th1, ph1)
  {
    var a, b, p := th1 * TO_RAD, th2 * TO_RAD, (ph1 - ph2) * TO_RAD;
    assert (ph2 - ph1) * TO_RAD == -p;
    var s1, c1, s2, c2 := lib.sin(a), lib.cos(a), lib.sin(b), lib.cos(b);
    ExpandChord(s1, c1, s2, c2, lib.sin(p), lib.cos(p));
    ExpandChord(s2, c2, s1, c1, lib.sin(-p), lib.cos(-p));
    assert c1 * c2 == c2 * c1 && s1 * s2 == s2 * s1;
  }

  /** The arc sine is only ever asked for an argument between 0 and 1. */
  lemma {:induction false} AsinArgumentInRange(lib: MathLib, th1: real, ph1: real, th2: real, ph2: real)
    requires lib.Lawful()
    ensures 0.0 <= ChordSquared(lib, th1, ph1, th2, ph2) <= 4.0
    ensures 0.0 <= lib.sqrt(ChordSquared(lib, th1, ph1, th2, ph2)) / 2.0 <= 1.0
    ensures DistanceMeters(lib, th1, ph1, th2, ph2) >= 0.0
  {
    var a, b, p := th1 * TO_RAD, th2 * TO_RAD, (ph1 - ph2) * TO_RAD;
    ChordAtMostTwo(lib.sin(a), lib.cos(a), lib.sin(b), lib.cos(b), lib.sin(p), lib.cos(p));
    var q := ChordSquared(lib, th1, ph1, th2, ph2);
    RootAtMostTwo(lib.sqrt(q), q);
  }

  // ----- What the chord means -----

  /** A point of the unit sphere. */
  datatype Point = Point(x: real, y: real, z: real)

  function PointAt(lib: MathLib, th: real, ph: real): Point {
    PointOf(lib, th * TO_RAD, ph * TO_RAD)
  }

  function PointOf(lib: MathLib, t: real, p: real): Point {
    Point(lib.cos(t) * lib.cos(p), lib.cos(t) * lib.sin(p), lib.sin(t))
  }

  /** Squared straight-line distance in space. */
  function Apart(p: Point, q: Point): real {
    Sq(p.x - q.x) + Sq(p.y - q.y) + Sq(p.z - q.z)
  }

  function Sq(x: real): real { x * x }

  lemma {:induction false} ExpandSq(x: real, y: real)
    ensures Sq(x - y) == Sq(x) - 2.0 * (x * y) + Sq(y)
  {
  }

  lemma {:induction false} SqOfProduct(c: real, x: real, y: real)
    requires Sq(x) + Sq(y) == 1.0
    ensures Sq(c * x) + Sq(c * y) == Sq(c)
  {
    assert Sq(c * x) == Sq(c) * Sq(x) && Sq(c * y) == Sq(c) * Sq(y);
    assert Sq(c) * Sq(x) + Sq(c) * Sq(y) == Sq(c) * (Sq(x) + Sq(y));
  }

  lemma {:induction false} CrossTerms(c1: real, c2: real, sa: real, ca: real, sb: real, cb: real)
    ensures (c1 * ca) * (c2 * cb) + (c1 * sa) * (c2 * sb) == (ca * cb + sa * sb) * (c1 * c2)
  {
  }

  /** Two points given by the sines and cosines of latitude and longitude. */
  lemma {:induction false} ApartExpanded(s1: real, c1: real, sa: real, ca: real, s2: real, c2: real, sb: real, cb: real)
    requires Sq(s1) + Sq(c1) == 1.0 && Sq(s2) + Sq(c2) == 1.0
    requires Sq(ca) + Sq(sa) == 1.0 && Sq(cb) + Sq(sb) == 1.0
    ensures Apart(Point(c1 * ca, c1 * sa, s1), Point(c2 * cb, c2 * sb, s2))
            == 2.0 - 2.0 * ((ca * cb + sa * sb) * (c1 * c2) + s1 * s2)
  {
    ExpandSq(c1 * ca, c2 * cb);
    ExpandSq(c1 * sa, c2 * sb);
    ExpandSq(s1, s2);
    SqOfProduct(c1, ca, sa);
    SqOfProduct(c2, cb, sb);
    CrossTerms(c1, c2, sa, ca, sb, cb);
  }

  /** The expression the code takes the root of is the squared distance in space between the two
      points, by the formulas for the sine and cosine of a difference. */
  lemma {:induction false} ChordIsDistanceInSpace(lib: MathLib, th1: real, ph1: real, th2: real, ph2: real)
    requires lib.Lawful() && lib.Differences()
    ensures ChordSquared(lib, th1, ph1, th2, ph2) == Apart(PointAt(lib, th1, ph1), PointAt(lib, th2, ph2))
  {
    var t1, t2, p1, p2 := th1 * TO_RAD, th2 * TO_RAD, ph1 * TO_RAD, ph2 * TO_RAD;
    Spread(ph1, ph2, TO_RAD);
    OnCircle(lib, t1);
    OnCircle(lib, t2);
    OnCircle(lib, p1);
    OnCircle(lib, p2);
    OnCircle(lib, p1 - p2);
    assert lib.DifferenceAt(p1, p2);
    ChordOfAngles(lib, t1, p1, t2, p2);
  }

  lemma {:induction false} ChordOfAngles(lib: MathLib, t1: real, p1: real, t2: real, p2: real)
    requires UnitAt(lib, t1) && UnitAt(lib, t2) && UnitAt(lib, p1) && UnitAt(lib, p2) && UnitAt(lib, p1 - p2)
    requires lib.DifferenceAt(p1, p2)
    ensures Chord(lib.sin(t1), lib.cos(t1), lib.sin(t2), lib.cos(t2), lib.sin(p1 - p2), lib.cos(p1 - p2))
            == Apart(PointOf(lib, t1, p1), PointOf(lib, t2, p2))
  {
    ChordOfPoints(lib.sin(t1), lib.cos(t1), lib.sin(p1), lib.cos(p1),
                  lib.sin(t2), lib.cos(t2), lib.sin(p2), lib.cos(p2), lib.sin(p1 - p2), lib.cos(p1 - p2));
  }

  lemma {:induction false} Spread(x: real, y: real, k: real)
    ensures (x - y) * k == x * k - y * k
  {
  }

  lemma {:induction false} OnCircle(lib: MathLib, x: real)
    requires lib.Lawful()
    ensures UnitAt(lib, x)
  {
  }

  predicate UnitAt(lib: MathLib, x: real) {
    lib.sin(x) * lib.sin(x) + lib.cos(x) * lib.cos(x) == 1.0
  }

  lemma {:induction false} ChordOfPoints(s1: real, c1: real, sa: real, ca: real, s2: real, c2: real, sb: real,
                                         cb: real, sp: real, cp: real)
    requires s1 * s1 + c1 * c1 == 1.0 && s2 * s2 + c2 * c2 == 1.0 && sp * sp + cp * cp == 1.0
    requires sa * sa + ca * ca == 1.0 && sb * sb + cb * cb == 1.0
    requires cp == ca * cb + sa * sb
    ensures Chord(s1, c1, s2, c2, sp, cp) == Apart(Point(c1 * ca, c1 * sa, s1), Point(c2 * cb, c2 * sb, s2))
  {
    ExpandChord(s1, c1, s2, c2, sp, cp);
    ApartExpanded(s1, c1, sa, ca, s2, c2, sb, cb);
  }

  lemma {:induction false} SameTerms(p: Point, q: Point)
    ensures Apart(p, q) == 0.0 <==> p == q
  {
    assert Sq(p.x - q.x) >= 0.0 && Sq(p.y - q.y) >= 0.0 && Sq(p.z - q.z) >= 0.0;
    SqZero(p.x - q.x);
    SqZero(p.y - q.y);
    SqZero(p.z - q.z);
  }

  lemma {:induction false} SqZero(x: real)
    ensures Sq(x) == 0.0 <==> x == 0.0
  {
    if x > 0.0 {
      SquareLess(0.0, x);
    } else if x < 0.0 {
      SquareLess(0.0, -x);
      assert Sq(x) == Sq(-x);
    }
  }

  /** The distance is zero, and the utility therefore the largest double, exactly for two nodes at
      the same point of the sphere. */
  lemma {:induction false} ZeroDistanceIff(lib: MathLib, a: Node, b: Node)
    requires lib.Lawful() && lib.Differences()
    requires forall x :: 0.0 <= x <= 1.0 ==> (lib.asin(x) == 0.0 <==> x == 0.0)
    ensures Distance(lib, a, b) == 0.0 <==> PointAt(lib, a.lat, a.lon) == PointAt(lib, b.lat, b.lon)
    ensures PointAt(lib, a.lat, a.lon) == PointAt(lib, b.lat, b.lon) ==> Utility(lib, a, b) == Ieee754.DBL_MAX
  {
    ChordIsDistanceInSpace(lib, a.lat, a.lon, b.lat, b.lon);
    SameTerms(PointAt(lib, a.lat, a.lon), PointAt(lib, b.lat, b.lon));
    ZeroChordIff(lib, a.lat, a.lon, b.lat, b.lon);
  }

  lemma {:induction false} ZeroChordIff(lib: MathLib, th1: real, ph1: real, th2: real, ph2: real)
    requires lib.Lawful()
    requires forall x :: 0.0 <= x <= 1.0 ==> (lib.asin(x) == 0.0 <==> x == 0.0)
    ensures DistanceMeters(lib, th1, ph1, th2, ph2) == 0.0 <==> ChordSquared(lib, th1, ph1, th2, ph2) == 0.0
  {
    AsinArgumentInRange(lib, th1, ph1, th2, ph2);
    var q := ChordSquared(lib, th1, ph1, th2, ph2);
    RootZeroIff(lib, q);
    var half := lib.sqrt(q) / 2.0;
    assert lib.asin(half) == 0.0 <==> half == 0.0;
  }

  lemma {:induction false} RootZeroIff(lib: MathLib, q: real)
    requires lib.Lawful() && q >= 0.0
    ensures lib.sqrt(q) == 0.0 <==> q == 0.0
  {
    SqZero(lib.sqrt(q));
    assert Sq(lib.sqrt(q)) == q;
  }

  lemma {:induction false} RootAtMostTwo(r: real, q: real)
    requires r >= 0.0 && r * r == q && q <= 4.0
    ensures r <= 2.0
  {
    assert r > 2.0 ==> r * r > 2.0 * 2.0;
  }

  // ----- What the distance is -----

  /** On a sphere of radius 6371008.7714 metres `d` is the length of an arc of at most half a turn,
      twice the right angle `h`, over a chord whose square is `q` on the unit sphere. */
  predicate ArcOver(lib: MathLib, h: real, q: real, d: real) {
    && 0.0 <= d <= h * (2.0 * 6371008.7714)
    && Sq(2.0 * 6371008.7714 * lib.sin(d / (2.0 * 6371008.7714))) == Sq(6371008.7714) * q
  }

  function FromDegrees(lib: MathLib, lat: real, lon: real): Point {
    PointOf(lib, lat * (3.1415926536 / 180.0), lon * (3.1415926536 / 180.0))
  }

  /** `d` is the length in metres of the shorter great-circle arc between two places in degrees: its
      chord is the straight line between them. */
  predicate GreatCircle(lib: MathLib, h: real, lat1: real, lon1: real, lat2: real, lon2: real, d: real) {
    ArcOver(lib, h, Apart(FromDegrees(lib, lat1, lon1), FromDegrees(lib, lat2, lon2)), d)
  }

  lemma {:induction false} HalfChord(r: real, q: real)
    requires r >= 0.0 && r * r == q
    ensures Sq(2.0 * 6371008.7714 * (r / 2.0)) == Sq(6371008.7714) * q
  {
  }

  lemma {:induction false} HalfChordUnique(x: real, r: real, q: real)
    requires x >= 0.0 && r >= 0.0 && r * r == q
    requires Sq(2.0 * 6371008.7714 * x) == Sq(6371008.7714) * q
    ensures x == r / 2.0
  {
    assert (2.0 * x) * (2.0 * x) == r * r;
    SquareEqual(2.0 * x, r);
  }

  /** The distance is that arc, and nothing else is. */
  lemma {:induction false} DistanceIsGreatCircle(lib: MathLib, h: real, lat1: real, lon1: real, lat2: real,
                                                 lon2: real, d: real)
    requires lib.Lawful() && lib.Differences() && lib.Arcs(h)
    ensures DistanceMeters(lib, lat1, lon1, lat2, lon2) == d <==> GreatCircle(lib, h, lat1, lon1, lat2, lon2, d)
  {
    ArcOverChord(lib, h, lat1, lon1, lat2, lon2, d);
    ChordInDegrees(lib, lat1, lon1, lat2, lon2);
  }

  lemma {:induction false} ArcOverChord(lib: MathLib, h: real, lat1: real, lon1: real, lat2: real, lon2: real, d: real)
    requires lib.Lawful() && lib.Arcs(h)
    ensures DistanceMeters(lib, lat1, lon1, lat2, lon2) == d
       <==> ArcOver(lib, h, ChordSquared(lib, lat1, lon1, lat2, lon2), d)
  {
    var q := ChordSquared(lib, lat1, lon1, lat2, lon2);
    RootOfChord(lib, lat1, lon1, lat2, lon2);
    InMetres(lib, lat1, lon1, lat2, lon2);
    ArcLength(lib, h, lib.sqrt(q), q, d, DistanceMeters(lib, lat1, lon1, lat2, lon2));
  }

  lemma {:induction false} ChordInDegrees(lib: MathLib, lat1: real, lon1: real, lat2: real, lon2: real)
    requires lib.Lawful() && lib.Differences()
    ensures ChordSquared(lib, lat1, lon1, lat2, lon2)
            == Apart(FromDegrees(lib, lat1, lon1), FromDegrees(lib, lat2, lon2))
  {
    ChordIsDistanceInSpace(lib, lat1, lon1, lat2, lon2);
    PlaceInDegrees(lib, lat1, lon1);
    PlaceInDegrees(lib, lat2, lon2);
  }

  lemma {:induction false} PlaceInDegrees(lib: MathLib, lat: real, lon: real)
    ensures PointAt(lib, lat, lon) == FromDegrees(lib, lat, lon)
  {
  }

  lemma {:induction false} RootOfChord(lib: MathLib, lat1: real, lon1: real, lat2: real, lon2: real)
    requires lib.Lawful()
    ensures var q := ChordSquared(lib, lat1, lon1, lat2, lon2);
            0.0 <= lib.sqrt(q) <= 2.0 && lib.sqrt(q) * lib.sqrt(q) == q
  {
    AsinArgumentInRange(lib, lat1, lon1, lat2, lon2);
  }

  lemma {:induction false} InMetres(lib: MathLib, lat1: real, lon1: real, lat2: real, lon2: real)
    ensures DistanceMeters(lib, lat1, lon1, lat2, lon2)
            == lib.asin(lib.sqrt(ChordSquared(lib, lat1, lon1, lat2, lon2)) / 2.0) * (2.0 * 6371008.7714)
  {
  }

  lemma {:induction false} ArcLength(lib: MathLib, h: real, r: real, q: real, d: real, e: real)
    requires lib.Arcs(h) && 0.0 <= r <= 2.0 && r * r == q
    requires e == lib.asin(r / 2.0) * (2.0 * 6371008.7714)
    ensures e == d <==> ArcOver(lib, h, q, d)
  {
    var half, x := r / 2.0, d / (2.0 * 6371008.7714);
    assert lib.ArcAt(h, half);
    HalfChord(r, q);
    if 0.0 <= x <= h {
      assert lib.SineAt(x);
      if Sq(2.0 * 6371008.7714 * lib.sin(x)) == Sq(6371008.7714) * q {
        HalfChordUnique(lib.sin(x), r, q);
      }
    }
  }

  lemma {:induction false} SquareLess(x: real, y: real)
    requires 0.0 <= x < y
    ensures x * x < y * y
  {
    var d := y - x;
    assert d * (y + x) > 0.0;
    assert d * (y + x) == y * y - x * x;
  }

  lemma {:induction false} SquareOrder(x: real, y: real)
    requires x >= 0.0 && y >= 0.0
    ensures x * x >= y * y <==> x >= y
  {
    if x < y {
      SquareLess(x, y);
    } else if x > y {
      SquareLess(y, x);
    }
  }

  lemma {:induction false} QuotientAtLeastOne(n: real, d: real)
    requires n >= 0.0 && d > 0.0
    ensures n / d >= 1.0 <==> n >= d
  {
    var q := n / d;
    assert q * d == n;
    if q >= 1.0 {
      assert q * d >= 1.0 * d;
    } else {
      assert q * d < 1.0 * d;
    }
  }

  lemma {:induction false} RatioAtLeastOne(range: real, distance: real)
    requires range >= 0.0 && distance >= 0.0
    ensures Ratio(range, distance) >= 1.0 <==> distance <= range
  {
    var dd, rr := distance * distance, range * range;
    if dd != 0.0 {
      assert dd >= 0.0 && rr >= 0.0;
      QuotientAtLeastOne(rr, dd);
      SquareOrder(range, distance);
    } else {
      Ieee754.DblMaxIsLarge();
      SquareOrder(0.0, distance);
    }
  }

  /** Equal ratios, without a division: both distances zero, or crosswise equal products, or one
      distance zero and the other ratio as large as the largest double. */
  predicate SameRatio(r1: real, d1: real, r2: real, d2: real) {
    if d1 == 0.0 && d2 == 0.0 then true
    else if d1 == 0.0 then r2 * r2 == Ieee754.DBL_MAX * (d2 * d2)
    else if d2 == 0.0 then r1 * r1 == Ieee754.DBL_MAX * (d1 * d1)
    else r1 * d2 == r2 * d1
  }

  lemma {:induction false} SquareEqual(x: real, y: real)
    requires x >= 0.0 && y >= 0.0
    ensures x * x == y * y <==> x == y
  {
    SquareOrder(x, y);
    SquareOrder(y, x);
  }

  lemma {:induction false} QuotientIs(n: real, d: real, q: real)
    requires d > 0.0
    ensures n / d == q <==> n == q * d
  {
    var p := n / d;
    assert p * d == n;
    assert (p - q) * d == p * d - q * d;
    if n == q * d {
      assert (p - q) * d == 0.0;
    }
  }

  lemma {:induction false} QuotientsEqual(a: real, b: real, c: real, d: real)
    requires b > 0.0 && d > 0.0
    ensures a / b == c / d <==> a * d == c * b
  {
    var q := c / d;
    assert q * d == c;
    QuotientIs(a, b, q);
    assert (q * b) * d == (q * d) * b;
    assert (a - q * b) * d == a * d - (q * b) * d;
    if a * d == c * b {
      assert (a - q * b) * d == 0.0;
    }
  }

  lemma {:induction false} ProductSquared(x: real, y: real)
    ensures (x * x) * (y * y) == (x * y) * (x * y)
  {
  }

  lemma {:induction false} SquaredRatios(r1: real, d1: real, r2: real, d2: real)
    requires r1 >= 0.0 && d1 > 0.0 && r2 >= 0.0 && d2 > 0.0
    ensures r1 * r1 / (d1 * d1) == r2 * r2 / (d2 * d2) <==> r1 * d2 == r2 * d1
  {
    var p1, p2 := d1 * d1, d2 * d2;
    SqZero(d1);
    SqZero(d2);
    assert p1 == Sq(d1) && p2 == Sq(d2) && p1 >= 0.0 && p2 >= 0.0;
    QuotientsEqual(r1 * r1, p1, r2 * r2, p2);
    ProductSquared(r1, d2);
    ProductSquared(r2, d1);
    assert r1 * d2 >= 0.0 && r2 * d1 >= 0.0;
    SquareEqual(r1 * d2, r2 * d1);
  }

  lemma {:induction false} RatioSameIff(r1: real, d1: real, r2: real, d2: real)
    requires r1 >= 0.0 && d1 >= 0.0 && r2 >= 0.0 && d2 >= 0.0
    ensures Ratio(r1, d1) == Ratio(r2, d2) <==> SameRatio(r1, d1, r2, d2)
  {
    SqZero(d1);
    SqZero(d2);
    if d1 > 0.0 && d2 > 0.0 {
      SquaredRatios(r1, d1, r2, d2);
    } else if d1 > 0.0 {
      assert d1 * d1 == Sq(d1) >= 0.0;
      QuotientIs(r1 * r1, d1 * d1, Ieee754.DBL_MAX);
    } else if d2 > 0.0 {
      assert d2 * d2 == Sq(d2) >= 0.0;
      QuotientIs(r2 * r2, d2 * d2, Ieee754.DBL_MAX);
    }
  }

  /** When a node has the same utility for two others, or for one that has moved. */
  lemma {:induction false} SameUtilityIff(lib: MathLib, a1: Node, a2: Node, b: Node)
    requires lib.Lawful()
    ensures Utility(lib, a1, b) == Utility(lib, a2, b)
       <==> SameRatio(RangeSum(a1, b), Distance(lib, a1, b), RangeSum(a2, b), Distance(lib, a2, b))
  {
    AsinArgumentInRange(lib, a1.lat, a1.lon, b.lat, b.lon);
    AsinArgumentInRange(lib, a2.lat, a2.lon, b.lat, b.lon);
    RatioSameIff(RangeSum(a1, b), Distance(lib, a1, b), RangeSum(a2, b), Distance(lib, a2, b));
  }

  /** A node is a candidate exactly when it lies within the two coordination ranges together. */
  lemma {:induction false} CandidateIffInRange(lib: MathLib, a: Node, b: Node)
    requires lib.Lawful()
    ensures Utility(lib, a, b) >= 1.0 <==> Distance(lib, a, b) <= (a.coordRange + b.coordRange) as real
  {
    AsinArgumentInRange(lib, a.lat, a.lon, b.lat, b.lon);
    RatioAtLeastOne(RangeSum(a, b), Distance(lib, a, b));
  }

  /** Candidacy is mutual; so is the utility itself. */
  lemma {:induction false} CandidacyIsMutual(lib: MathLib, a: Node, b: Node)
    requires lib.Lawful()
    ensures Utility(lib, a, b) == Utility(lib, b, a)
    ensures Utility(lib, a, b) >= 1.0 <==> Utility(lib, b, a) >= 1.0
  {
    assert Distance(lib, a, b) == Distance(lib, b, a) by {
      ChordSymmetric(lib, a.lat, a.lon, b.lat, b.lon);
    }
    assert RangeSum(a, b) == RangeSum(b, a);
  }

  /** Only position and range of the two nodes enter the utility. */
  lemma {:induction false} UtilityIgnoresIdentity(lib: MathLib, a1: Node, a2: Node, b1: Node, b2: Node)
    requires a1.lat == a2.lat && a1.lon == a2.lon && a1.coordRange == a2.coordRange
    requires b1.Wire() == b2.Wire()
    ensures Utility(lib, a1, b1) == Utility(lib, a2, b2)
  {
    assert b1.Wire().lat == b1.lat && b1.Wire().lon == b1.lon && b1.Wire().coordRange == b1.coordRange;
  }
}
