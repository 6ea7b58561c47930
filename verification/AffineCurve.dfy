/** The curve y^2 = x^3 - 3x + b, and that the chord and the tangent law do not leave it. */
module AffineCurve {
  import opened Reduce
  import opened Congruence
  import opened Field
  import opened Points
  import opened Curve
  import opened PrimeField
  import JacobianCurve

  const B: int := 0x5AC635D8_AA3A93E7_B3EBBD55_769886BC_651D06B0_CC53B0F6_3BCE3C3E_27D2604B

  /** y^2 = x^3 - 3x + b */
  ghost predicate OnCurve(a: Point) {
    Cong(Square(a.y), Cube(a.x) - 3 * a.x + B, P)
  }

  // ----- Residues and mirror images -----

  lemma OnCurveSame(p: Point, a: Point)
    requires SamePoint(p, a) && OnCurve(a)
    ensures OnCurve(p)
  {
    Powers(p.x);
    Powers(p.y);
    Powers(a.x);
    Powers(a.y);
    CongMul(p.y, p.y, a.y, a.y, P);
    RightSideSame(p.x, a.x);
    var g, h := Cube(p.x) - 3 * p.x + B, Cube(a.x) - 3 * a.x + B;
    CongTrans(Square(p.y), Square(a.y), h, P);
    CongSym(g, h, P);
    CongTrans(Square(p.y), h, g, P);
  }

  lemma RightSideSame(x: int, a: int)
    requires Cong(x, a, P)
    ensures Cong(Cube(x) - 3 * x + B, Cube(a) - 3 * a + B, P)
  {
    Powers(x);
    Powers(a);
    CongMul(x, x, a, a, P);
    CongMul(x * x, x, a * a, a, P);
    CongRefl(3, P);
    CongRefl(B, P);
    CongMul(3, x, 3, a, P);
    CongSub(Cube(x), 3 * x, Cube(a), 3 * a, P);
    CongAdd(Cube(x) - 3 * x, B, Cube(a) - 3 * a, B, P);
  }

  lemma NegateOnCurve(a: Point)
    ensures OnCurve(Negate(a)) <==> OnCurve(a)
  {
    Powers(a.y);
    Powers(-a.y);
    assert (-a.y) * (-a.y) == a.y * a.y;
  }

  lemma SamePointSym(a: Point, b: Point)
    requires SamePoint(a, b)
    ensures SamePoint(b, a)
  {
    CongSym(a.x, b.x, P);
    CongSym(a.y, b.y, P);
  }

  // ----- Chord and tangent -----

  /** What is missing to y^2 = x^3 - 3x + b. */
  ghost function Missing(a: Point): int {
    Cube(a.x) - 3 * a.x + B - Square(a.y)
  }

  lemma OnCurveMissing(a: Point)
    ensures OnCurve(a) <==> Divides(P, Missing(a))
  {
    var m := Missing(a);
    if Divides(P, m) {
      Combine(P, m, m, -1, 0);
      assert -1 * m + 0 * m == Square(a.y) - (Cube(a.x) - 3 * a.x + B);
    }
    if OnCurve(a) {
      Combine(P, -m, -m, -1, 0);
      assert -1 * -m + 0 * -m == m;
    }
  }

  lemma MissingMeans(a: Point)
    ensures Missing(a) == a.x * a.x * a.x + -3 * a.x + B - a.y * a.y
  {
    Powers(a.x);
    Powers(a.y);
  }

  /** Along the line through (x, y) with slope l, from x to x + d, where l^2 = 3x + d + t. */
  lemma AlongChord(x: int, y: int, l: int, d: int, t: int, k: int, e: int, m: int, m2: int)
    requires l * l == 3 * x + d + t && k == 3 * (x * x) + -3 - 2 * (l * y) - d * t && e == l * d
    requires m == x * x * x + -3 * x + B - y * y
    requires m2 == (x + d) * (x + d) * (x + d) + -3 * (x + d) + B - (y + e) * (y + e)
    ensures m2 - m == d * k
  {
    JacobianCurve.ChordError(x, y, d, e, -3, B);
    SlopeSquared(x, l, d, t, e);
    assert y * e == l * y * d;
    DistributeSlope(d, x * x, l * y, d * t);
    assert d * (d * t) == t * (d * d) && d * (d * d) == d * d * d;
  }

  lemma SlopeSquared(x: int, l: int, d: int, t: int, e: int)
    requires l * l == 3 * x + d + t && e == l * d
    ensures e * e == 3 * x * (d * d) + d * (d * d) + t * (d * d)
  {
    assert e * e == l * l * (d * d);
    DistributeSquare(3 * x, d, t, d * d);
  }

  lemma DistributeSquare(i: int, j: int, k: int, s: int)
    ensures (i + j + k) * s == i * s + j * s + k * s
  {
  }

  lemma DistributeSlope(d: int, i: int, j: int, m: int)
    ensures d * (3 * i + -3 - 2 * j - m) == 3 * i * d + -3 * d - 2 * (j * d) - d * m
  {
  }

  /** and at the third intersection, mirrored. */
  lemma AtSum(x: int, y: int, l: int, d: int, t: int, k: int, x3: int, y3: int, m: int, m3: int)
    requires l * l == 3 * x + d + t && k == 3 * (x * x) + -3 - 2 * (l * y) - d * t
    requires x3 == x + t && y3 == l * (x - x3) - y && m == x * x * x + -3 * x + B - y * y
    requires m3 == x3 * x3 * x3 + -3 * x3 + B - y3 * y3
    ensures m3 == k * t + m
  {
    JacobianCurve.SwapDifference(l, x, x3);
    JacobianCurve.ThirdIntersection(x, y, l, t, d, -3, B);
  }

  /** What is missing at the other end of a chord and at the sum, by the same factor k. */
  lemma ChordMissing(a: Point, d: int, l: int, b: Point, c: Point) returns (k: int)
    requires b == Point(a.x + d, a.y + Times(l, d)) && c == Chord(l, a, b)
    ensures Missing(b) - Missing(a) == d * k
    ensures Missing(c) == Times(k, c.x - a.x) + Missing(a)
    ensures k == 3 * (a.x * a.x) + -3 - 2 * (l * a.y) - d * (c.x - a.x)
  {
    var t := c.x - a.x;
    k := 3 * (a.x * a.x) + -3 - 2 * (l * a.y) - d * t;
    ChordMeans(l, a, b);
    TimesOne(l, d);
    TimesOne(k, t);
    MissingMeans(a);
    MissingMeans(b);
    MissingMeans(c);
    AlongChord(a.x, a.y, l, d, t, k, Times(l, d), Missing(a), Missing(b));
    AtSum(a.x, a.y, l, d, t, k, c.x, c.y, Missing(a), Missing(c));
  }

  lemma CloseChord(a: Point, b: Point, c: Point, d: int, k: int)
    requires IsPrime(P) && NonZero(d, P) && OnCurve(a) && OnCurve(b)
    requires Missing(b) - Missing(a) == d * k && Missing(c) == Times(k, c.x - a.x) + Missing(a)
    ensures OnCurve(c)
  {
    OnCurveMissing(a);
    OnCurveMissing(b);
    Combine(P, Missing(b), Missing(a), 1, -1);
    assert Divides(P, d * k - 0);
    if NonZero(k, P) {
      NonZeroProduct(d, k, P);
      assert false;
    }
    assert Divides(P, k - 0);
    CloseTangent(a, c, k);
  }

  lemma CloseTangent(a: Point, c: Point, k: int)
    requires OnCurve(a) && Divides(P, k) && Missing(c) == Times(k, c.x - a.x) + Missing(a)
    ensures OnCurve(c)
  {
    OnCurveMissing(a);
    OnCurveMissing(c);
    JacobianCurve.CloseDouble(Missing(c), k, c.x - a.x, Missing(a));
  }

  /** The sum of two points of the curve, by the chord law, is a point of the curve. */
  lemma ChordKeepsCurve(a: Point, b: Point, c: Point)
    requires IsPrime(P) && OnCurve(a) && OnCurve(b) && !Cong(a.x, b.x, P) && ChordSum(a, b, c)
    ensures OnCurve(c)
  {
    var l :| IsSlope(l, a, b) && SamePoint(Chord(l, a, b), c);
    var d := b.x - a.x;
    var b' := Point(a.x + d, a.y + Times(l, d));
    var c' := Chord(l, a, b');
    OtherEnd(a, b, b', d, l);
    OnCurveSame(b', b);
    var k := ChordMissing(a, d, l, b', c');
    CloseChord(a, b', c', d, k);
    SamePointSym(c', c);
    OnCurveSame(c, c');
  }

  lemma OtherEnd(a: Point, b: Point, b': Point, d: int, l: int)
    requires IsSlope(l, a, b) && d == b.x - a.x && b' == Point(a.x + d, a.y + Times(l, d)) && !Cong(a.x, b.x, P)
    ensures SamePoint(b', b) && NonZero(d, P)
  {
    CongRefl(b.x, P);
    assert a.y + Times(l, d) - b.y == Times(l, d) - (b.y - a.y);
    if Cong(d, 0, P) {
      Combine(P, d - 0, d - 0, -1, 0);
    }
  }

  /** So is the double of a point of the curve, by the tangent law. */
  lemma TangentKeepsCurve(a: Point, c: Point)
    requires OnCurve(a) && TangentDouble(a, c)
    ensures OnCurve(c)
  {
    var l :| IsTangent(l, a) && SamePoint(Chord(l, a, a), c);
    var c' := Chord(l, a, a);
    TimesOne(l, 0);
    var k := ChordMissing(a, 0, l, a, c');
    TangentFactor(a, l, k, c'.x - a.x);
    CloseTangent(a, c', k);
    SamePointSym(c', c);
    OnCurveSame(c, c');
  }

  lemma TangentFactor(a: Point, l: int, k: int, t: int)
    requires IsTangent(l, a) && k == 3 * (a.x * a.x) + -3 - 2 * (l * a.y) - 0 * t
    ensures Divides(P, k)
  {
    TimesOne(l, 2 * a.y);
    TimesOne(a.x, a.x);
    var m := Times(l, 2 * a.y) - 3 * (Times(a.x, a.x) - 1);
    assert l * (2 * a.y) == 2 * (l * a.y);
    Combine(P, m, m, -1, 0);
    assert -1 * m + 0 * m == k;
  }
}
