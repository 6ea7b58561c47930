/**
 The point formulas keep the curve equation y^2 = x^3 - 3 x z^4 + b z^6, with no division: doubling
 for every point of the curve, the co-Z additions for any two points over a common z.
 */
module JacobianCurve {
  import opened Reduce
  import opened Congruence
  import opened Field
  import opened Points

  ghost function Fourth(z: int): int {
    Square(Square(z))
  }

  ghost function Sixth(z: int): int {
    Times(Fourth(z), Square(z))
  }

  lemma HighPowers(z: int)
    ensures Fourth(z) == z * z * z * z && Sixth(z) == z * z * z * z * z * z
  {
    Powers(z);
    Powers(z * z);
    TimesOne(Fourth(z), Square(z));
    PowersOfSquare(z);
  }

  lemma PowersOfSquare(z: int)
    ensures z * z * (z * z) == z * z * z * z && z * z * z * z * (z * z) == z * z * z * z * z * z
  {
  }

  /** x^3 + alpha * x + beta */
  ghost function RightSide(x: int, alpha: int, beta: int): int {
    Cube(x) + Times(alpha, x) + beta
  }

  lemma RightSideMeans(x: int, alpha: int, beta: int)
    ensures RightSide(x, alpha, beta) == x * x * x + alpha * x + beta
  {
    Powers(x);
    TimesOne(alpha, x);
  }

  /** x^3 - 3 x z^4 + b z^6 */
  ghost function CurveSide(x: int, z: int, b: int): int {
    RightSide(x, -3 * Fourth(z), Times(b, Sixth(z)))
  }

  lemma CurveSideMeans(x: int, z: int, b: int)
    ensures CurveSide(x, z, b) == x * x * x + -3 * (z * z * z * z) * x + b * (z * z * z * z * z * z)
  {
    HighPowers(z);
    TimesOne(b, Sixth(z));
    RightSideMeans(x, -3 * Fourth(z), Times(b, Sixth(z)));
  }

  /** What is missing to y^2 = x^3 - 3 x z^4 + b z^6. */
  ghost function Error(u: Point, z: int, b: int): int {
    CurveSide(u.x, z, b) - Square(u.y)
  }

  lemma ErrorMeans(u: Point, z: int, b: int)
    ensures Error(u, z, b) == u.x * u.x * u.x + -3 * (z * z * z * z) * u.x + b * (z * z * z * z * z * z) - u.y * u.y
  {
    CurveSideMeans(u.x, z, b);
    Powers(u.y);
  }

  ghost predicate OnJacobian(u: Point, z: int, b: int) {
    Divides(P, Error(u, z, b))
  }

  // ----- Rescaling -----

  lemma FourthPower(y: int, z: int)
    ensures var w := y * z; w * w * w * w == y * y * y * y * (z * z * z * z)
  {
    var w := y * z;
    assert w * w == y * y * (z * z);
    assert w * w * w * w == (w * w) * (w * w);
    var u, v := y * y, z * z;
    assert (u * v) * (u * v) == u * u * (v * v);
    assert u * u == y * y * y * y && v * v == z * z * z * z;
  }

  lemma SixthPower(y: int, z: int)
    ensures var w := y * z; w * w * w * w * w * w == y * y * y * y * y * y * (z * z * z * z * z * z)
  {
    var w := y * z;
    FourthPower(y, z);
    var u, v := y * y * y * y, z * z * z * z;
    assert w * w == y * y * (z * z);
    assert w * w * w * w * w * w == (u * v) * (y * y * (z * z));
    assert (u * v) * (y * y * (z * z)) == u * (y * y) * (v * (z * z));
    assert u * (y * y) == y * y * y * y * y * y && v * (z * z) == z * z * z * z * z * z;
  }

  /** x d^2 and y d^3, cubed and squared. */
  lemma ScaledPowers(x: int, y: int, d: int)
    ensures var X, Y, s := x * (d * d), y * (d * d * d), d * d * d * d * d * d;
      X * X * X == x * x * x * s && Y * Y == y * y * s
  {
    var u, c, s := d * d, d * d * d, d * d * d * d * d * d;
    assert u * u * u == s && c * c == s;
    CubeOfProduct(x, u, s);
    SquareOfProduct(y, c, s);
  }

  lemma CubeOfProduct(x: int, u: int, s: int)
    requires u * u * u == s
    ensures x * u * (x * u) * (x * u) == x * x * x * s
  {
    assert x * u * (x * u) == x * x * (u * u);
    var i, j := x * x, u * u;
    assert i * j * (x * u) == i * x * (j * u);
  }

  lemma SquareOfProduct(y: int, c: int, s: int)
    requires c * c == s
    ensures y * c * (y * c) == y * y * s
  {
    assert y * c * (y * c) == y * y * (c * c);
  }

  lemma ScaledLinear(x: int, d: int, q: int)
    ensures q * (d * d * d * d) * (x * (d * d)) == q * x * (d * d * d * d * d * d)
  {
    var u := d * d;
    assert d * d * d * d == u * u && d * d * d * d * d * d == u * u * u;
    assert q * (u * u) * (x * u) == q * x * (u * u * u);
  }

  /** x^3 + alpha x + beta - y^2 at (x d^2, y d^3), for the curve scaled by d. */
  lemma PlainScaledError(x: int, y: int, d: int, alpha: int, beta: int)
    ensures var X, Y, s := x * (d * d), y * (d * d * d), d * d * d * d * d * d;
      X * X * X + alpha * (d * d * d * d) * X + beta * s - Y * Y == (x * x * x + alpha * x + beta - y * y) * s
  {
    var s := d * d * d * d * d * d;
    ScaledPowers(x, y, d);
    ScaledLinear(x, d, alpha);
    FourTerms(x * x * x, alpha * x, beta, y * y, s);
  }

  lemma FourTerms(i: int, j: int, k: int, l: int, s: int)
    ensures (i + j + k - l) * s == i * s + j * s + k * s - l * s
  {
  }

  lemma ScaledCoefficients(q: int, b: int, r: int, d4: int, d6: int, x: int)
    ensures -3 * (q * d4) * x == -3 * q * d4 * x && b * (r * d6) == b * r * d6
  {
  }

  lemma PlainScaling(x: int, y: int, X: int, Y: int, z: int, w: int, d: int, s: int, b: int, e: int, f: int)
    requires X == x * (d * d) && Y == y * (d * d * d) && w == z * d && s == d * d * d * d * d * d
    requires e == x * x * x + -3 * (z * z * z * z) * x + b * (z * z * z * z * z * z) - y * y
    requires f == X * X * X + -3 * (w * w * w * w) * X + b * (w * w * w * w * w * w) - Y * Y
    ensures f == e * s
  {
    FourthPower(z, d);
    SixthPower(z, d);
    ScaledCoefficients(z * z * z * z, b, z * z * z * z * z * z, d * d * d * d, s, X);
    PlainScaledError(x, y, d, -3 * (z * z * z * z), b * (z * z * z * z * z * z));
  }

  /** The error scales by d^6. */
  lemma ScaledError(u: Point, z: int, d: int, b: int)
    ensures Error(OverZ(u, d), Times(z, d), b) == Times(Error(u, z, b), Sixth(d))
  {
    var v, w, s := OverZ(u, d), Times(z, d), Sixth(d);
    var e, f := Error(u, z, b), Error(v, w, b);
    OverZMeans(u, d);
    TimesOne(z, d);
    HighPowers(d);
    ErrorMeans(u, z, b);
    ErrorMeans(v, w, b);
    PlainScaling(u.x, u.y, v.x, v.y, z, w, d, s, b, e, f);
    TimesOne(e, s);
  }

  lemma DividesTimes(d: int, e: int, f: int)
    requires Divides(d, e)
    ensures Divides(d, Times(e, f)) && Divides(d, Times(f, e))
  {
    Combine(d, e, e, f, 0);
    TimesOne(e, f);
    TimesCommute(e, f);
    assert f * e + 0 * e == e * f;
  }

  lemma CongProduct(x: int, y: int, a: int, b: int)
    requires Cong(x, a, P) && Cong(y, b, P)
    ensures Cong(Times(x, y), Times(a, b), P)
  {
    CongMul(x, y, a, b, P);
    TimesOne(x, y);
    TimesOne(a, b);
  }

  /** `apply_z` keeps the curve equation, over z * d. */
  lemma RescaledOnCurve(u: Point, z: int, d: int, v: Point, w: int, b: int)
    requires OnJacobian(u, z, b) && v == OverZ(u, d) && w == Times(z, d)
    ensures OnJacobian(v, w, b)
  {
    ScaledError(u, z, d, b);
    DividesTimes(P, Error(u, z, b), Sixth(d));
  }

  // ----- The third intersection of a line with the curve -----

  lemma CubeOfSum(x: int, d: int)
    ensures (x + d) * (x + d) * (x + d) == x * x * x + 3 * (x * x) * d + 3 * x * (d * d) + d * d * d
  {
    assert (x + d) * (x + d) == x * x + 2 * x * d + d * d;
  }

  lemma SquareOfLine(h: int, d: int, y: int)
    ensures (-(h * d) - y) * (-(h * d) - y) == h * h * (d * d) + 2 * (h * y) * d + y * y
  {
    var hd := h * d;
    assert (-hd - y) * (-hd - y) == hd * hd + 2 * hd * y + y * y;
    assert hd * hd == h * h * (d * d);
    assert hd * y == h * y * d;
  }

  lemma SpreadSum(k: int, x: int, c: int, t: int, e: int)
    requires k == 3 * x + c + t
    ensures k * e == 3 * (x * e) + c * e + t * e
  {
  }

  /** (h t + y)^2 where h^2 = 3x + c + t. */
  lemma LineSquared(x: int, y: int, h: int, t: int, c: int)
    requires h * h == 3 * x + c + t
    ensures (-(h * t) - y) * (-(h * t) - y) == 3 * (x * (t * t)) + c * (t * t) + t * (t * t) + 2 * (h * y) * t + y * y
  {
    SquareOfLine(h, t, y);
    SpreadSum(h * h, x, c, t, t * t);
  }

  lemma Difference(x: int, t: int, c: int, alpha: int, beta: int, hy: int, yy: int, q: int)
    requires q == 3 * (x * (t * t)) + c * (t * t) + t * (t * t) + 2 * hy * t + yy
    ensures (x + t) * (x + t) * (x + t) + alpha * (x + t) + beta - q
        == (3 * (x * x) + alpha - 2 * hy - c * t) * t + (x * x * x + alpha * x + beta - yy)
  {
    CubeOfSum(x, t);
    assert t * (t * t) == t * t * t && c * t * t == c * (t * t) && 3 * x * (t * t) == 3 * (x * (t * t));
    Coefficient(x, t, hy, alpha, c * t);
    assert alpha * (x + t) == alpha * x + alpha * t;
  }

  /**
   On the line with slope h through (x, y), at x + t with h^2 = 3x + c + t: what is missing to the
   curve equation there. A tangent has c = 0; a chord meets the curve a second time at x + c.
   */
  lemma ThirdIntersection(x: int, y: int, h: int, t: int, c: int, alpha: int, beta: int)
    requires h * h == 3 * x + c + t
    ensures var x3, y3 := x + t, -(h * t) - y;
      x3 * x3 * x3 + alpha * x3 + beta - y3 * y3
        == (3 * (x * x) + alpha - 2 * (h * y) - c * t) * t + (x * x * x + alpha * x + beta - y * y)
  {
    LineSquared(x, y, h, t, c);
    var y3 := -(h * t) - y;
    Difference(x, t, c, alpha, beta, h * y, y * y, y3 * y3);
  }

  lemma Coefficient(x: int, t: int, hy: int, alpha: int, ct: int)
    ensures (3 * (x * x) + alpha - 2 * hy - ct) * t == 3 * (x * x) * t + alpha * t - 2 * hy * t - ct * t
  {
  }

  // ----- Doubling -----

  /** (x y^2, y^4) is the point over y * z. */
  lemma OverY(u: Point)
    ensures OverZ(u, u.y) == Point(Times(u.x, Square(u.y)), Square(Square(u.y)))
  {
    OverZMeans(u, u.y);
    Powers(u.y);
    Powers(Square(u.y));
    TimesOne(u.x, Square(u.y));
    assert u.y * (u.y * u.y * u.y) == u.y * u.y * (u.y * u.y);
  }

  lemma SwapDifference(h: int, i: int, j: int)
    ensures h * (i - j) == -(h * (j - i))
  {
  }

  lemma TangentMeets(x: int, y: int, x3: int, y3: int, h: int, q: int, beta: int, t: int, k: int)
    requires x3 == h * h - x - x && y3 == h * (x - x3) - y && t == 3 * (x * x) + -3 * q - 2 * (h * y) && k == x3 - x
    ensures x3 * x3 * x3 + -3 * q * x3 + beta - y3 * y3 == t * k + (x * x * x + -3 * q * x + beta - y * y)
  {
    SwapDifference(h, x, x3);
    ThirdIntersection(x, y, h, k, 0, -3 * q, beta);
  }

  /** The error of the double over n, by that of the point over n and that of the slope. */
  lemma DoubleError(u: Point, v: Point, w: Point, h: int, n: int, b: int, t: int, k: int)
    requires v == OverZ(u, u.y) && w == DoubleOf(u, h)
    requires t == 3 * Square(v.x) + -3 * Fourth(n) - 2 * Times(h, v.y) && k == w.x - v.x
    ensures Error(w, n, b) == Times(t, k) + Error(v, n, b)
  {
    var q, beta := n * n * n * n, b * (n * n * n * n * n * n);
    OverY(u);
    ErrorMeans(v, n, b);
    ErrorMeans(w, n, b);
    HighPowers(n);
    Powers(v.x);
    Powers(h);
    TimesOne(h, v.y);
    TimesOne(h, v.x - w.x);
    TimesOne(t, k);
    TangentMeets(v.x, v.y, w.x, w.y, h, q, beta, t, k);
  }

  /** Half of t, which exists because P is odd. */
  lemma Half(t: int) returns (h: int)
    ensures Cong(t, 2 * h, P)
  {
    h := t * ((P + 1) / 2);
    var k := (P + 1) / 2;
    assert 2 * k == P + 1;
    assert 2 * h == t * (2 * k);
    HalfWitness(t, P);
    Witness(P, t - 2 * h, -t);
  }

  lemma HalfWitness(t: int, p: int)
    ensures t - t * (p + 1) == -t * p
  {
  }

  /** The tangent over w = y z has the slope that the code computes. */
  lemma TangentSlope(u: Point, z: int, v: Point, n: int, h: int, t: int)
    requires Cong(TwiceSlope(u.x, z), 2 * h, P) && v == OverZ(u, u.y) && n == Times(z, u.y)
    requires t == 3 * Square(v.x) + -3 * Fourth(n) - 2 * Times(h, v.y)
    ensures Divides(P, t)
  {
    CongRefl(Fourth(u.y), P);
    CongProduct(TwiceSlope(u.x, z), Fourth(u.y), 2 * h, Fourth(u.y));
    SlopeTerms(u, z, h);
  }

  lemma SlopeTerms(u: Point, z: int, h: int)
    ensures var v := OverZ(u, u.y);
      && Times(TwiceSlope(u.x, z), Fourth(u.y)) == 3 * Square(v.x) + -3 * Fourth(Times(z, u.y))
      && Times(2 * h, Fourth(u.y)) == 2 * Times(h, v.y)
  {
    var v, y := OverZ(u, u.y), u.y;
    OverY(u);
    TimesOne(2 * h, Fourth(y));
    TimesOne(h, Fourth(y));
    assert 2 * h * Fourth(y) == 2 * (h * Fourth(y));
    TimesOne(TwiceSlope(u.x, z), Fourth(y));
    OverZMeans(u, y);
    Powers(u.x);
    HighPowers(z);
    HighPowers(y);
    Powers(v.x);
    TimesOne(z, y);
    HighPowers(Times(z, y));
    FourthPower(z, y);
    SquaredScale(u.x, y);
    ScaledDifference(u.x * u.x, z * z * z * z, y * y * y * y);
  }

  lemma SquaredScale(x: int, y: int)
    ensures x * (y * y) * (x * (y * y)) == x * x * (y * y * y * y)
  {
    var u := y * y;
    assert x * u * (x * u) == x * x * (u * u) && u * u == y * y * y * y;
  }

  lemma ScaledDifference(i: int, j: int, s: int)
    ensures 3 * (i - j) * s == 3 * (i * s) + -3 * (j * s)
  {
  }

  lemma DoubleErrorBy(u: Point, z: int, h: int, v: Point, w: Point, n: int, b: int) returns (t: int, k: int)
    requires Cong(TwiceSlope(u.x, z), 2 * h, P) && v == OverZ(u, u.y) && w == DoubleOf(u, h) && n == Times(z, u.y)
    ensures Divides(P, t) && Error(w, n, b) == Times(t, k) + Error(v, n, b)
  {
    t, k := 3 * Square(v.x) + -3 * Fourth(n) - 2 * Times(h, v.y), w.x - v.x;
    DoubleError(u, v, w, h, n, b, t, k);
    TangentSlope(u, z, v, n, h, t);
  }

  lemma DoubleOfOnCurve(u: Point, z: int, h: int, w: Point, n: int, b: int)
    requires OnJacobian(u, z, b) && Cong(TwiceSlope(u.x, z), 2 * h, P) && w == DoubleOf(u, h) && n == Times(z, u.y)
    ensures OnJacobian(w, n, b)
  {
    var v := OverZ(u, u.y);
    var e, r := Error(w, n, b), Error(v, n, b);
    RescaledOnCurve(u, z, u.y, v, n, b);
    var t, k := DoubleErrorBy(u, z, h, v, w, n, b);
    CloseDouble(e, t, k, r);
  }

  lemma CloseDouble(e: int, t: int, k: int, r: int)
    requires e == Times(t, k) + r && Divides(P, t) && Divides(P, r)
    ensures Divides(P, e)
  {
    DividesTimes(P, t, k);
    Combine(P, Times(t, k), r, 1, 1);
  }

  // ----- The chord -----

  /** The error at x + d of the line through (x, y) with rise e, by the errors at both ends. */
  lemma ChordError(x: int, y: int, d: int, e: int, alpha: int, beta: int)
    ensures ((x + d) * (x + d) * (x + d) + alpha * (x + d) + beta - (y + e) * (y + e))
          - (x * x * x + alpha * x + beta - y * y)
         == 3 * (x * x) * d + 3 * x * (d * d) + d * d * d + alpha * d - 2 * (y * e) - e * e
  {
    CubeOfSum(x, d);
    assert (y + e) * (y + e) == y * y + 2 * (y * e) + e * e;
    assert alpha * (x + d) == alpha * x + alpha * d;
  }

  lemma ChordCoefficient(x: int, y: int, d: int, e: int, alpha: int, X: int, Y: int, c: int, t: int, r: int)
    requires X == x * (d * d) && c == d * d * d && Y == y * c && t == e * e - 3 * X - c
    requires r == 3 * (x * x) * d + 3 * x * (d * d) + d * d * d + alpha * d - 2 * (y * e) - e * e
    ensures 3 * (X * X) + alpha * (d * d * d * d) - 2 * (e * Y) - c * t == c * r
  {
    assert X * X == x * x * d * c by {
      var u := d * d;
      assert x * u * (x * u) == x * x * (u * u);
      assert u * u == d * c;
    }
    assert alpha * (d * d * d * d) == alpha * d * c;
    assert e * Y == y * e * c;
    assert 3 * (x * x) * d == 3 * (x * x * d) && 3 * x * (d * d) == 3 * X;
    SixTerms(c, x * x * d, X, alpha * d, y * e, e * e);
  }

  lemma SixTerms(c: int, i: int, j: int, k: int, l: int, m: int)
    ensures c * (3 * i + 3 * j + c + k - 2 * l - m) == 3 * (i * c) + k * c - 2 * (l * c) - c * (m - 3 * j - c)
  {
  }

  /** The sum's coordinates on the line through u over v.x - u.x. */
  lemma SumCoordinates(u: Point, v: Point)
    ensures var d, e, w := v.x - u.x, v.y - u.y, SumOf(u, v);
      var X, Y, c := u.x * (d * d), u.y * (d * d * d), d * d * d;
      && w.x - X == e * e - 3 * X - c
      && w.y == -(e * (w.x - X)) - Y
  {
    var d, e, w := v.x - u.x, v.y - u.y, SumOf(u, v);
    var X := u.x * (d * d);
    SumOfMeans(u, v);
    assert (u.x + v.x) * (d * d) == 2 * X + d * d * d by {
      assert (2 * u.x + d) * (d * d) == 2 * X + d * (d * d);
    }
    assert e * (X - w.x) == -(e * (w.x - X));
  }

  /** The error of the sum for the curve scaled by d, by those of the two points. */
  lemma SumError(u: Point, v: Point, w: Point, d: int, alpha: int, beta: int, r1: int, r2: int)
    requires w == SumOf(u, v) && d == v.x - u.x
    requires r1 == u.x * u.x * u.x + alpha * u.x + beta - u.y * u.y
    requires r2 == v.x * v.x * v.x + alpha * v.x + beta - v.y * v.y
    ensures w.x * w.x * w.x + alpha * (d * d * d * d) * w.x + beta * (d * d * d * d * d * d) - w.y * w.y
        == d * d * d * (r2 - r1) * (w.x - u.x * (d * d)) + r1 * (d * d * d * d * d * d)
  {
    var e := v.y - u.y;
    var X, Y, c := u.x * (d * d), u.y * (d * d * d), d * d * d;
    var t, A, s := w.x - X, alpha * (d * d * d * d), d * d * d * d * d * d;
    SumCoordinates(u, v);
    ChordError(u.x, u.y, d, e, alpha, beta);
    ChordCoefficient(u.x, u.y, d, e, alpha, X, Y, c, t, r2 - r1);
    ThirdIntersection(X, Y, e, t, c, A, beta * s);
    PlainScaledError(u.x, u.y, d, alpha, beta);
  }

  lemma SumErrorOver(u: Point, v: Point, w: Point, d: int, c: int, k: int, f: int,
          z: int, n: int, b: int, r1: int, r2: int)
    requires w == SumOf(u, v) && d == v.x - u.x && c == d * d * d && k == w.x - u.x * (d * d) && f == d * d * d * d * d * d
    requires n == z * d && r1 == Error(u, z, b) && r2 == Error(v, z, b)
    ensures Error(w, n, b) == c * (r2 - r1) * k + r1 * f
  {
    var q, r := z * z * z * z, z * z * z * z * z * z;
    ErrorMeans(u, z, b);
    ErrorMeans(v, z, b);
    SumError(u, v, w, d, -3 * q, b * r, r1, r2);
    ErrorMeans(w, n, b);
    FourthPower(z, d);
    SixthPower(z, d);
    ScaledCoefficients(q, b, r, d * d * d * d, f, w.x);
  }

  lemma SumErrorOf(u: Point, v: Point, w: Point, z: int, n: int, b: int) returns (i: int, j: int)
    requires w == SumOf(u, v) && n == Times(z, v.x - u.x)
    ensures Error(w, n, b) == Times(i, Error(u, z, b)) + Times(j, Error(v, z, b))
  {
    var d, e, r1, r2 := v.x - u.x, Error(w, n, b), Error(u, z, b), Error(v, z, b);
    var c, k, f := d * d * d, w.x - u.x * (d * d), d * d * d * d * d * d;
    TimesOne(z, d);
    SumErrorOver(u, v, w, d, c, k, f, z, n, b, r1, r2);
    i, j := Gather(e, c, k, f, r1, r2);
  }

  /** A sum of multiples of the two errors. */
  lemma CloseSum(e: int, i: int, j: int, r1: int, r2: int)
    requires e == Times(i, r1) + Times(j, r2) && Divides(P, r1) && Divides(P, r2)
    ensures Divides(P, e)
  {
    TimesOne(i, r1);
    TimesOne(j, r2);
    Combine(P, r1, r2, i, j);
  }

  lemma Gather(e: int, c: int, k: int, f: int, r1: int, r2: int) returns (i: int, j: int)
    requires e == c * (r2 - r1) * k + r1 * f
    ensures e == Times(i, r1) + Times(j, r2)
  {
    i, j := f - c * k, c * k;
    TimesOne(i, r1);
    TimesOne(j, r2);
    CollectErrors(c, k, f, r1, r2);
  }

  lemma CollectErrors(c: int, k: int, f: int, r1: int, r2: int)
    ensures (f - c * k) * r1 + c * k * r2 == c * (r2 - r1) * k + r1 * f
  {
  }

  lemma SumOnCurve(u: Point, v: Point, z: int, w: Point, n: int, b: int)
    requires OnJacobian(u, z, b) && OnJacobian(v, z, b) && w == SumOf(u, v) && n == Times(z, v.x - u.x)
    ensures OnJacobian(w, n, b)
  {
    var e, r1, r2 := Error(w, n, b), Error(u, z, b), Error(v, z, b);
    var i, j := SumErrorOf(u, v, w, z, n, b);
    CloseSum(e, i, j, r1, r2);
  }

  lemma MirrorOnCurve(v: Point, z: int, b: int)
    ensures Error(Point(v.x, -v.y), z, b) == Error(v, z, b)
  {
    Powers(v.y);
    Powers(-v.y);
    assert (-v.y) * (-v.y) == v.y * v.y;
  }

  lemma DifferenceOnCurve(u: Point, v: Point, z: int, w: Point, n: int, b: int)
    requires OnJacobian(u, z, b) && OnJacobian(v, z, b) && w == DifferenceOf(u, v) && n == Times(z, v.x - u.x)
    ensures OnJacobian(w, n, b)
  {
    var m := Point(v.x, -v.y);
    DifferenceIsSum(u, v);
    MirrorOnCurve(v, z, b);
    SumOnCurve(u, m, z, w, n, b);
  }

  // ----- The formulas -----

  lemma CongPowers(x: int, x': int)
    requires Cong(x', x, P)
    ensures Cong(Cube(x'), Cube(x), P) && Cong(Fourth(x'), Fourth(x), P) && Cong(Sixth(x'), Sixth(x), P)
  {
    CongProduct(x', x', x, x);
    CongProduct(Square(x'), x', Square(x), x);
    CongProduct(Square(x'), Square(x'), Square(x), Square(x));
    CongProduct(Fourth(x'), Square(x'), Fourth(x), Square(x));
  }

  lemma CongRightSide(c': int, u': int, x': int, v': int, c: int, u: int, x: int, v: int)
    requires Cong(c', c, P) && Cong(u', u, P) && Cong(x', x, P) && Cong(v', v, P)
    ensures Cong(c' + Times(-3 * u', x') + v', c + Times(-3 * u, x) + v, P)
  {
    CongRefl(-3, P);
    CongMul(-3, u', -3, u, P);
    CongProduct(-3 * u', x', -3 * u, x);
    CongAdd(c', Times(-3 * u', x'), c, Times(-3 * u, x), P);
    CongAdd(c' + Times(-3 * u', x'), v', c + Times(-3 * u, x), v, P);
  }

  lemma CongCurveSide(x: int, z: int, x': int, z': int, b: int)
    requires Cong(x', x, P) && Cong(z', z, P)
    ensures Cong(CurveSide(x', z', b), CurveSide(x, z, b), P)
  {
    CongPowers(x, x');
    CongPowers(z, z');
    CongRefl(b, P);
    CongProduct(b, Sixth(z'), b, Sixth(z));
    CongRightSide(Cube(x'), Fourth(z'), x', Times(b, Sixth(z')), Cube(x), Fourth(z), x, Times(b, Sixth(z)));
  }

  lemma CongError(u: Point, z: int, p: Point, z': int, b: int)
    requires ArePair(p, u.x, u.y) && Cong(z', z, P)
    ensures Cong(Error(p, z', b), Error(u, z, b), P)
  {
    CongProduct(p.y, p.y, u.y, u.y);
    CongCurveSide(u.x, z, p.x, z', b);
    CongSub(CurveSide(p.x, z', b), Square(p.y), CurveSide(u.x, z, b), Square(u.y), P);
  }

  /** The residues of a point of the curve satisfy the equation. */
  lemma CongOnJacobian(u: Point, z: int, p: Point, z': int, b: int)
    requires ArePair(p, u.x, u.y) && Cong(z', z, P) && OnJacobian(u, z, b)
    ensures OnJacobian(p, z', b)
  {
    CongError(u, z, p, z', b);
    Combine(P, Error(p, z', b) - Error(u, z, b), Error(u, z, b), 1, 1);
  }

  ghost predicate IsReduced(p: Point) {
    0 <= p.x < P && 0 <= p.y < P
  }

  lemma ItsOwnPair(p: Point)
    requires IsReduced(p)
    ensures ArePair(p, p.x, p.y)
  {
    IsItself(p.x);
    IsItself(p.y);
  }

  /** `EccPoint_double_jacobian`, for every z. */
  lemma DoubleKeepsCurve(p: Point, z: int, b: int)
    requires IsReduced(p) && OnJacobian(p, z, b)
    ensures var (q, w) := DoubleJacobian(p, z); OnJacobian(q, w, b)
  {
    if z != 0 {
      var h := Half(TwiceSlope(p.x, z));
      ItsOwnPair(p);
      CongRefl(z, P);
      DoubleMeans(p, z, p, z, h);
      var w, n := DoubleOf(p, h), Times(z, p.y);
      DoubleOfOnCurve(p, z, h, w, n, b);
      TimesCommute(p.y, z);
      CongOnJacobian(w, n, DoubleJacobian(p, z).0, DoubleJacobian(p, z).1, b);
    }
  }

  /** `XYcZ_add`, over z * (x2 - x1), for any two points over z, equal or not. */
  lemma AddKeepsCurve(p: Point, q: Point, z: int, b: int)
    requires IsReduced(p) && IsReduced(q) && OnJacobian(p, z, b) && OnJacobian(q, z, b)
    ensures var w := Times(z, q.x - p.x); OnJacobian(CoZAdd(p, q).0, w, b) && OnJacobian(CoZAdd(p, q).1, w, b)
  {
    var w, v, s := Times(z, q.x - p.x), OverZ(p, q.x - p.x), SumOf(p, q);
    CongRefl(w, P);
    ItsOwnPair(p);
    ItsOwnPair(q);
    CoZAddMeans(p, q, p, q);
    RescaledOnCurve(p, z, q.x - p.x, v, w, b);
    SumOnCurve(p, q, z, s, w, b);
    CongOnJacobian(v, w, CoZAdd(p, q).0, w, b);
    CongOnJacobian(s, w, CoZAdd(p, q).1, w, b);
  }

  /** `XYcZ_addC`, over the same Z. */
  lemma AddCKeepsCurve(p: Point, q: Point, z: int, b: int)
    requires IsReduced(p) && IsReduced(q) && OnJacobian(p, z, b) && OnJacobian(q, z, b)
    ensures var w := Times(z, q.x - p.x); OnJacobian(CoZAddC(p, q).0, w, b) && OnJacobian(CoZAddC(p, q).1, w, b)
  {
    var w, d, s := Times(z, q.x - p.x), DifferenceOf(p, q), SumOf(p, q);
    CongRefl(w, P);
    ItsOwnPair(p);
    ItsOwnPair(q);
    CoZAddCSum(p, q, p, q);
    CoZAddCDifference(p, q, p, q);
    SumOnCurve(p, q, z, s, w, b);
    DifferenceOnCurve(p, q, z, d, w, b);
    CongOnJacobian(d, w, CoZAddC(p, q).0, w, b);
    CongOnJacobian(s, w, CoZAddC(p, q).1, w, b);
  }
}
