/**
 What the co-Z formulas mean: a buffer pair (X, Y) over Z stands for the affine point
 (X / Z^2, Y / Z^3), and the formulas follow the chord and tangent laws of y^2 = x^3 - 3x + b.

 No division is needed: (X, Y) represents a over z when X = a.x * z^2 and Y = a.y * z^3 modulo P.
 The group law enters only as a hypothesis: `Multiples` says that the affine multiples of one
 point obey the chord and tangent laws.
 */
module Curve {
  import opened Reduce
  import opened Congruence
  import opened Field
  import opened Points

  ghost predicate SamePoint(a: Point, b: Point) {
    Cong(a.x, b.x, P) && Cong(a.y, b.y, P)
  }

  function Negate(a: Point): Point {
    Point(a.x, -a.y)
  }

  /** l is the slope of the line through a and b. */
  ghost predicate IsSlope(l: int, a: Point, b: Point) {
    Cong(Times(l, b.x - a.x), b.y - a.y, P)
  }

  /** The third intersection of the line with slope l through a and b, mirrored. */
  ghost function Chord(l: int, a: Point, b: Point): Point {
    var x := Times(l, l) - a.x - b.x;
    Point(x, Times(l, a.x - x) - a.y)
  }

  ghost predicate ChordSum(a: Point, b: Point, c: Point) {
    exists l :: IsSlope(l, a, b) && SamePoint(Chord(l, a, b), c)
  }

  /** l is the slope of the tangent at a. */
  ghost predicate IsTangent(l: int, a: Point) {
    Cong(Times(l, 2 * a.y), 3 * (Times(a.x, a.x) - 1), P)
  }

  ghost predicate TangentDouble(a: Point, c: Point) {
    exists l :: IsTangent(l, a) && SamePoint(Chord(l, a, a), c)
  }

  /** The residues p stand for the affine point a, over z. */
  ghost predicate Represents(p: Point, z: int, a: Point) {
    ArePair(p, OverZ(a, z).x, OverZ(a, z).y)
  }

  lemma ChordMeans(l: int, a: Point, b: Point)
    ensures Chord(l, a, b).x == l * l - a.x - b.x
    ensures Chord(l, a, b).y == l * (a.x - Chord(l, a, b).x) - a.y
  {
    TimesOne(l, l);
    TimesOne(l, a.x - Chord(l, a, b).x);
  }

  lemma CongTimes(x: int, y: int, s: int)
    requires Cong(x, y, P)
    ensures Cong(Times(x, s), Times(y, s), P)
  {
    CongRefl(s, P);
    CongMul(x, s, y, s, P);
    TimesOne(x, s);
    TimesOne(y, s);
  }

  lemma RepresentsSame(p: Point, z: int, a: Point, b: Point)
    requires Represents(p, z, a) && SamePoint(a, b)
    ensures Represents(p, z, b)
  {
    CongTimes(a.x, b.x, Square(z));
    CongTimes(a.y, b.y, Cube(z));
    IsCong(p.x, Times(a.x, Square(z)), Times(b.x, Square(z)));
    IsCong(p.y, Times(a.y, Cube(z)), Times(b.y, Cube(z)));
  }

  /** The Z after a co-Z step on a and b over z. */
  ghost function NextZ(z: int, a: Point, b: Point): int {
    Times(z, Times(b.x - a.x, Square(z)))
  }

  lemma NextZMeans(z: int, a: Point, b: Point)
    ensures NextZ(z, a, b) == z * ((b.x - a.x) * (z * z))
  {
    Powers(z);
    TimesOne(b.x - a.x, z * z);
    TimesOne(z, (b.x - a.x) * (z * z));
  }

  /** The point on the line through a with slope l, above b.x. */
  ghost function OnLine(l: int, a: Point, b: Point): Point {
    Point(b.x, a.y + Times(l, b.x - a.x))
  }

  lemma SlopeMeetsB(l: int, a: Point, b: Point)
    requires IsSlope(l, a, b)
    ensures SamePoint(b, OnLine(l, a, b))
  {
    CongRefl(a.y, P);
    CongRefl(b.x, P);
    CongSym(Times(l, b.x - a.x), b.y - a.y, P);
    CongAdd(a.y, b.y - a.y, a.y, Times(l, b.x - a.x), P);
  }

  lemma PowersOfProduct(z: int, d: int)
    ensures z * z * (d * d) == (z * d) * (z * d)
    ensures z * z * z * (d * d * d) == (z * d) * (z * d) * (z * d)
  {
    var w := z * d;
    assert z * z * (d * d) == w * w;
    assert z * z * z * (d * d * d) == (z * z * (d * d)) * (z * d);
  }

  lemma RescaleTerms(a: int, s: int, t: int)
    ensures a * s * t == a * (s * t)
  {
  }

  /** x1 = a.x * z^2 and y1 = a.y * z^3, rescaled by d^2 and d^3, are a over z * d. */
  lemma RescaleIdentity(a: Point, z: int, d: int)
    ensures a.x * (z * z) * (d * d) == a.x * ((z * d) * (z * d))
    ensures a.y * (z * z * z) * (d * d * d) == a.y * ((z * d) * (z * d) * (z * d))
  {
    PowersOfProduct(z, d);
    RescaleTerms(a.x, z * z, d * d);
    RescaleTerms(a.y, z * z * z, d * d * d);
  }

  lemma ChordXIdentity(ax: int, bx: int, l: int, s: int, dd: int, w: int)
    requires s * dd == w * w
    ensures (l * w) * (l * w) - (ax * s + bx * s) * dd == (l * l - ax - bx) * (w * w)
  {
    assert (l * w) * (l * w) == l * l * (w * w);
    assert (ax * s + bx * s) * dd == (ax + bx) * (s * dd);
  }

  lemma ChordYIdentity(ax: int, ay: int, cx: int, l: int, w: int)
    ensures (l * w) * (ax * (w * w) - cx * (w * w)) - ay * (w * w * w) == (l * (ax - cx) - ay) * (w * w * w)
  {
    assert (l * w) * (ax * (w * w) - cx * (w * w)) == l * (ax - cx) * (w * w * w);
  }

  lemma LineRise(l: int, dx: int, ay: int, z: int)
    ensures (ay + l * dx) * (z * z * z) - ay * (z * z * z) == l * (z * (dx * (z * z)))
  {
    assert (ay + l * dx) * (z * z * z) - ay * (z * z * z) == l * dx * (z * z * z);
    assert l * dx * (z * z * z) == l * (z * (dx * (z * z)));
  }

  lemma RunIdentity(ax: int, bx: int, z: int)
    ensures bx * (z * z) - ax * (z * z) == (bx - ax) * (z * z)
  {
  }

  /** Over z the chord becomes the cleared chord over the next Z, for b on the line through a with slope l. */
  lemma ChordIdentity(a: Point, b: Point, l: int, z: int)
    requires b.y == a.y + Times(l, b.x - a.x)
    ensures SumOf(OverZ(a, z), OverZ(b, z)) == OverZ(Chord(l, a, b), NextZ(z, a, b))
  {
    var u, v := OverZ(a, z), OverZ(b, z);
    var d, e, w, c := v.x - u.x, v.y - u.y, NextZ(z, a, b), Chord(l, a, b);
    OverZMeans(a, z);
    OverZMeans(b, z);
    OverZMeans(c, w);
    SumOfMeans(u, v);
    TimesOne(l, b.x - a.x);
    NextZMeans(z, a, b);
    ChordMeans(l, a, b);
    RunIdentity(a.x, b.x, z);
    LineRise(l, b.x - a.x, a.y, z);
    PowersOfProduct(z, d);
    RescaleIdentity(a, z, d);
    assert w == z * d && e == l * w;
    ChordXIdentity(a.x, b.x, l, z * z, d * d, w);
    ChordYIdentity(a.x, a.y, c.x, l, w);
  }

  /** Rescaling over z by the run of the scaled points goes over the next Z. */
  lemma RescaledOver(a: Point, b: Point, z: int)
    ensures OverZ(OverZ(a, z), OverZ(b, z).x - OverZ(a, z).x) == OverZ(a, NextZ(z, a, b))
  {
    var u, v := OverZ(a, z), OverZ(b, z);
    var d := v.x - u.x;
    OverZMeans(a, z);
    OverZMeans(b, z);
    OverZMeans(u, d);
    OverZMeans(a, NextZ(z, a, b));
    RunIdentity(a.x, b.x, z);
    NextZMeans(z, a, b);
    assert NextZ(z, a, b) == z * d;
    RescaleIdentity(a, z, d);
  }

  /** Only the x coordinate of the second point enters. */
  lemma SameX(z: int, a: Point, b: Point, c: Point, l: int)
    requires b.x == c.x
    ensures NextZ(z, a, b) == NextZ(z, a, c)
    ensures Chord(l, a, b) == Chord(l, a, c) == Chord(l, a, Negate(b)) == Chord(l, a, Negate(c))
  {
  }

  lemma RescaledOnLine(p: Point, q: Point, z: int, a: Point, b: Point)
    requires Represents(p, z, a) && Represents(q, z, b)
    ensures Represents(CoZAdd(p, q).0, NextZ(z, a, b), a)
  {
    CoZAddMeans(p, q, OverZ(a, z), OverZ(b, z));
    RescaledOver(a, b, z);
  }

  lemma SumOnLine(p: Point, q: Point, z: int, a: Point, b: Point, l: int)
    requires Represents(p, z, a) && Represents(q, z, b) && b.y == a.y + Times(l, b.x - a.x)
    ensures Represents(CoZAdd(p, q).1, NextZ(z, a, b), Chord(l, a, b))
  {
    CoZAddMeans(p, q, OverZ(a, z), OverZ(b, z));
    ChordIdentity(a, b, l, z);
  }

  lemma AddSumRepresents(p: Point, q: Point, z: int, a: Point, b: Point, c: Point)
    requires Represents(p, z, a) && Represents(q, z, b) && ChordSum(a, b, c)
    ensures Represents(CoZAdd(p, q).1, NextZ(z, a, b), c)
  {
    var l :| IsSlope(l, a, b) && SamePoint(Chord(l, a, b), c);
    var b' := OnLine(l, a, b);
    SlopeMeetsB(l, a, b);
    RepresentsSame(q, z, b, b');
    SumOnLine(p, q, z, a, b', l);
    SameX(z, a, b, b', l);
    RepresentsSame(CoZAdd(p, q).1, NextZ(z, a, b), Chord(l, a, b), c);
  }

  /** `XYcZ_add`: P' still represents P, and the other pair represents P + Q. */
  lemma AddRepresents(p: Point, q: Point, z: int, a: Point, b: Point, c: Point)
    requires Represents(p, z, a) && Represents(q, z, b) && ChordSum(a, b, c)
    ensures Represents(CoZAdd(p, q).0, NextZ(z, a, b), a)
    ensures Represents(CoZAdd(p, q).1, NextZ(z, a, b), c)
  {
    RescaledOnLine(p, q, z, a, b);
    AddSumRepresents(p, q, z, a, b, c);
  }

  lemma AddCSumOnLine(p: Point, q: Point, z: int, a: Point, b: Point, l: int)
    requires Represents(p, z, a) && Represents(q, z, b) && b.y == a.y + Times(l, b.x - a.x)
    ensures Represents(CoZAddC(p, q).1, NextZ(z, a, b), Chord(l, a, b))
  {
    CoZAddCSum(p, q, OverZ(a, z), OverZ(b, z));
    ChordIdentity(a, b, l, z);
  }

  lemma MirrorOver(b: Point, z: int)
    ensures OverZ(Negate(b), z) == Point(OverZ(b, z).x, -OverZ(b, z).y)
  {
    OverZMeans(b, z);
    OverZMeans(Negate(b), z);
    assert (-b.y) * (z * z * z) == -(b.y * (z * z * z));
  }

  lemma DifferenceChordIdentity(a: Point, b: Point, n: Point, l: int, z: int)
    requires n == Negate(b) && n.y == a.y + Times(l, n.x - a.x)
    ensures DifferenceOf(OverZ(a, z), OverZ(b, z)) == OverZ(Chord(l, a, n), NextZ(z, a, n))
  {
    DifferenceIsSum(OverZ(a, z), OverZ(b, z));
    MirrorOver(b, z);
    ChordIdentity(a, n, l, z);
  }

  lemma DifferenceOnLine(p: Point, q: Point, z: int, a: Point, b: Point, n: Point, l: int)
    requires Represents(p, z, a) && Represents(q, z, b) && n == Negate(b) && n.y == a.y + Times(l, n.x - a.x)
    ensures Represents(CoZAddC(p, q).0, NextZ(z, a, n), Chord(l, a, n))
  {
    CoZAddCDifference(p, q, OverZ(a, z), OverZ(b, z));
    DifferenceChordIdentity(a, b, n, l, z);
  }

  /** `XYcZ_addC`: the pairs represent P + Q and P - Q over the same new Z. */
  lemma AddCRepresents(p: Point, q: Point, z: int, a: Point, b: Point, sum: Point, difference: Point)
    requires Represents(p, z, a) && Represents(q, z, b)
    requires ChordSum(a, b, sum) && ChordSum(a, Negate(b), difference)
    ensures Represents(CoZAddC(p, q).1, NextZ(z, a, b), sum)
    ensures Represents(CoZAddC(p, q).0, NextZ(z, a, b), difference)
  {
    AddCSumRepresents(p, q, z, a, b, sum);
    AddCDifferenceRepresents(p, q, z, a, b, difference);
  }

  lemma AddCSumRepresents(p: Point, q: Point, z: int, a: Point, b: Point, sum: Point)
    requires Represents(p, z, a) && Represents(q, z, b) && ChordSum(a, b, sum)
    ensures Represents(CoZAddC(p, q).1, NextZ(z, a, b), sum)
  {
    var l :| IsSlope(l, a, b) && SamePoint(Chord(l, a, b), sum);
    var b' := OnLine(l, a, b);
    SlopeMeetsB(l, a, b);
    RepresentsSame(q, z, b, b');
    AddCSumOnLine(p, q, z, a, b', l);
    SameX(z, a, b, b', l);
    RepresentsSame(CoZAddC(p, q).1, NextZ(z, a, b), Chord(l, a, b), sum);
  }

  lemma AddCDifferenceRepresents(p: Point, q: Point, z: int, a: Point, b: Point, difference: Point)
    requires Represents(p, z, a) && Represents(q, z, b) && ChordSum(a, Negate(b), difference)
    ensures Represents(CoZAddC(p, q).0, NextZ(z, a, b), difference)
  {
    var l :| IsSlope(l, a, Negate(b)) && SamePoint(Chord(l, a, Negate(b)), difference);
    var n := OnLine(l, a, Negate(b));
    var b' := Negate(n);
    SlopeMeetsB(l, a, Negate(b));
    NegateSame(Negate(b), n);
    RepresentsSame(q, z, b, b');
    DifferenceOnLine(p, q, z, a, b', n, l);
    SameX(z, a, b, n, l);
    RepresentsSame(CoZAddC(p, q).0, NextZ(z, a, b), Chord(l, a, n), difference);
  }

  lemma NegateSame(a: Point, b: Point)
    requires SamePoint(a, b)
    ensures SamePoint(Negate(a), Negate(b))
  {
    CongRefl(0, P);
    CongSub(0, a.y, 0, b.y, P);
  }

  // ----- Doubling -----

  /** The Z after doubling a over z. */
  ghost function DoubleZ(z: int, a: Point): int {
    Times(Times(a.y, Cube(z)), z)
  }

  lemma DoubleZMeans(z: int, a: Point)
    ensures DoubleZ(z, a) == a.y * (z * z * z) * z
  {
    Powers(z);
    TimesOne(a.y, z * z * z);
    TimesOne(a.y * (z * z * z), z);
  }

  lemma TangentHalf(l: int, a: Point, z: int)
    requires IsTangent(l, a)
    ensures Cong(TwiceSlope(OverZ(a, z).x, z), 2 * Times(l, DoubleZ(z, a)), P)
  {
    var f := Square(Square(z));
    CongTimes(Times(l, 2 * a.y), 3 * (Times(a.x, a.x) - 1), f);
    CongSym(Times(Times(l, 2 * a.y), f), Times(3 * (Times(a.x, a.x) - 1), f), P);
    TangentTerms(l, a, z);
  }

  /** Both sides of the tangent equation, times z^4. */
  lemma TangentTerms(l: int, a: Point, z: int)
    ensures TwiceSlope(OverZ(a, z).x, z) == Times(3 * (Times(a.x, a.x) - 1), Square(Square(z)))
    ensures 2 * Times(l, DoubleZ(z, a)) == Times(Times(l, 2 * a.y), Square(Square(z)))
  {
    Powers(z);
    Powers(z * z);
    OverZMeans(a, z);
    Powers(OverZ(a, z).x);
    TimesOne(a.x, a.x);
    TimesOne(3 * (a.x * a.x - 1), z * z * (z * z));
    SlopeScaled(a.x, z);
    DoubleZMeans(z, a);
    TimesOne(l, DoubleZ(z, a));
    TimesOne(l, 2 * a.y);
    TimesOne(l * (2 * a.y), z * z * (z * z));
    TangentScaled(l, a.y, z);
  }

  lemma SlopeScaled(x: int, z: int)
    ensures 3 * (x * x - 1) * (z * z * (z * z)) == 3 * (x * (z * z) * (x * (z * z)) - z * z * (z * z))
  {
    assert x * (z * z) * (x * (z * z)) == x * x * (z * z * (z * z));
  }

  lemma TangentScaled(l: int, y: int, z: int)
    ensures l * (2 * y) * (z * z * (z * z)) == 2 * (l * (y * (z * z * z) * z))
  {
    assert y * (z * z * z) * z == y * (z * z * (z * z));
  }

  lemma DoubleZOver(a: Point, z: int)
    ensures Times(OverZ(a, z).y, z) == DoubleZ(z, a)
  {
    OverZMeans(a, z);
    DoubleZMeans(z, a);
    TimesOne(OverZ(a, z).y, z);
  }

  /** Over z the tangent becomes the cleared tangent over y * z, with h = l * z3. */
  lemma TangentIdentity(a: Point, l: int, z: int, h: int)
    requires h == Times(l, DoubleZ(z, a))
    ensures DoubleOf(OverZ(a, z), h) == OverZ(Chord(l, a, a), DoubleZ(z, a))
  {
    DoubleZOver(a, z);
    TangentOver(a, OverZ(a, z), l, z, DoubleZ(z, a), h);
  }

  lemma TangentOver(a: Point, u: Point, l: int, z: int, w: int, h: int)
    requires u == OverZ(a, z) && w == Times(u.y, z) && h == Times(l, w)
    ensures DoubleOf(u, h) == OverZ(Chord(l, a, a), w)
  {
    var c := Chord(l, a, a);
    OverZMeans(a, z);
    OverZMeans(c, w);
    TimesOne(u.y, z);
    TimesOne(l, w);
    ChordMeans(l, a, a);
    TangentCoordinates(a, c, u, l, z, w, h);
  }

  lemma TangentCoordinates(a: Point, c: Point, v: Point, l: int, z: int, w: int, h: int)
    requires v.x == a.x * (z * z) && v.y == a.y * (z * z * z) && w == v.y * z && h == l * w
    requires c.x == l * l - a.x - a.x && c.y == l * (a.x - c.x) - a.y
    ensures DoubleOf(v, h).x == c.x * (w * w) && DoubleOf(v, h).y == c.y * (w * w * w)
  {
    DoubleOfMeans(v, h);
    TangentProducts(a, c, l, z, v.x, v.y, w, h, DoubleOf(v, h));
  }

  lemma TangentProducts(a: Point, c: Point, l: int, z: int, x: int, y: int, w: int, h: int, u: Point)
    requires x == a.x * (z * z) && y == a.y * (z * z * z) && w == y * z && h == l * w
    requires c.x == l * l - a.x - a.x && c.y == l * (a.x - c.x) - a.y
    requires u.x == h * h - 2 * (x * y * y) && u.y == h * (x * y * y - u.x) - y * y * y * y
    ensures u.x == c.x * (w * w) && u.y == c.y * (w * w * w)
  {
    FoldX(a.x, y, z, w);
    FoldY(a.y, y, z, w);
    ChordXIdentity(a.x, a.x, l, z * z, y * y, w);
    ChordYIdentity(a.x, a.y, c.x, l, w);
    TwiceProduct(a.x, z * z, y * y);
  }

  lemma DoubleOfMeans(u: Point, h: int)
    ensures var a, w := u.x * u.y * u.y, DoubleOf(u, h);
      w.x == h * h - 2 * a && w.y == h * (a - w.x) - u.y * u.y * u.y * u.y
  {
    var a := Times(u.x, Square(u.y));
    Powers(u.y);
    Powers(h);
    Powers(Square(u.y));
    TimesOne(u.x, Square(u.y));
    TimesOne(h, a - DoubleOf(u, h).x);
    YProducts(u.x, u.y);
  }

  lemma YProducts(x: int, y: int)
    ensures x * (y * y) == x * y * y && y * y * (y * y) == y * y * y * y
  {
  }

  lemma FoldX(ax: int, y: int, z: int, w: int)
    requires w == y * z
    ensures z * z * (y * y) == w * w
    ensures ax * (z * z) * y * y == ax * (w * w)
  {
    assert z * z * (y * y) == w * w;
    assert ax * (z * z) * y * y == ax * (z * z * (y * y));
  }

  lemma FoldY(ay: int, y: int, z: int, w: int)
    requires w == y * z && y == ay * (z * z * z)
    ensures y * y * y * y == ay * (w * w * w)
  {
    assert w * w * w == y * y * y * (z * z * z);
    assert ay * (y * y * y * (z * z * z)) == y * y * y * (ay * (z * z * z));
  }

  lemma TwiceProduct(a: int, s: int, t: int)
    ensures (a * s + a * s) * t == 2 * (a * (s * t))
  {
  }

  lemma DoubleRepresents(p: Point, r: int, z: int, a: Point, c: Point)
    requires Represents(p, z, a) && Cong(r, z, P) && r != 0 && TangentDouble(a, c)
    ensures Represents(DoubleJacobian(p, r).0, DoubleZ(z, a), c)
    ensures Is(DoubleJacobian(p, r).1, DoubleZ(z, a))
  {
    var l :| IsTangent(l, a) && SamePoint(Chord(l, a, a), c);
    DoubleOnTangent(p, r, z, a, l, DoubleZ(z, a), Chord(l, a, a));
    RepresentsSame(DoubleJacobian(p, r).0, DoubleZ(z, a), Chord(l, a, a), c);
  }

  lemma DoubleOnTangent(p: Point, r: int, z: int, a: Point, l: int, w: int, c: Point)
    requires Represents(p, z, a) && Cong(r, z, P) && r != 0 && IsTangent(l, a)
    requires w == DoubleZ(z, a) && c == Chord(l, a, a)
    ensures Represents(DoubleJacobian(p, r).0, w, c) && Is(DoubleJacobian(p, r).1, w)
  {
    TangentHalf(l, a, z);
    DoubleMeans(p, r, OverZ(a, z), z, Times(l, DoubleZ(z, a)));
    DoubleZOver(a, z);
    TangentIdentity(a, l, z, Times(l, DoubleZ(z, a)));
  }

  lemma ScaleRepresents(p: Point, r: int, z: int, a: Point)
    requires SamePoint(p, a) && Cong(r, z, P)
    ensures Represents(Scale(p, r), z, a)
  {
    ScaleMeans(p, r, a, z);
  }

  /** `XYcZ_initial_double`: P and 2P over a common Z. */
  lemma InitialDoubleRepresents(p: Point, z: int, a: Point, twice: Point)
    requires SamePoint(p, a) && z != 0 && TangentDouble(a, twice)
    ensures Represents(InitialDouble(p, z).0, DoubleZ(z, a), a)
    ensures Represents(InitialDouble(p, z).1, DoubleZ(z, a), twice)
  {
    CongRefl(z, P);
    ScaleRepresents(p, z, z, a);
    DoubleRepresents(Scale(p, z), z, z, a, twice);
    ScaleRepresents(p, DoubleJacobian(Scale(p, z), z).1, DoubleZ(z, a), a);
  }
}
