/**
 The ladder when it meets R[1] = -R[0]: both points collapse, and so does the result.

 The formulas then leave the curve. One rung becomes (0, 0) and the other a point of the cusp
 y^2 = x^3; the next bit sends both to (0, 0), and the inversion of zero yields zero.
 */
module Degenerate {
  import opened Bits
  import opened Reduce
  import opened Congruence
  import opened Field
  import opened Points
  import opened Ladder

  const ORIGIN: Point := Point(0, 0)

  ghost predicate OnCusp(p: Point) {
    0 <= p.x < P && 0 <= p.y < P && Cong(p.y * p.y, p.x * p.x * p.x, P)
  }

  lemma IsZero(v: int, g: int)
    requires Is(v, g) && Cong(g, 0, P)
    ensures v == 0
  {
    CongTrans(v, g, 0, P);
    CongSmall(v, 0, P);
  }

  lemma CongZeroProduct(y: int, x3: int)
    requires Cong(x3, 0, P)
    ensures Cong(y * x3, 0, P) && Cong(-(y * x3), 0, P)
  {
    CongRefl(y, P);
    CongRefl(0, P);
    CongMul(y, x3, y, 0, P);
    CongSub(0, y * x3, 0, 0, P);
  }

  lemma OriginIs()
    ensures ArePair(ORIGIN, 0, 0)
  {
    CongRefl(0, P);
  }

  lemma CuspIs(c: Point)
    requires OnCusp(c)
    ensures ArePair(c, c.x, c.y) && Cong(OffCusp(c), 0, P)
  {
    IsItself(c.x);
    IsItself(c.y);
    assert c.x * c.x * c.x == c.x * (c.x * c.x);
  }

  /** y^2 - x^3, which is congruent to 0 on the cusp. */
  function OffCusp(c: Point): int {
    c.y * c.y - c.x * (c.x * c.x)
  }

  lemma NegatedPowers(x: int)
    ensures (-x) * (-x) == x * x && (-x) * (-x) * (-x) == -(x * (x * x))
  {
  }

  lemma Cancel(y: int, c: int, x3: int)
    ensures (-y) * (c - x3) - y * -c == y * x3
    ensures y * (0 - x3) - 0 == -(y * x3)
  {
  }

  lemma PlusOrigin(c: Point)
    ensures SumOf(c, ORIGIN) == Point(OffCusp(c), c.y * OffCusp(c))
    ensures DifferenceOf(c, ORIGIN) == SumOf(c, ORIGIN)
  {
    SumOfMeans(c, ORIGIN);
    NegatedPowers(c.x);
    NegatedPowers(c.y);
    Cancel(c.y, c.x * (c.x * c.x), OffCusp(c));
    DifferenceIsSum(c, ORIGIN);
  }

  lemma OriginPlus(c: Point)
    ensures SumOf(ORIGIN, c) == Point(OffCusp(c), -(c.y * OffCusp(c)))
  {
    SumOfMeans(ORIGIN, c);
    assert c.x * c.x * c.x == c.x * (c.x * c.x);
    Cancel(c.y, 0, OffCusp(c));
  }

  lemma OriginMinus(c: Point)
    ensures DifferenceOf(ORIGIN, c) == Point(OffCusp(c), c.y * OffCusp(c))
  {
    DifferenceIsSum(ORIGIN, c);
    OriginPlus(Point(c.x, -c.y));
    NegatedPowers(c.y);
    assert -((-c.y) * OffCusp(c)) == c.y * OffCusp(c);
  }

  /** P plus its mirror image, and P minus it, are one point of the cusp and (0, 0). */
  lemma MirrorSums(p: Point, m: Point)
    requires m == Point(p.x, -p.y)
    ensures var e := -p.y - p.y; SumOf(p, m) == Point(e * e, e * (0 - e * e))
    ensures DifferenceOf(p, m) == ORIGIN
  {
    SumOfMeans(p, m);
    DifferenceIsSum(p, m);
    SumOfMeans(p, p);
  }

  lemma ScaledCusp(x: int, y: int, d: int)
    requires Cong(y * y, x * x * x, P)
    ensures var u, v := x * (d * d), y * (d * d * d); Cong(v * v, u * u * u, P)
  {
    var s := d * d * d * (d * d * d);
    CongRefl(s, P);
    CongMul(y * y, s, x * x * x, s, P);
    CuspPowers(x, y, d);
  }

  lemma CuspPowers(x: int, y: int, d: int)
    ensures y * (d * d * d) * (y * (d * d * d)) == y * y * (d * d * d * (d * d * d))
    ensures x * (d * d) * (x * (d * d)) * (x * (d * d)) == x * x * x * (d * d * d * (d * d * d))
  {
    var f, g := d * d, d * d * d;
    assert f * f * f == g * g;
    assert x * f * (x * f) * (x * f) == x * x * x * (f * f * f);
  }

  lemma CuspOf(p: Point, x: int, y: int)
    requires ArePair(p, x, y) && Cong(y * y, x * x * x, P)
    ensures OnCusp(p)
  {
    CongMul(p.y, p.y, y, y, P);
    CongMul(p.x, p.x, x, x, P);
    CongMul(p.x * p.x, p.x, x * x, x, P);
    CongTrans(p.y * p.y, y * y, x * x * x, P);
    CongSym(p.x * p.x * p.x, x * x * x, P);
    CongTrans(p.y * p.y, x * x * x, p.x * p.x * p.x, P);
  }

  /** A pair whose polynomials are multiples of OffCusp is (0, 0). */
  lemma IsOrigin(p: Point, c: Point, minus: bool)
    requires OnCusp(c) && ArePair(p, OffCusp(c), if minus then -(c.y * OffCusp(c)) else c.y * OffCusp(c))
    ensures p == ORIGIN
  {
    CuspIs(c);
    CongZeroProduct(c.y, OffCusp(c));
    IsZero(p.x, OffCusp(c));
    IsZero(p.y, if minus then -(c.y * OffCusp(c)) else c.y * OffCusp(c));
  }

  /** `XYcZ_add` on a cusp point and (0, 0). */
  lemma AddOrigin(c: Point)
    requires OnCusp(c)
    ensures CoZAdd(c, ORIGIN).1 == ORIGIN && OnCusp(CoZAdd(c, ORIGIN).0)
  {
    OriginIs();
    CuspIs(c);
    CoZAddMeans(c, ORIGIN, c, ORIGIN);
    PlusOrigin(c);
    IsOrigin(CoZAdd(c, ORIGIN).1, c, false);
    var d := 0 - c.x;
    OverZMeans(c, d);
    ScaledCusp(c.x, c.y, d);
    CuspOf(CoZAdd(c, ORIGIN).0, c.x * (d * d), c.y * (d * d * d));
  }

  /** `XYcZ_addC` on a cusp point and (0, 0), in either order. */
  lemma AddCOrigin(c: Point)
    requires OnCusp(c)
    ensures CoZAddC(c, ORIGIN) == (ORIGIN, ORIGIN)
  {
    OriginIs();
    CuspIs(c);
    CoZAddCSum(c, ORIGIN, c, ORIGIN);
    CoZAddCDifference(c, ORIGIN, c, ORIGIN);
    PlusOrigin(c);
    IsOrigin(CoZAddC(c, ORIGIN).0, c, false);
    IsOrigin(CoZAddC(c, ORIGIN).1, c, false);
  }

  lemma OriginAddC(c: Point)
    requires OnCusp(c)
    ensures CoZAddC(ORIGIN, c) == (ORIGIN, ORIGIN)
  {
    OriginIs();
    CuspIs(c);
    CoZAddCSum(ORIGIN, c, ORIGIN, c);
    CoZAddCDifference(ORIGIN, c, ORIGIN, c);
    OriginPlus(c);
    OriginMinus(c);
    IsOrigin(CoZAddC(ORIGIN, c).0, c, false);
    IsOrigin(CoZAddC(ORIGIN, c).1, c, true);
  }

  /** `XYcZ_addC` on mirror images: the difference collapses and the sum falls onto the cusp. */
  lemma AddCMirror(p: Point, q: Point)
    requires 0 <= p.x < P && 0 <= p.y < P && 0 <= q.y < P
    requires q.x == p.x && Cong(q.y, -p.y, P)
    ensures CoZAddC(p, q).0 == ORIGIN && OnCusp(CoZAddC(p, q).1)
  {
    IsItself(p.x);
    IsItself(p.y);
    var m := Point(p.x, -p.y);
    CoZAddCSum(p, q, p, m);
    CoZAddCDifference(p, q, p, m);
    MirrorSums(p, m);
    CongRefl(0, P);
    IsZero(CoZAddC(p, q).0.x, 0);
    IsZero(CoZAddC(p, q).0.y, 0);
    var e := -p.y - p.y;
    CuspParametrised(e);
    CuspOf(CoZAddC(p, q).1, e * e, e * (0 - e * e));
  }

  lemma CuspParametrised(e: int)
    ensures var x, y := e * e, e * (0 - e * e); Cong(y * y, x * x * x, P)
  {
    var x, y := e * e, e * (0 - e * e);
    assert y == -(e * x);
    assert y * y == e * x * (e * x) == x * x * x;
    CongRefl(x * x * x, P);
  }

  /** R[1] = -R[0] */
  ghost predicate Mirrored(r: Rungs) {
    && 0 <= r.r0.x < P && 0 <= r.r0.y < P && 0 <= r.r1.y < P
    && r.r0.x == r.r1.x && Cong(r.r1.y, -r.r0.y, P)
  }

  ghost predicate Collapsed(r: Rungs) {
    (r.r0 == ORIGIN && OnCusp(r.r1)) || (OnCusp(r.r0) && r.r1 == ORIGIN)
  }

  lemma MirrorSwap(x: int, y: int)
    requires Cong(x, -y, P)
    ensures Cong(y, -x, P)
  {
    CongRefl(0, P);
    CongSub(0, x, 0, -y, P);
    CongSym(-x, y, P);
  }

  lemma StepCollapses(r: Rungs, b: bool)
    requires Mirrored(r)
    ensures Collapsed(LadderStep(r, b))
  {
    MirrorSwap(r.r1.y, r.r0.y);
    var p, q := if b then r.r1 else r.r0, if b then r.r0 else r.r1;
    AddCMirror(p, q);
    AddOrigin(CoZAddC(p, q).1);
  }

  lemma ZeroProducts(x: int)
    ensures MulP(0, x) == 0 == MulP(x, 0) && SubP(0, 0) == 0
  {
    assert 0 * x == 0 == x * 0;
  }

  lemma ProductWithZero(u: int, x: int)
    requires Cong(x, 0, P)
    ensures MulP(u, x) == 0
  {
    CongRefl(u, P);
    CongMul(u, x, u, 0, P);
    CongIffMod(u * x, u * 0, P);
  }

  /** From two points (0, 0) the inversion of zero and `apply_z` produce (0, 0). */
  lemma OriginFinish(b: bool, p: Point, inverse: int)
    requires IsInverse(inverse, Denominator(Rungs(ORIGIN, ORIGIN), b, p))
    ensures Finish(Rungs(ORIGIN, ORIGIN), b, p, inverse) == ORIGIN
  {
    ZeroProducts(0);
    ZeroProducts(p.x);
    ZeroProducts(p.y);
    assert inverse == 0;
    assert FinalZ(Rungs(ORIGIN, ORIGIN), b, p, 0) == 0;
    ScaleToOrigin(LastAdd(Rungs(ORIGIN, ORIGIN), b));
  }

  lemma ScaleToOrigin(p: Point)
    ensures Scale(p, 0) == ORIGIN
  {
    ZeroProducts(0);
    ZeroProducts(p.x);
    ZeroProducts(p.y);
  }

  /** The last bit turns a collapsed pair into the result (0, 0). */
  lemma CollapsedResult(r: Rungs, b: bool, p: Point, inverse: int)
    requires Collapsed(r)
    requires IsInverse(inverse, Denominator(LastSum(r, b), b, p))
    ensures Finish(LastSum(r, b), b, p, inverse) == ORIGIN
  {
    var c := if r.r0 == ORIGIN then r.r1 else r.r0;
    AddCOrigin(c);
    OriginAddC(c);
    assert LastSum(r, b) == Rungs(ORIGIN, ORIGIN);
    OriginFinish(b, p, inverse);
  }

  /** Mirror images before the last bit: the difference is (0, 0), and so is the result. */
  lemma MirroredResult(r: Rungs, b: bool, p: Point, inverse: int)
    requires Mirrored(r) && IsInverse(inverse, Denominator(LastSum(r, b), b, p))
    ensures Finish(LastSum(r, b), b, p, inverse) == ORIGIN
  {
    MirrorSwap(r.r1.y, r.r0.y);
    AddCMirror(if b then r.r1 else r.r0, if b then r.r0 else r.r1);
    var last := LastSum(r, b);
    assert PlusMinusP(last, b) == ORIGIN;
    ZeroProducts(SubP(last.r1.x, last.r0.x));
    ZeroProducts(p.x);
    assert inverse == 0;
    ZeroProducts(p.y);
    ZeroProducts(0);
    assert FinalZ(last, b, p, 0) == 0;
    ScaleToOrigin(LastAdd(last, b));
  }

  // ----- A zero among the inputs -----

  /** The final division multiplies by x(P): without it the result is (0, 0). */
  lemma ZeroXResult(last: Rungs, b: bool, p: Point, inverse: int)
    requires Cong(p.x, 0, P) && IsInverse(inverse, Denominator(last, b, p))
    ensures Finish(last, b, p, inverse) == ORIGIN
  {
    ProductWithZero(MulP(SubP(last.r1.x, last.r0.x), PlusMinusP(last, b).y), p.x);
    assert inverse == 0;
    ZeroProducts(p.y);
    ZeroProducts(PlusMinusP(last, b).x);
    assert FinalZ(last, b, p, 0) == 0;
    ScaleToOrigin(LastAdd(last, b));
  }

  lemma OriginArithmetic()
    ensures MulP(0, 0) == 0 && AddP(0, 0) == 0 && SubP(0, 0) == 0 && HalfP(0) == 0
  {
    ZeroProducts(0);
  }

  /** With a first Z divisible by p the ladder starts from two points (0, 0), */
  lemma ZeroZStart(p: Point, z: int)
    requires Cong(z, 0, P)
    ensures InitialDouble(p, z) == (ORIGIN, ORIGIN)
  {
    OriginArithmetic();
    var t := MulP(z, z);
    ProductWithZero(z, z);
    ZeroProducts(z);
    ScaleToOrigin(p);
    ZeroProducts(p.x);
    ZeroProducts(p.y);
    assert Scale(p, z) == ORIGIN;
    var (twice, z') := DoubleJacobian(ORIGIN, z);
    assert twice == ORIGIN && z' == 0;
  }

  /** which no bit of the scalar leaves. */
  lemma OriginStep(b: bool)
    ensures LadderStep(Rungs(ORIGIN, ORIGIN), b) == Rungs(ORIGIN, ORIGIN) == LastSum(Rungs(ORIGIN, ORIGIN), b)
  {
    OriginArithmetic();
  }

  lemma {:induction false} OriginLoop(scalar: int, i: nat)
    ensures LadderLoop(Rungs(ORIGIN, ORIGIN), scalar, i) == Rungs(ORIGIN, ORIGIN)
  {
    if i > 0 {
      OriginStep(Bit(scalar, i) == 1);
      OriginLoop(scalar, i - 1);
    }
  }

  /** `EccPoint_mult` of a point with x = 0, or with an initial Z divisible by p, for every scalar. */
  lemma ZeroResult(p: Point, z: int, s: int, numBits: nat, result: Point, inverse: int)
    requires numBits >= 2 && LadderResult(p, z, s, numBits, result, inverse)
    requires Cong(p.x, 0, P) || Cong(z, 0, P)
    ensures result == ORIGIN
  {
    var b := Bit(s, 0) == 1;
    if Cong(p.x, 0, P) {
      ZeroXResult(InLastSum(p, z, s, numBits), b, p, inverse);
    } else {
      ZeroZStart(p, z);
      OriginLoop(s, numBits - 2);
      OriginStep(b);
      OriginFinish(b, p, inverse);
    }
  }
}
