/**
 The point formulas of uECC.c: `apply_z`, `EccPoint_double_jacobian`, `XYcZ_initial_double`,
 `XYcZ_add`, `XYcZ_addC`.

 First the formulas as functions on residues, with the names of the C comments (A, B, C, ...);
 then, for any integers the inputs are residues of, the polynomials whose residues they yield;
 then the C code on in-place buffers, which computes exactly these functions. Module `Curve`
 says what the polynomials mean for points.
 */
module Points {
  import opened Words
  import opened Vli
  import opened Reduce
  import opened Congruence
  import opened ModInv
  import opened Field

  /** A pair of coordinates: residues in the formulas, integers when they stand for affine points. */
  datatype Point = Point(x: int, y: int)

  ghost predicate ArePair(p: Point, x: int, y: int) {
    Is(p.x, x) && Is(p.y, y)
  }

  // ----- apply_z -----

  function Scale(p: Point, z: int): Point {
    var t := MulP(z, z);
    Point(MulP(p.x, t), MulP(p.y, MulP(t, z)))
  }

  /** (x * z^2, y * z^3) */
  ghost function OverZ(u: Point, z: int): Point {
    Point(Times(u.x, Square(z)), Times(u.y, Cube(z)))
  }

  lemma OverZMeans(u: Point, z: int)
    ensures OverZ(u, z) == Point(u.x * (z * z), u.y * (z * z * z))
  {
    Powers(z);
    TimesOne(u.x, z * z);
    TimesOne(u.y, z * z * z);
  }

  /** (x, y) becomes (x * z^2, y * z^3). */
  lemma ScaleMeans(p: Point, s: int, u: Point, z: int)
    requires Cong(p.x, u.x, P) && Cong(p.y, u.y, P) && Cong(s, z, P)
    ensures ArePair(Scale(p, s), OverZ(u, z).x, OverZ(u, z).y)
  {
    var t := MulP(s, s);
    IsMul(s, s, z, z);
    IsMul(p.x, t, u.x, Square(z));
    IsMul(t, s, Square(z), z);
    IsMul(p.y, MulP(t, s), u.y, Cube(z));
  }

  method ApplyZ(X1: array<Word>, Y1: array<Word>, Z: array<Word>)
    requires X1.Length == 8 && Y1.Length == 8 && Z.Length == 8
    requires X1 != Y1 && X1 != Z && Y1 != Z
    modifies X1, Y1
    ensures Point(V(X1), V(Y1)) == Scale(Point(old(V(X1)), old(V(Y1))), V(Z))
    ensures V(X1) < P && V(Y1) < P
  {
    var t1 := new Word[8];
    VliModSquareFast(t1, Z);
    VliModMultFast(X1, X1, t1);
    VliModMultFast(t1, t1, Z);
    VliModMultFast(Y1, Y1, t1);
  }

  // ----- XYcZ_add -----

  /** P and Q over a common Z become P and P + Q over Z * (x2 - x1). */
  function CoZAdd(p: Point, q: Point): (Point, Point) {
    var A := MulP(SubP(q.x, p.x), SubP(q.x, p.x));
    var B, C, e := MulP(p.x, A), MulP(q.x, A), SubP(q.y, p.y);
    var E, x3 := MulP(p.y, SubP(C, B)), SubP(SubP(MulP(e, e), B), C);
    (Point(B, E), Point(x3, SubP(MulP(e, SubP(B, x3)), E)))
  }

  /** What both additions begin with. */
  lemma SharedSteps(p: Point, q: Point, x1: int, y1: int, x2: int, y2: int, A: int, B: int, C: int, a: int, b: int, c: int)
    requires ArePair(p, x1, y1) && ArePair(q, x2, y2)
    requires A == MulP(SubP(q.x, p.x), SubP(q.x, p.x)) && B == MulP(p.x, A) && C == MulP(q.x, A)
    requires a == Times(x2 - x1, x2 - x1) && b == Times(x1, a) && c == Times(x2, a)
    ensures Is(B, b) && Is(C, c) && Is(MulP(p.y, SubP(C, B)), Times(y1, c - b))
  {
    IsSub(q.x, p.x, x2, x1);
    IsMul(SubP(q.x, p.x), SubP(q.x, p.x), x2 - x1, x2 - x1);
    IsMul(p.x, A, x1, a);
    IsMul(q.x, A, x2, a);
    IsSub(C, B, c, b);
    IsMul(p.y, SubP(C, B), y1, c - b);
  }

  /** The y coordinate at x3 on the line with rise e. */
  lemma RiseSteps(e: int, B: int, x3: int, E: int, g: int, b: int, f: int, h: int)
    requires Is(e, g) && Is(B, b) && Is(x3, f) && Is(E, h)
    ensures Is(SubP(MulP(e, SubP(B, x3)), E), Times(g, b - f) - h)
  {
    IsSub(B, x3, b, f);
    IsMul(e, SubP(B, x3), g, b - f);
    IsSub(MulP(e, SubP(B, x3)), E, Times(g, b - f), h);
  }

  /** One line of `XYcZ_add` after the other, on residues and on the integers behind them. */
  lemma AddSteps(p: Point, q: Point, x1: int, y1: int, x2: int, y2: int) returns (b: int, c: int, f: int)
    requires ArePair(p, x1, y1) && ArePair(q, x2, y2)
    ensures b == Times(x1, Times(x2 - x1, x2 - x1)) && c == Times(x2, Times(x2 - x1, x2 - x1))
    ensures f == Times(y2 - y1, y2 - y1)
    ensures ArePair(CoZAdd(p, q).0, b, Times(y1, c - b))
    ensures ArePair(CoZAdd(p, q).1, f - b - c, Times(y2 - y1, b - (f - b - c)) - Times(y1, c - b))
  {
    var t, e := SubP(q.x, p.x), SubP(q.y, p.y);
    var A := MulP(t, t);
    var B, C, D := MulP(p.x, A), MulP(q.x, A), MulP(e, e);
    var x3 := SubP(SubP(D, B), C);
    var d, g := x2 - x1, y2 - y1;
    var a := Times(d, d);
    b, c, f := Times(x1, a), Times(x2, a), Times(g, g);
    SharedSteps(p, q, x1, y1, x2, y2, A, B, C, a, b, c);
    IsSub(q.y, p.y, y2, y1);
    IsMul(e, e, g, g);
    IsSub(D, B, f, b);
    IsSub(SubP(D, B), C, f - b, c);
    RiseSteps(e, B, x3, MulP(p.y, SubP(C, B)), g, b, f - b - c, Times(y1, c - b));
  }

  /** P + Q over Z * (x2 - x1), denominators cleared: the chord with slope (y2 - y1) / (x2 - x1). */
  ghost function SumOf(u: Point, v: Point): Point {
    var d, e := v.x - u.x, v.y - u.y;
    var b, c := Times(u.x, Square(d)), Times(v.x, Square(d));
    var x3 := Square(e) - (b + c);
    Point(x3, Times(e, b - x3) - Times(u.y, Cube(d)))
  }

  lemma SumOfMeans(u: Point, v: Point)
    ensures var d, e, w := v.x - u.x, v.y - u.y, SumOf(u, v);
      && w.x == e * e - (u.x + v.x) * (d * d)
      && w.y == e * (u.x * (d * d) - w.x) - u.y * (d * d * d)
  {
    var d, e, w := v.x - u.x, v.y - u.y, SumOf(u, v);
    Powers(d);
    Powers(e);
    TimesOne(u.x, d * d);
    TimesOne(v.x, d * d);
    TimesOne(u.y, d * d * d);
    TimesOne(e, Times(u.x, Square(d)) - w.x);
    BothTimes(u.x, v.x, d * d);
  }

  lemma BothTimes(x1: int, x2: int, s: int)
    ensures (x1 + x2) * s == x1 * s + x2 * s
  {
  }

  lemma RunCubed(x1: int, x2: int)
    ensures Times(x2, Square(x2 - x1)) - Times(x1, Square(x2 - x1)) == Cube(x2 - x1)
  {
    var d := x2 - x1;
    Powers(d);
    TimesOne(x1, d * d);
    TimesOne(x2, d * d);
    assert x2 * (d * d) - x1 * (d * d) == d * (d * d);
  }

  /** P' is P over Z * (x2 - x1), and the other pair is P + Q, for any integers behind the residues. */
  lemma CoZAddMeans(p: Point, q: Point, u: Point, v: Point)
    requires ArePair(p, u.x, u.y) && ArePair(q, v.x, v.y)
    ensures ArePair(CoZAdd(p, q).0, OverZ(u, v.x - u.x).x, OverZ(u, v.x - u.x).y)
    ensures ArePair(CoZAdd(p, q).1, SumOf(u, v).x, SumOf(u, v).y)
  {
    var b, c, f := AddSteps(p, q, u.x, u.y, v.x, v.y);
    RunCubed(u.x, v.x);
    assert f - b - c == SumOf(u, v).x;
  }

  method XYcZAdd(X1: array<Word>, Y1: array<Word>, X2: array<Word>, Y2: array<Word>)
    requires X1.Length == 8 && Y1.Length == 8 && X2.Length == 8 && Y2.Length == 8
    requires X1 != Y1 && X1 != X2 && X1 != Y2 && Y1 != X2 && Y1 != Y2 && X2 != Y2
    requires V(X1) < P && V(Y1) < P && V(X2) < P && V(Y2) < P
    modifies X1, Y1, X2, Y2
    ensures V(X1) < P && V(Y1) < P && V(X2) < P && V(Y2) < P
    ensures (Point(V(X1), V(Y1)), Point(V(X2), V(Y2)))
         == CoZAdd(Point(old(V(X1)), old(V(Y1))), Point(old(V(X2)), old(V(Y2))))
  {
    ghost var u1, w1, u2, w2 := V(X1), V(Y1), V(X2), V(Y2);
    ghost var t, e := SubP(u2, u1), SubP(w2, w1);
    ghost var A := MulP(t, t);
    ghost var B, C, D := MulP(u1, A), MulP(u2, A), MulP(e, e);
    ghost var x3 := SubP(SubP(D, B), C);
    var t5 := new Word[8];
    VliModSubFast(t5, X2, X1);
    VliModSquareFast(t5, t5);
    assert V(t5) == A;
    VliModMultFast(X1, X1, t5);
    assert V(X1) == B;
    VliModMultFast(X2, X2, t5);
    assert V(X2) == C;
    VliModSubFast(Y2, Y2, Y1);
    assert V(Y2) == e;
    VliModSquareFast(t5, Y2);
    VliModSubFast(t5, t5, X1);
    VliModSubFast(t5, t5, X2);
    assert V(t5) == x3;
    VliModSubFast(X2, X2, X1);
    VliModMultFast(Y1, Y1, X2);
    assert V(Y1) == MulP(w1, SubP(C, B));
    VliModSubFast(X2, X1, t5);
    VliModMultFast(Y2, Y2, X2);
    VliModSubFast(Y2, Y2, Y1);
    VliCopy(X2, t5);
  }

  // ----- XYcZ_addC -----

  /** P and Q over a common Z become P - Q and P + Q over Z * (x2 - x1). */
  function CoZAddC(p: Point, q: Point): (Point, Point) {
    var A := MulP(SubP(q.x, p.x), SubP(q.x, p.x));
    var B, C, e, s := MulP(p.x, A), MulP(q.x, A), SubP(q.y, p.y), AddP(q.y, p.y);
    var E, G := MulP(p.y, SubP(C, B)), AddP(B, C);
    var x3, x3' := SubP(MulP(e, e), G), SubP(MulP(s, s), G);
    (Point(x3', SubP(MulP(SubP(x3', B), s), E)), Point(x3, SubP(MulP(e, SubP(B, x3)), E)))
  }

  /** The lines of `XYcZ_addC` that lead to P + Q. */
  lemma SumSteps(p: Point, q: Point, x1: int, y1: int, x2: int, y2: int) returns (b: int, c: int, f: int)
    requires ArePair(p, x1, y1) && ArePair(q, x2, y2)
    ensures b == Times(x1, Times(x2 - x1, x2 - x1)) && c == Times(x2, Times(x2 - x1, x2 - x1))
    ensures f == Times(y2 - y1, y2 - y1)
    ensures ArePair(CoZAddC(p, q).1, f - (b + c), Times(y2 - y1, b - (f - (b + c))) - Times(y1, c - b))
  {
    var t, e := SubP(q.x, p.x), SubP(q.y, p.y);
    var A := MulP(t, t);
    var B, C := MulP(p.x, A), MulP(q.x, A);
    var E, G := MulP(p.y, SubP(C, B)), AddP(B, C);
    var x3 := SubP(MulP(e, e), G);
    var d, g := x2 - x1, y2 - y1;
    var a := Times(d, d);
    b, c, f := Times(x1, a), Times(x2, a), Times(g, g);
    SharedSteps(p, q, x1, y1, x2, y2, A, B, C, a, b, c);
    IsSub(q.y, p.y, y2, y1);
    IsAdd(B, C, b, c);
    IsMul(e, e, g, g);
    IsSub(MulP(e, e), G, f, b + c);
    RiseSteps(e, B, x3, E, g, b, f - (b + c), Times(y1, c - b));
  }

  /** The lines of `XYcZ_addC` that lead to P - Q. */
  lemma DifferenceSteps(p: Point, q: Point, x1: int, y1: int, x2: int, y2: int) returns (b: int, c: int, k: int)
    requires ArePair(p, x1, y1) && ArePair(q, x2, y2)
    ensures b == Times(x1, Times(x2 - x1, x2 - x1)) && c == Times(x2, Times(x2 - x1, x2 - x1))
    ensures k == Times(y2 + y1, y2 + y1)
    ensures ArePair(CoZAddC(p, q).0, k - (b + c), Times((k - (b + c)) - b, y2 + y1) - Times(y1, c - b))
  {
    var t, s := SubP(q.x, p.x), AddP(q.y, p.y);
    var A := MulP(t, t);
    var B, C := MulP(p.x, A), MulP(q.x, A);
    var E, G := MulP(p.y, SubP(C, B)), AddP(B, C);
    var x3 := SubP(MulP(s, s), G);
    var d, h := x2 - x1, y2 + y1;
    var a := Times(d, d);
    b, c, k := Times(x1, a), Times(x2, a), Times(h, h);
    SharedSteps(p, q, x1, y1, x2, y2, A, B, C, a, b, c);
    IsAdd(q.y, p.y, y2, y1);
    IsAdd(B, C, b, c);
    IsMul(s, s, h, h);
    IsSub(MulP(s, s), G, k, b + c);
    IsSub(x3, B, k - (b + c), b);
    IsMul(SubP(x3, B), s, (k - (b + c)) - b, h);
    IsSub(MulP(SubP(x3, B), s), E, Times((k - (b + c)) - b, h), Times(y1, c - b));
  }

  lemma CoZAddCSum(p: Point, q: Point, u: Point, v: Point)
    requires ArePair(p, u.x, u.y) && ArePair(q, v.x, v.y)
    ensures ArePair(CoZAddC(p, q).1, SumOf(u, v).x, SumOf(u, v).y)
  {
    var b, c, f := SumSteps(p, q, u.x, u.y, v.x, v.y);
    RunCubed(u.x, v.x);
    assert f - (b + c) == SumOf(u, v).x;
  }

  /** P - Q over Z * (x2 - x1), denominators cleared: the chord with slope -(y2 + y1) / (x2 - x1). */
  ghost function DifferenceOf(u: Point, v: Point): Point {
    var d, s := v.x - u.x, v.y + u.y;
    var b, c := Times(u.x, Square(d)), Times(v.x, Square(d));
    var x3 := Square(s) - (b + c);
    Point(x3, Times(s, x3 - b) - Times(u.y, Cube(d)))
  }

  lemma CoZAddCDifference(p: Point, q: Point, u: Point, v: Point)
    requires ArePair(p, u.x, u.y) && ArePair(q, v.x, v.y)
    ensures ArePair(CoZAddC(p, q).0, DifferenceOf(u, v).x, DifferenceOf(u, v).y)
  {
    var b, c, k := DifferenceSteps(p, q, u.x, u.y, v.x, v.y);
    RunCubed(u.x, v.x);
    assert k - (b + c) == DifferenceOf(u, v).x;
    TimesCommute(k - (b + c) - b, v.y + u.y);
  }

  /** Subtracting Q is adding its mirror image. */
  lemma DifferenceIsSum(u: Point, v: Point)
    ensures DifferenceOf(u, v) == SumOf(u, Point(v.x, -v.y))
  {
    var d, s, w := v.x - u.x, v.y + u.y, DifferenceOf(u, v);
    var b := Times(u.x, Square(d));
    assert -v.y - u.y == -s;
    Powers(s);
    Powers(-s);
    assert (-s) * (-s) == s * s;
    TimesOne(s, w.x - b);
    TimesOne(-s, b - w.x);
    assert (-s) * (b - w.x) == s * (w.x - b);
  }

  method XYcZAddC(X1: array<Word>, Y1: array<Word>, X2: array<Word>, Y2: array<Word>)
    requires X1.Length == 8 && Y1.Length == 8 && X2.Length == 8 && Y2.Length == 8
    requires X1 != Y1 && X1 != X2 && X1 != Y2 && Y1 != X2 && Y1 != Y2 && X2 != Y2
    requires V(X1) < P && V(Y1) < P && V(X2) < P && V(Y2) < P
    modifies X1, Y1, X2, Y2
    ensures V(X1) < P && V(Y1) < P && V(X2) < P && V(Y2) < P
    ensures (Point(V(X1), V(Y1)), Point(V(X2), V(Y2)))
         == CoZAddC(Point(old(V(X1)), old(V(Y1))), Point(old(V(X2)), old(V(Y2))))
  {
    ghost var u1, w1, u2, w2 := V(X1), V(Y1), V(X2), V(Y2);
    ghost var t, e, s := SubP(u2, u1), SubP(w2, w1), AddP(w2, w1);
    ghost var A := MulP(t, t);
    ghost var B, C := MulP(u1, A), MulP(u2, A);
    ghost var E, G, D, F := MulP(w1, SubP(C, B)), AddP(B, C), MulP(e, e), MulP(s, s);
    ghost var x3, x3' := SubP(D, G), SubP(F, G);
    var t5, t6, t7 := new Word[8], new Word[8], new Word[8];
    VliModSubFast(t5, X2, X1);
    VliModSquareFast(t5, t5);
    assert V(t5) == A;
    VliModMultFast(X1, X1, t5);
    assert V(X1) == B;
    VliModMultFast(X2, X2, t5);
    assert V(X2) == C;
    VliModAddFast(t5, Y2, Y1);
    assert V(t5) == s;
    VliModSubFast(Y2, Y2, Y1);
    assert V(Y2) == e;
    VliModSubFast(t6, X2, X1);
    VliModMultFast(Y1, Y1, t6);
    assert V(Y1) == E;
    VliModAddFast(t6, X1, X2);
    assert V(t6) == G;
    VliModSquareFast(X2, Y2);
    VliModSubFast(X2, X2, t6);
    assert V(X2) == x3;
    VliModSubFast(t7, X1, X2);
    VliModMultFast(Y2, Y2, t7);
    VliModSubFast(Y2, Y2, Y1);
    assert V(Y2) == SubP(MulP(e, SubP(B, x3)), E);
    VliModSquareFast(t7, t5);
    VliModSubFast(t7, t7, t6);
    assert V(t7) == x3';
    VliModSubFast(t6, t7, X1);
    VliModMultFast(t6, t6, t5);
    VliModSubFast(Y1, t6, Y1);
    VliCopy(X1, t7);
  }

  // ----- EccPoint_double_jacobian -----

  /** The doubled point and its Z = y * z; a zero Z is the point at infinity and stays as it is. */
  function DoubleJacobian(p: Point, z: int): (Point, int) {
    if z == 0 then (p, z)
    else
      var t, q := MulP(p.y, p.y), MulP(z, z);
      var A := MulP(p.x, t);
      var M := MulP(AddP(p.x, q), SubP(AddP(p.x, q), AddP(q, q)));
      var B := HalfP(AddP(M, AddP(M, M)));
      var x3 := SubP(SubP(MulP(B, B), A), A);
      (Point(x3, SubP(MulP(B, SubP(A, x3)), MulP(t, t))), MulP(p.y, z))
  }

  /** The tangent with slope h, denominators cleared. */
  ghost function DoubleOf(u: Point, h: int): Point {
    var a := Times(u.x, Square(u.y));
    var x3 := Square(h) - a - a;
    Point(x3, Times(h, a - x3) - Square(Square(u.y)))
  }

  /** 3 * (x^2 - z^4), twice the slope. */
  ghost function TwiceSlope(x: int, z: int): int {
    3 * (Square(x) - Square(Square(z)))
  }

  /** For any half h of 3 * (x^2 - z^4): the double is DoubleOf over y * z. */
  lemma DoubleMeans(p: Point, r: int, u: Point, z: int, h: int)
    requires ArePair(p, u.x, u.y) && Cong(r, z, P) && r != 0 && Cong(TwiceSlope(u.x, z), 2 * h, P)
    ensures ArePair(DoubleJacobian(p, r).0, DoubleOf(u, h).x, DoubleOf(u, h).y)
    ensures Is(DoubleJacobian(p, r).1, Times(u.y, z))
  {
    var t, q := MulP(p.y, p.y), MulP(r, r);
    var A, M := MulP(p.x, t), MulP(AddP(p.x, q), SubP(AddP(p.x, q), AddP(q, q)));
    var T := AddP(M, AddP(M, M));
    var a, g, m, k := DoubleSlope(p, r, u.x, u.y, z);
    SlopeIdentity(u.x, z, k, m);
    IsHalf(T, m + (m + m), h);
    DoubleRest(HalfP(T), A, MulP(t, t), h, a, g);
  }

  /** The lines of the doubling after the slope B is known. */
  lemma DoubleRest(B: int, A: int, Q: int, h: int, a: int, g: int)
    requires Is(B, h) && Is(A, a) && Is(Q, g)
    ensures var X3, x3 := SubP(SubP(MulP(B, B), A), A), Times(h, h) - a - a;
      Is(X3, x3) && Is(SubP(MulP(B, SubP(A, X3)), Q), Times(h, a - x3) - g)
  {
    var X3, x3 := SubP(SubP(MulP(B, B), A), A), Times(h, h) - a - a;
    IsMul(B, B, h, h);
    IsSub(MulP(B, B), A, Times(h, h), a);
    IsSub(SubP(MulP(B, B), A), A, Times(h, h) - a, a);
    IsSub(A, X3, a, x3);
    IsMul(B, SubP(A, X3), h, a - x3);
    IsSub(MulP(B, SubP(A, X3)), Q, Times(h, a - x3), g);
  }

  lemma DoubleSlope(p: Point, r: int, x: int, y: int, z: int) returns (a: int, g: int, m: int, k: int)
    requires ArePair(p, x, y) && Cong(r, z, P)
    ensures k == Times(z, z) && a == Times(x, Times(y, y)) && g == Times(Times(y, y), Times(y, y))
    ensures m == Times(x + k, (x + k) - (k + k))
    ensures var t, q := MulP(p.y, p.y), MulP(r, r);
      var M := MulP(AddP(p.x, q), SubP(AddP(p.x, q), AddP(q, q)));
      Is(MulP(p.x, t), a) && Is(MulP(t, t), g) && Is(AddP(M, AddP(M, M)), m + (m + m))
    ensures Is(MulP(p.y, r), Times(y, z))
  {
    var t, q, yy := MulP(p.y, p.y), MulP(r, r), Times(y, y);
    var M := MulP(AddP(p.x, q), SubP(AddP(p.x, q), AddP(q, q)));
    k, a, g := Times(z, z), Times(x, yy), Times(yy, yy);
    m := Times(x + k, (x + k) - (k + k));
    IsMul(p.y, p.y, y, y);
    IsMul(p.x, t, x, yy);
    IsMul(t, t, yy, yy);
    IsMul(p.y, r, y, z);
    IsMul(r, r, z, z);
    IsAdd(p.x, q, x, k);
    IsAdd(q, q, k, k);
    IsSub(AddP(p.x, q), AddP(q, q), x + k, k + k);
    IsMul(AddP(p.x, q), SubP(AddP(p.x, q), AddP(q, q)), x + k, (x + k) - (k + k));
    IsAdd(M, M, m, m);
    IsAdd(M, AddP(M, M), m, m + m);
  }

  lemma SlopeIdentity(x: int, z: int, k: int, m: int)
    requires k == Times(z, z) && m == Times(x + k, (x + k) - (k + k))
    ensures m + (m + m) == TwiceSlope(x, z)
  {
    Powers(x);
    Powers(k);
    TimesOne(x + k, (x + k) - (k + k));
    assert (x + k) * (x - k) == x * x - k * k;
  }

  method EccPointDoubleJacobian(X1: array<Word>, Y1: array<Word>, Z1: array<Word>)
    requires X1.Length == 8 && Y1.Length == 8 && Z1.Length == 8
    requires X1 != Y1 && X1 != Z1 && Y1 != Z1
    requires V(X1) < P && V(Y1) < P
    modifies X1, Y1, Z1
    ensures V(X1) < P && V(Y1) < P
    ensures (Point(V(X1), V(Y1)), V(Z1)) == DoubleJacobian(Point(old(V(X1)), old(V(Y1))), old(V(Z1)))
  {
    var zero := VliIsZero(Z1);
    if zero {
      return;
    }
    ghost var u, w, r := V(X1), V(Y1), V(Z1);
    ghost var t, q := MulP(w, w), MulP(r, r);
    ghost var A, Q := MulP(u, t), MulP(t, t);
    ghost var M := MulP(AddP(u, q), SubP(AddP(u, q), AddP(q, q)));
    ghost var T := AddP(M, AddP(M, M));
    var t4, t5 := new Word[8], new Word[8];
    VliModSquareFast(t4, Y1);
    VliModMultFast(t5, X1, t4);
    assert V(t5) == A;
    VliModSquareFast(t4, t4);
    assert V(t4) == Q;
    VliModMultFast(Y1, Y1, Z1);
    assert V(Y1) == MulP(w, r);
    VliModSquareFast(Z1, Z1);
    assert V(Z1) == q;
    VliModAddFast(X1, X1, Z1);
    VliModAddFast(Z1, Z1, Z1);
    VliModSubFast(Z1, X1, Z1);
    VliModMultFast(X1, X1, Z1);
    assert V(X1) == M && V(Y1) == MulP(w, r);
    VliModAddFast(Z1, X1, X1);
    VliModAddFast(X1, X1, Z1);
    assert V(X1) == T;
    HalveField(X1);
    ghost var B := HalfP(T);
    assert V(X1) == B;
    ghost var x3 := SubP(SubP(MulP(B, B), A), A);
    VliModSquareFast(Z1, X1);
    VliModSubFast(Z1, Z1, t5);
    VliModSubFast(Z1, Z1, t5);
    assert V(Z1) == x3;
    VliModSubFast(t5, t5, Z1);
    VliModMultFast(X1, X1, t5);
    VliModSubFast(t4, X1, t4);
    VliCopy(X1, Z1);
    VliCopy(Z1, Y1);
    VliCopy(Y1, t4);
  }

  // ----- XYcZ_initial_double -----

  /** (P, 2P) over the Z of the double, from the affine P and an initial Z. */
  function InitialDouble(p: Point, z: int): (Point, Point) {
    var (twice, z') := DoubleJacobian(Scale(p, z), z);
    (Scale(p, z'), twice)
  }

  /** (X1, Y1) becomes 2P and (X2, Y2) becomes P. */
  method XYcZInitialDouble(X1: array<Word>, Y1: array<Word>, X2: array<Word>, Y2: array<Word>,
                           initialZ: array?<Word>)
    requires X1.Length == 8 && Y1.Length == 8 && X2.Length == 8 && Y2.Length == 8
    requires X1 != Y1 && X1 != X2 && X1 != Y2 && Y1 != X2 && Y1 != Y2 && X2 != Y2
    requires initialZ != null ==> initialZ.Length == 8
    requires initialZ != X1 && initialZ != Y1 && initialZ != X2 && initialZ != Y2
    modifies X1, Y1, X2, Y2
    ensures V(X1) < P && V(Y1) < P && V(X2) < P && V(Y2) < P
    ensures (Point(V(X2), V(Y2)), Point(V(X1), V(Y1)))
         == InitialDouble(Point(old(V(X1)), old(V(Y1))), if initialZ == null then 1 else old(V(initialZ)))
  {
    var z := new Word[8];
    if initialZ != null {
      VliCopy(z, initialZ);
    } else {
      VliZero(z);
      SetOne(z);
    }
    VliCopy(X2, X1);
    VliCopy(Y2, Y1);
    ApplyZ(X1, Y1, z);
    EccPointDoubleJacobian(X1, Y1, z);
    ApplyZ(X2, Y2, z);
  }
}
