/**
 `EccPoint_mult`: Montgomery's ladder in co-Z coordinates with index-swapped buffers.

 The ladder as a function on residues, and the C code that computes it. What it computes is
 the subject of module `ScalarMult`.
 */
module Ladder {
  import opened Words
  import opened Bits
  import opened Vli
  import opened Reduce
  import opened Congruence
  import opened ModInv
  import opened Points

  /** The two running points. */
  datatype Rungs = Rungs(r0: Point, r1: Point)

  /** One scalar bit b: R[b] becomes 2*R[b], the other becomes R[0] + R[1]. */
  function LadderStep(r: Rungs, b: bool): Rungs {
    var (difference, sum) := if b then CoZAddC(r.r1, r.r0) else CoZAddC(r.r0, r.r1);
    var (sum', twice) := CoZAdd(sum, difference);
    if b then Rungs(sum', twice) else Rungs(twice, sum')
  }

  /** The bits i, i - 1, ..., 1 of the scalar. */
  function LadderLoop(r: Rungs, scalar: int, i: nat): Rungs
    decreases i
  {
    if i == 0 then r else LadderLoop(LadderStep(r, Bit(scalar, i) == 1), scalar, i - 1)
  }

  /** R[b] - R[1-b] and R[0] + R[1], at their indices b and 1 - b, for the last bit b. */
  function LastSum(r: Rungs, b: bool): Rungs {
    if b then
      var (difference, sum) := CoZAddC(r.r1, r.r0);
      Rungs(sum, difference)
    else
      var (difference, sum) := CoZAddC(r.r0, r.r1);
      Rungs(difference, sum)
  }

  /** R[b], which is P or -P at this stage. */
  function PlusMinusP(r: Rungs, b: bool): Point {
    if b then r.r1 else r.r0
  }

  /** xP * Yb * (X1 - X0) */
  function Denominator(r: Rungs, b: bool, p: Point): int {
    MulP(MulP(SubP(r.r1.x, r.r0.x), PlusMinusP(r, b).y), p.x)
  }

  /** Xb * yP / (xP * Yb * (X1 - X0)), given the inverse of the denominator. */
  function FinalZ(r: Rungs, b: bool, p: Point, inverse: int): int {
    MulP(MulP(inverse, p.y), PlusMinusP(r, b).x)
  }

  /** R[0] after the last addition. */
  function LastAdd(last: Rungs, b: bool): Point {
    if b then CoZAdd(last.r0, last.r1).0 else CoZAdd(last.r1, last.r0).1
  }

  /** apply_z makes it affine. */
  function Finish(r: Rungs, b: bool, p: Point, inverse: int): Point {
    Scale(LastAdd(r, b), FinalZ(r, b, p, inverse))
  }

  /** What vli_modInv guarantees about its result. */
  ghost predicate IsInverse(inverse: int, x: int) {
    && (x == 0 ==> inverse == 0)
    && (x != 0 ==> forall g :: IsGcd(g, x, P) ==> Cong(inverse * x, g, P))
  }

  /** R[0] and R[1] before the last bit. */
  function BeforeLast(p: Point, z: int, scalar: int, numBits: nat): Rungs
    requires numBits >= 2
  {
    var (one, two) := InitialDouble(p, z);
    LadderLoop(Rungs(one, two), scalar, numBits - 2)
  }

  function InLastSum(p: Point, z: int, scalar: int, numBits: nat): Rungs
    requires numBits >= 2
  {
    LastSum(BeforeLast(p, z, scalar, numBits), Bit(scalar, 0) == 1)
  }

  /** The result of the whole multiplication, with the inverse it found on the way. */
  ghost predicate LadderResult(p: Point, z: int, scalar: int, numBits: nat, result: Point, inverse: int)
    requires numBits >= 2
  {
    var last, b := InLastSum(p, z, scalar, numBits), Bit(scalar, 0) == 1;
    && IsInverse(inverse, Denominator(last, b, p))
    && result == Finish(last, b, p, inverse)
  }

  /** The points held by the buffers Rx = {x0, x1}, Ry = {y0, y1}. */
  ghost function Held(x0: array<Word>, x1: array<Word>, y0: array<Word>, y1: array<Word>): Rungs
    reads x0, x1, y0, y1
  {
    Rungs(Point(V(x0), V(y0)), Point(V(x1), V(y1)))
  }

  ghost predicate Buffers(x0: array<Word>, x1: array<Word>, y0: array<Word>, y1: array<Word>)
    reads x0, x1, y0, y1
  {
    && x0.Length == 8 && x1.Length == 8 && y0.Length == 8 && y1.Length == 8
    && x0 != x1 && x0 != y0 && x0 != y1 && x1 != y0 && x1 != y1 && y0 != y1
    && V(x0) < P && V(x1) < P && V(y0) < P && V(y1) < P
  }

  /** The body of the loop of `EccPoint_mult`. */
  method LadderIteration(x0: array<Word>, x1: array<Word>, y0: array<Word>, y1: array<Word>, nb: nat)
    requires Buffers(x0, x1, y0, y1) && nb <= 1
    modifies x0, x1, y0, y1
    ensures Buffers(x0, x1, y0, y1)
    ensures Held(x0, x1, y0, y1) == LadderStep(old(Held(x0, x1, y0, y1)), nb == 0)
  {
    var Rx, Ry := [x0, x1], [y0, y1];
    XYcZAddC(Rx[1 - nb], Ry[1 - nb], Rx[nb], Ry[nb]);
    XYcZAdd(Rx[nb], Ry[nb], Rx[1 - nb], Ry[1 - nb]);
  }

  /** The "final 1/Z value" block of `EccPoint_mult`. */
  method FindFinalZ(z: array<Word>, x0: array<Word>, x1: array<Word>, y0: array<Word>, y1: array<Word>, nb: nat,
                    pointX: array<Word>, pointY: array<Word>)
    returns (ghost inverse: int)
    requires z.Length == 8 && pointX.Length == 8 && pointY.Length == 8
    requires Buffers(x0, x1, y0, y1) && nb <= 1
    requires z != x0 && z != x1 && z != y0 && z != y1 && z != pointX && z != pointY
    modifies z
    ensures var r, b, p := Held(x0, x1, y0, y1), nb == 0, Point(V(pointX), V(pointY));
      && IsInverse(inverse, Denominator(r, b, p))
      && V(z) == FinalZ(r, b, p, inverse)
  {
    var Rx, Ry := [x0, x1], [y0, y1];
    ghost var r, b, p := Held(x0, x1, y0, y1), nb == 0, Point(V(pointX), V(pointY));
    VliModSubFast(z, Rx[1], Rx[0]);
    VliModMultFast(z, z, Ry[1 - nb]);
    VliModMultFast(z, z, pointX);
    assert V(z) == Denominator(r, b, p);
    var curveP := CurveP();
    VliModInv(z, z, curveP);
    inverse := V(z);
    VliModMultFast(z, z, pointY);
    VliModMultFast(z, z, Rx[1 - nb]);
  }

  /** The loop of `EccPoint_mult` over the scalar bits numBits - 2, ..., 1. */
  method LadderBits(x0: array<Word>, x1: array<Word>, y0: array<Word>, y1: array<Word>,
                    scalar: array<Word>, numBits: nat)
    requires Buffers(x0, x1, y0, y1) && scalar != x0 && scalar != x1 && scalar != y0 && scalar != y1
    requires scalar.Length == 8 && 2 <= numBits <= 257
    modifies x0, x1, y0, y1
    ensures Buffers(x0, x1, y0, y1)
    ensures Held(x0, x1, y0, y1) == LadderLoop(old(Held(x0, x1, y0, y1)), V(scalar), numBits - 2)
  {
    ghost var r, s := Held(x0, x1, y0, y1), V(scalar);
    var i := numBits - 2;
    while i > 0
      invariant 0 <= i <= numBits - 2
      invariant Buffers(x0, x1, y0, y1) && V(scalar) == s
      invariant LadderLoop(Held(x0, x1, y0, y1), s, i) == LadderLoop(r, s, numBits - 2)
    {
      var isSet := VliTestBit(scalar, i);
      var nb := if isSet then 0 else 1;
      LadderIteration(x0, x1, y0, y1, nb);
      i := i - 1;
    }
  }

  /** The last bit of the scalar, the final Z and the return to affine coordinates. */
  method LastBit(x0: array<Word>, x1: array<Word>, y0: array<Word>, y1: array<Word>, nb: nat,
                 pointX: array<Word>, pointY: array<Word>)
    returns (ghost inverse: int)
    requires Buffers(x0, x1, y0, y1) && nb <= 1
    requires pointX.Length == 8 && pointX != x0 && pointX != x1 && pointX != y0 && pointX != y1
    requires pointY.Length == 8 && pointY != x0 && pointY != x1 && pointY != y0 && pointY != y1
    modifies x0, x1, y0, y1
    ensures var p, b := Point(V(pointX), V(pointY)), nb == 0;
      var last := LastSum(old(Held(x0, x1, y0, y1)), b);
      && IsInverse(inverse, Denominator(last, b, p))
      && Point(V(x0), V(y0)) == Finish(last, b, p, inverse)
  {
    var Rx, Ry := [x0, x1], [y0, y1];
    var z := new Word[8];
    XYcZAddC(Rx[1 - nb], Ry[1 - nb], Rx[nb], Ry[nb]);
    inverse := FindFinalZ(z, x0, x1, y0, y1, nb, pointX, pointY);
    XYcZAdd(Rx[nb], Ry[nb], Rx[1 - nb], Ry[1 - nb]);
    ApplyZ(Rx[0], Ry[0], z);
  }

  method EccPointMult(resultX: array<Word>, resultY: array<Word>, pointX: array<Word>, pointY: array<Word>,
                      scalar: array<Word>, initialZ: array?<Word>, numBits: nat)
    returns (ghost inverse: int)
    requires resultX.Length == 8 && resultY.Length == 8 && pointX.Length == 8 && pointY.Length == 8
    requires scalar.Length == 8 && (initialZ != null ==> initialZ.Length == 8)
    requires resultX != resultY
    requires 2 <= numBits <= 257
    modifies resultX, resultY
    ensures var p, z := Point(old(V(pointX)), old(V(pointY))), if initialZ == null then 1 else old(V(initialZ));
      LadderResult(p, z, old(V(scalar)), numBits, Point(V(resultX), V(resultY)), inverse)
  {
    ghost var p, z := Point(V(pointX), V(pointY)), if initialZ == null then 1 else V(initialZ);
    ghost var s := V(scalar);
    var x0, x1, y0, y1 := new Word[8], new Word[8], new Word[8], new Word[8];
    VliCopy(x1, pointX);
    VliCopy(y1, pointY);
    XYcZInitialDouble(x1, y1, x0, y0, initialZ);
    assert (Point(V(x0), V(y0)), Point(V(x1), V(y1))) == InitialDouble(p, z);
    assert V(pointX) == p.x && V(pointY) == p.y && V(scalar) == s;
    LadderBits(x0, x1, y0, y1, scalar, numBits);
    assert Held(x0, x1, y0, y1) == BeforeLast(p, z, s, numBits);
    assert V(pointX) == p.x && V(pointY) == p.y && V(scalar) == s;
    var isSet := VliTestBit(scalar, 0);
    var nb := if isSet then 0 else 1;
    inverse := LastBit(x0, x1, y0, y1, nb, pointX, pointY);
    VliCopy(resultX, x0);
    VliCopy(resultY, y0);
  }
}
