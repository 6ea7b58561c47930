/**
 `EccPoint_mult` on a point of order N: for every scalar of up to 257 bits and every initial Z,
 exactly when a point comes out, and which.
 */
module CyclicLadder {
  import opened Words
  import opened Bits
  import opened Vli
  import opened Reduce
  import opened Congruence
  import opened ModMultN
  import opened Field
  import opened Points
  import opened Curve
  import opened Ladder
  import opened PrimeField
  import opened ScalarMult
  import opened Degenerate
  import opened AffineCurve

  // ----- The curve group of order N, as hypotheses on the table of multiples of G -----

  ghost predicate OrderLaw(mul: int -> Multiple, k: int) {
    mul(k).Affine? <==> !Divides(N, k)
  }

  ghost predicate PeriodLaw(mul: int -> Multiple, k: int) {
    mul(k).Affine? && mul(k + N).Affine? ==> SamePoint(mul(k).point, mul(k + N).point)
  }

  ghost predicate EqualXLaw(mul: int -> Multiple, i: int, j: int) {
    mul(i).Affine? && mul(j).Affine? && Cong(mul(i).point.x, mul(j).point.x, P) ==>
      Divides(N, i - j) || Divides(N, i + j)
  }

  /** mul lists the multiples of a point of order N. */
  ghost predicate GroupLaws(mul: int -> Multiple) {
    && Multiples(mul)
    && (forall k {:trigger OrderLaw(mul, k)} :: OrderLaw(mul, k))
    && (forall k {:trigger PeriodLaw(mul, k)} :: PeriodLaw(mul, k))
    && (forall i, j {:trigger EqualXLaw(mul, i, j)} :: EqualXLaw(mul, i, j))
  }

  /** The point itself is on the curve. */
  ghost predicate CyclicMultiples(mul: int -> Multiple) {
    GroupLaws(mul) && OnCurve(mul(1).point)
  }

  // ----- Where the ladder meets equal x coordinates -----

  lemma NotMultiple(k: int)
    requires 0 < k < 3 * N && k != N && k != 2 * N
    ensures !Divides(N, k)
  {
    if Divides(N, k) {
      var q :| k == q * N;
      SmallQuotient(q, k);
      assert false;
    }
  }

  lemma SmallQuotient(q: int, k: int)
    requires k == q * N
    ensures 0 < k < 3 * N ==> q == 1 || q == 2
  {
  }

  lemma DifferentX(mul: int -> Multiple, i: int, j: int)
    requires CyclicMultiples(mul)
    requires !Divides(N, i) && !Divides(N, j) && !Divides(N, i - j) && !Divides(N, i + j)
    ensures ApartX(mul, i, j)
  {
    assert OrderLaw(mul, i) && OrderLaw(mul, j) && EqualXLaw(mul, i, j);
  }

  lemma PreviousPeriod(mul: int -> Multiple, k: int)
    requires CyclicMultiples(mul) && mul(k).Affine?
    ensures mul(k - N).Affine? && SamePoint(mul(k).point, mul(k - N).point)
  {
    assert OrderLaw(mul, k) && OrderLaw(mul, k - N);
    if Divides(N, k - N) {
      SelfDivides(N);
      Combine(N, k - N, N, 1, 1);
    }
    assert k - N + N == k;
    assert PeriodLaw(mul, k - N);
    SamePointSym(mul(k - N).point, mul(k).point);
  }

  lemma OneMore(mul: int -> Multiple, k: int)
    requires CyclicMultiples(mul) && mul(k).Affine? && 2 < k <= N
    ensures ApartX(mul, k - 1, 1) && ChordSum(mul(k - 1).point, mul(1).point, mul(k).point)
  {
    assert OrderLaw(mul, k);
    SelfDivides(N);
    NotMultiple(k - 1);
    NotMultiple(1);
    NotMultiple(k - 2);
    NotMultiple(k);
    assert k - 1 - 1 == k - 2 && k - 1 + 1 == k;
    DifferentX(mul, k - 1, 1);
    assert ChordLaw(mul, k - 1, 1);
  }

  lemma MirrorOf(mul: int -> Multiple, k: int)
    requires CyclicMultiples(mul) && mul(k).Affine?
    ensures k != 0 && mul(-k).Affine? && mul(k).point == Negate(mul(-k).point)
  {
    assert OrderLaw(mul, k);
    Witness(N, 0, 0);
    assert MirrorLaw(mul, -k) && -(-k) == k;
    assert MirrorLaw(mul, k);
  }

  lemma OppositeOnCurve(mul: int -> Multiple, k: int)
    requires CyclicMultiples(mul) && mul(k).Affine? && mul(-k).Affine? && OnCurve(mul(-k).point)
    requires mul(k).point == Negate(mul(-k).point)
    ensures OnCurve(mul(k).point)
  {
    NegateOnCurve(mul(-k).point);
  }

  /** All multiples are on the curve: chords and tangents do not leave it. */
  lemma {:induction false} MultipleOnCurve(mul: int -> Multiple, k: int)
    requires IsPrime(P) && CyclicMultiples(mul) && mul(k).Affine?
    ensures OnCurve(mul(k).point)
    decreases if k > 0 then k else 1 - k
  {
    if k <= 0 {
      MirrorOf(mul, k);
      MultipleOnCurve(mul, -k);
      OppositeOnCurve(mul, k);
    } else if k == 2 {
      TangentKeepsCurve(mul(1).point, mul(2).point);
    } else if k > N {
      PreviousPeriod(mul, k);
      MultipleOnCurve(mul, k - N);
      OnCurveSame(mul(k).point, mul(k - N).point);
    } else if k > 2 {
      OneMore(mul, k);
      MultipleOnCurve(mul, k - 1);
      ChordKeepsCurve(mul(k - 1).point, mul(1).point, mul(k).point);
    }
  }

  lemma TwiceNotMultiple(k: int, m: int)
    requires !Divides(N, m) && k == 2 * m
    ensures !Divides(N, k)
  {
    if Divides(N, k) {
      HalveMultiple(N, m);
    }
  }

  lemma MinusOneNotMultiple()
    ensures !Divides(N, -1)
  {
    NotMultiple(1);
    if Divides(N, -1) {
      Combine(N, -1, -1, -1, 0);
    }
  }

  lemma StepApartAt(mul: int -> Multiple, m: int)
    requires CyclicMultiples(mul) && 0 < m && 2 * m + 1 < 3 * N
    requires m != N && m + 1 != N && 2 * m + 1 != N
    ensures StepApart(mul, m)
  {
    NotMultiple(m);
    NotMultiple(m + 1);
    NotMultiple(2 * m + 1);
    NotMultiple(1);
    MinusOneNotMultiple();
    DifferentX(mul, m, m + 1);
    TwiceNotMultiple(2 * m + 1 - 1, m);
    TwiceNotMultiple(2 * m + 1 + 1, m + 1);
    DifferentX(mul, 2 * m + 1, 1);
  }

  lemma {:induction false} SmallLadderApart(mul: int -> Multiple, S: int)
    requires CyclicMultiples(mul) && S < W8 / 2
    ensures LadderApart(mul, S)
    decreases S
  {
    if S > 1 {
      StepApartAt(mul, S / 2);
      SmallLadderApart(mul, S / 2);
    }
  }

  /** The scalars for which the ladder meets R[1] = -R[0], one or two bits before the end. */
  predicate MeetsMirror(S: int) {
    N - 1 <= S <= N || 2 * N - 2 <= S <= 2 * N + 1
  }

  /** For all others the ladder meets different x coordinates only. */
  lemma GoodLadder(mul: int -> Multiple, S: int)
    requires CyclicMultiples(mul) && S < 2 * W8 && !MeetsMirror(S)
    ensures LadderApart(mul, S)
  {
    if S > 1 {
      StepApartAt(mul, S / 2);
      if S / 2 > 1 {
        StepApartAt(mul, S / 2 / 2);
        SmallLadderApart(mul, S / 2 / 2);
      }
    }
  }

  /** In the remaining cases every step is fine down to m = (N - 1) / 2. */
  lemma BadLadder(mul: int -> Multiple, S: int, bits: nat, stop: nat)
    requires CyclicMultiples(mul) && Prefix(S, stop + 1) == (N - 1) / 2 && Prefix(S, bits + 1) == 1
    ensures PathApart(mul, S, bits, stop)
  {
    var T := Prefix(S, stop + 1);
    SmallLadderApart(mul, T);
    forall j {:trigger StepApart(mul, Prefix(S, j + 1))} | stop < j <= bits ensures StepApart(mul, Prefix(S, j + 1)) {
      PrefixPrefix(S, stop + 1, j - stop);
      PrefixDecreases(S, j + 1, bits + 1);
      PrefixApart(mul, T, j - stop - 1);
    }
  }

  /** (N - 1) / 2 * G and (N + 1) / 2 * G are mirror images, so their representations are too. */
  lemma MirroredRungs(r: Rungs, z: int, mul: int -> Multiple)
    requires CyclicMultiples(mul) && RungsAt(r, z, mul, (N - 1) / 2)
    ensures Mirrored(r)
  {
    var m := (N - 1) / 2;
    assert -m + N == m + 1;
    assert MirrorLaw(mul, m) && PeriodLaw(mul, -m);
    var a, b := Negate(mul(m).point), mul(m + 1).point;
    SamePointSym(a, b);
    RepresentsSame(r.r1, z, b, a);
    CongSym(r.r1.x, Times(a.x, Square(z)), P);
    CongTrans(r.r0.x, Times(a.x, Square(z)), r.r1.x, P);
    CongSmall(r.r0.x, r.r1.x, P);
    OppositeY(r.r0.y, r.r1.y, mul(m).point.y, Cube(z));
  }

  lemma OppositeY(y0: int, y1: int, y: int, s: int)
    requires Cong(y0, Times(y, s), P) && Cong(y1, Times(-y, s), P)
    ensures Cong(y1, -y0, P)
  {
    TimesOne(y, s);
    TimesOne(-y, s);
    NegatedProduct(y, s);
    CongRefl(0, P);
    CongSub(0, y0, 0, Times(y, s), P);
    CongSym(-y0, Times(-y, s), P);
    CongTrans(y1, Times(-y, s), -y0, P);
  }

  lemma NegatedProduct(y: int, s: int)
    ensures (-y) * s == -(y * s)
  {
  }

  // ----- What comes out -----

  lemma SamePointTrans(a: Point, b: Point, c: Point)
    requires SamePoint(a, b) && SamePoint(b, c)
    ensures SamePoint(a, c)
  {
    CongTrans(a.x, b.x, c.x, P);
    CongTrans(a.y, b.y, c.y, P);
  }

  /** (0, 0) is not on the curve. */
  lemma OriginOffCurve(a: Point)
    requires Cong(a.x, 0, P) && Cong(a.y, 0, P)
    ensures !OnCurve(a)
  {
    if OnCurve(a) {
      RightSideAtZero(a.x);
      Powers(a.y);
      CongMul(a.y, a.y, 0, 0, P);
      CongTrans(Square(a.y), Cube(a.x) - 3 * a.x + B, B, P);
      CongSym(Square(a.y), 0, P);
      CongTrans(0, Square(a.y), B, P);
      CongSmall(0, B, P);
    }
  }

  lemma RightSideAtZero(x: int)
    requires Cong(x, 0, P)
    ensures Cong(Cube(x) - 3 * x + B, B, P)
  {
    Powers(x);
    CongMul(x, x, 0, 0, P);
    CongMul(x * x, x, 0, 0, P);
    CongRefl(3, P);
    CongRefl(B, P);
    CongMul(3, x, 3, 0, P);
    CongSub(Cube(x), 3 * x, 0, 0, P);
    CongAdd(Cube(x) - 3 * x, B, 0, B, P);
  }

  lemma NotOrigin(result: Point, a: Point)
    requires ArePair(result, a.x, a.y) && OnCurve(a)
    ensures result != ORIGIN
  {
    if result == ORIGIN {
      CongSym(0, a.x, P);
      CongSym(0, a.y, P);
      OriginOffCurve(a);
    }
  }

  lemma PowerOfTwo256()
    ensures Doubled(1, 256) == W8
  {
    DoubledByWords(1, 8);
    ShiftLiterals(1);
  }

  /** The scalar begins with a one at bit numBits - 1, which tells numBits. */
  lemma BitsOf(s: int, numBits: nat)
    requires 2 <= numBits <= 257
    ensures var S := Effective(s, numBits - 1);
      0 < S < 2 * W8 && (S >= W8 ==> numBits == 257) && (W8 / 2 <= S < W8 ==> numBits == 256)
  {
    PowerOfTwo256();
    DoubledGrows(numBits - 1, 256);
    if numBits < 257 {
      DoubledGrows(numBits - 1, 255);
    }
    if numBits < 256 {
      DoubledGrows(numBits, 255);
    }
  }

  lemma GoodResult(p: Point, z: int, s: int, numBits: nat, S: int, result: Point, inverse: int, mul: int -> Multiple)
    requires IsPrime(P) && CyclicMultiples(mul) && SamePoint(p, mul(1).point)
    requires NonZero(mul(1).point.x, P) && NonZero(z, P)
    requires s >= 0 && 2 <= numBits <= 257 && S == Effective(s, numBits - 1) && !MeetsMirror(S)
    requires LadderResult(p, z, s, numBits, result, inverse)
    ensures mul(S).Affine? && ArePair(result, mul(S).point.x, mul(S).point.y) && result != ORIGIN
  {
    BitsOf(s, numBits);
    GoodLadder(mul, S);
    LadderComputesMultiple(p, z, s, numBits, mul, result, inverse);
    MultipleOnCurve(mul, S);
    NotOrigin(result, mul(S).point);
  }

  /** Down to m = (N - 1) / 2 the ladder works; then it holds mirror images. */
  lemma ReachesMirror(p: Point, z: int, s: int, S: int, numBits: nat, stop: nat, mul: int -> Multiple) returns (r: Rungs)
    requires IsPrime(P) && CyclicMultiples(mul) && SamePoint(p, mul(1).point) && NonZero(z, P)
    requires stop + 2 <= numBits && Prefix(S, stop + 1) == (N - 1) / 2
    requires Prefix(S, numBits - 1) == 1 && SameBits(s, S, numBits - 2)
    ensures Mirrored(r) && BeforeLast(p, z, s, numBits) == LadderLoop(r, s, stop)
  {
    BadLadder(mul, S, numBits - 2, stop);
    var (one, two) := InitialDouble(p, z);
    var z0 := StartRepresents(p, z, mul);
    var z1;
    r, z1 := LoopRepresents(Rungs(one, two), z0, mul, s, S, numBits - 2, stop);
    MirroredRungs(r, z1, mul);
  }

  lemma LastTwoBits(r: Rungs, s: int)
    requires Mirrored(r)
    ensures Collapsed(LadderLoop(r, s, 1))
  {
    var b := Bit(s, 1) == 1;
    StepCollapses(r, b);
    assert LadderLoop(r, s, 1) == LadderLoop(LadderStep(r, b), s, 0);
  }

  /** Both rungs collapse, one or two bits before the end. */
  lemma BadResult(p: Point, z: int, s: int, numBits: nat, S: int, result: Point, inverse: int, mul: int -> Multiple)
    requires IsPrime(P) && CyclicMultiples(mul) && SamePoint(p, mul(1).point) && NonZero(z, P)
    requires s >= 0 && 2 <= numBits <= 257 && S == Effective(s, numBits - 1) && MeetsMirror(S)
    requires LadderResult(p, z, s, numBits, result, inverse)
    ensures result == ORIGIN
  {
    BitsOf(s, numBits);
    EffectiveBits(s, numBits - 1);
    HalfOf(S);
    if S <= N {
      var r := ReachesMirror(p, z, s, S, numBits, 0, mul);
      MirroredResult(r, Bit(s, 0) == 1, p, inverse);
    } else {
      var r := ReachesMirror(p, z, s, S, numBits, 1, mul);
      LastTwoBits(r, s);
      CollapsedResult(BeforeLast(p, z, s, numBits), Bit(s, 0) == 1, p, inverse);
    }
  }

  lemma HalfOf(S: int)
    requires MeetsMirror(S)
    ensures Prefix(S, if S <= N then 1 else 2) == (N - 1) / 2
  {
    assert Prefix(S, 1) == Prefix(S, 0) / 2;
    assert Prefix(S, 2) == Prefix(S, 1) / 2;
  }

  lemma SameNonZero(x: int, y: int)
    requires Cong(x, y, P)
    ensures NonZero(x, P) <==> NonZero(y, P)
  {
    CongSym(x, y, P);
    if NonZero(x, P) {
      NonZeroCong(y, x, P);
    }
    if NonZero(y, P) {
      NonZeroCong(x, y, P);
    }
  }

  /**
   The whole of `EccPoint_mult` for a point of order N: a point comes out exactly if the scalar is
   not one of six numbers and neither x(P) nor the initial Z is divisible by p, and then it is
   S * P, reduced.
   */
  lemma EveryScalar(p: Point, z: int, s: int, numBits: nat, result: Point, inverse: int, mul: int -> Multiple)
    requires IsPrime(P) && CyclicMultiples(mul) && SamePoint(p, mul(1).point)
    requires s >= 0 && 2 <= numBits <= 257 && LadderResult(p, z, s, numBits, result, inverse)
    ensures var S := Effective(s, numBits - 1);
      && (result != ORIGIN <==> !MeetsMirror(S) && NonZero(p.x, P) && NonZero(z, P))
      && (result != ORIGIN ==> mul(S).Affine? && ArePair(result, mul(S).point.x, mul(S).point.y))
  {
    var S := Effective(s, numBits - 1);
    SameNonZero(p.x, mul(1).point.x);
    if !NonZero(p.x, P) || !NonZero(z, P) {
      ZeroResult(p, z, s, numBits, result, inverse);
    } else if MeetsMirror(S) {
      BadResult(p, z, s, numBits, S, result, inverse, mul);
    } else {
      GoodResult(p, z, s, numBits, S, result, inverse, mul);
    }
  }
}
