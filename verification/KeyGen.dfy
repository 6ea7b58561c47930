/**
 `EccPoint_compute_public_key`: the exact set of private keys for which the public key comes out.

 The code accepts every private key in [1, n - 1], but the ladder runs into R[1] = -R[0] for
 1, n - 2 and n - 1, where it yields (0, 0) and the function returns 0. For every other key in
 range it returns 1 and the right point.
 */
module KeyGen {
  import opened Words
  import opened Bits
  import opened Vli
  import opened Reduce
  import opened Congruence
  import opened ModMultN
  import opened Field
  import opened Points
  import opened Curve
  import opened Ladder
  import opened PrimeField
  import opened ScalarMult
  import opened Degenerate
  import opened AffineCurve
  import opened CyclicLadder
  import opened RegularLadder

  const G: Point := Point(
    0x6B17D1F2_E12C4247_F8BCE6E5_63A440F2_77037D81_2DEB33A0_F4A13945_D898C296,
    0x4FE342E2_FE1A7F9B_8EE7EB4A_7C0F9E16_2BCE3357_6B315ECE_CBB64068_37BF51F5)

  /** mul lists the multiples of the base point G. */
  ghost predicate BaseMultiples(mul: int -> Multiple) {
    GroupLaws(mul) && SamePoint(G, mul(1).point)
  }

  lemma GeneratorOnCurve(g: Point)
    requires g == G
    ensures OnCurve(g)
  {
    Powers(g.x);
    Powers(g.y);
    Witness(P, g.y * g.y - (g.x * g.x * g.x - 3 * g.x + B),
      -0x12BDD1AD_23DFC833_DCCF5F61_41D6BB4A_1F365DC1_430B0E60_0B52DD85_1938D2D6_933106A7_2EFBF035_FDAF4396_3B37FD54_56E90C65_81A8FB7A_0D8A46A3_629F0458);
  }

  lemma BaseIsCyclic(mul: int -> Multiple)
    requires BaseMultiples(mul)
    ensures CyclicMultiples(mul)
  {
    GeneratorOnCurve(G);
    SamePointSym(G, mul(1).point);
    OnCurveSame(mul(1).point, G);
  }

  /** The table `curve_G`. */
  method CurveG() returns (x: array<Word>, y: array<Word>)
    ensures fresh(x) && fresh(y) && x != y && x.Length == 8 && y.Length == 8
    ensures Point(V(x), V(y)) == G
  {
    x := new Word[8] [0xD898C296, 0xF4A13945, 0x2DEB33A0, 0x77037D81, 0x63A440F2, 0xF8BCE6E5, 0xE12C4247, 0x6B17D1F2];
    y := new Word[8] [0x37BF51F5, 0xCBB64068, 0x6B315ECE, 0x2BCE3357, 0x7C0F9E16, 0x8EE7EB4A, 0xFE1A7F9B, 0x4FE342E2];
    NumEight(x[..]);
    NumEight(y[..]);
  }

  method EccPointIsZero(x: array<Word>, y: array<Word>) returns (zero: bool)
    requires x.Length == 8 && y.Length == 8
    ensures zero <==> Point(V(x), V(y)) == ORIGIN
  {
    zero := VliIsZero(x);
    if zero {
      zero := VliIsZero(y);
    }
  }

  /** What the code computes for the private key k, before its meaning is known. */
  ghost predicate Outcome(k: int, ok: bool, result: Point, inverse: int) {
    if k == 0 || k >= N then !ok
    else
      LadderResult(G, 1, Regularised(k) - W8, 257, result, inverse) && (ok <==> result != ORIGIN)
  }

  lemma GeneratorNonZero()
    ensures NonZero(G.x, P) && NonZero(1, P)
  {
    if Cong(G.x, 0, P) {
      CongSmall(G.x, 0, P);
    }
    if Cong(1, 0, P) {
      CongSmall(1, 0, P);
    }
  }

  /**
   The public key comes out for exactly the private keys 2, ..., n - 3, and then it is k * G,
   reduced. The other keys in [1, n - 1], which the comment in the code admits, are refused.
   */
  ghost predicate CorrectKey(k: int, ok: bool, result: Point, mul: int -> Multiple) {
    && (ok <==> 2 <= k <= N - 3)
    && (ok ==> mul(k).Affine? && Is(result.x, mul(k).point.x) && Is(result.y, mul(k).point.y))
  }

  lemma PublicKey(k: int, ok: bool, result: Point, inverse: int, mul: int -> Multiple)
    requires IsPrime(P) && BaseMultiples(mul) && 0 <= k < W8 && Outcome(k, ok, result, inverse)
    ensures CorrectKey(k, ok, result, mul)
    ensures ok <==> 2 <= k <= N - 3
    ensures ok ==> mul(k).Affine? && ArePair(result, mul(k).point.x, mul(k).point.y)
  {
    CollapsingNumbers(k);
    GeneratorNonZero();
    BaseIsCyclic(mul);
    if 0 < k < N {
      RegularisedResult(k, Regularised(k) - W8, G, 1, result, inverse, mul);
    }
  }

  lemma ForEveryTable(k: int, ok: bool, result: Point, inverse: int)
    requires 0 <= k < W8 && Outcome(k, ok, result, inverse)
    ensures forall mul {:trigger BaseMultiples(mul)} :: IsPrime(P) && BaseMultiples(mul) ==> CorrectKey(k, ok, result, mul)
  {
    forall mul | IsPrime(P) && BaseMultiples(mul) ensures CorrectKey(k, ok, result, mul) {
      PublicKey(k, ok, result, inverse, mul);
    }
  }

  lemma FromLadder(k: int, s: int, zero: bool, result: Point, inverse: int)
    requires 0 < k < N && s == Regularised(k) - W8 && LadderResult(G, 1, s, 257, result, inverse)
    requires zero <==> result == ORIGIN
    ensures Outcome(k, !zero, result, inverse)
    ensures forall mul {:trigger BaseMultiples(mul)} :: IsPrime(P) && BaseMultiples(mul) ==> CorrectKey(k, !zero, result, mul)
  {
    ForEveryTable(k, !zero, result, inverse);
  }

  /** The C function. */
  method EccPointComputePublicKey(resultX: array<Word>, resultY: array<Word>, private: array<Word>)
    returns (ok: bool, ghost inverse: int)
    requires resultX.Length == 8 && resultY.Length == 8 && private.Length == 8 && resultX != resultY
    modifies resultX, resultY
    ensures Outcome(old(V(private)), ok, Point(V(resultX), V(resultY)), inverse)
    ensures forall mul {:trigger BaseMultiples(mul)} :: IsPrime(P) && BaseMultiples(mul) ==>
      CorrectKey(old(V(private)), ok, Point(V(resultX), V(resultY)), mul)
    ensures old(V(private)) == 0 || old(V(private)) >= N ==> Point(V(resultX), V(resultY)) == old(Point(V(resultX), V(resultY)))
  {
    inverse := 0;
    ghost var k := V(private);
    ValueBound(private);
    var tmp1, tmp2 := new Word[8], new Word[8];
    var zero := VliIsZero(private);
    if zero {
      ForEveryTable(k, false, Point(V(resultX), V(resultY)), inverse);
      return false, inverse;
    }
    var curveN := CurveN();
    var sign := VliCmp(curveN, private);
    if sign != 1 {
      ForEveryTable(k, false, Point(V(resultX), V(resultY)), inverse);
      return false, inverse;
    }
    var scalar := Regularise(tmp1, tmp2, private, curveN);
    ghost var s := V(scalar);
    var gx, gy := CurveG();
    inverse := EccPointMult(resultX, resultY, gx, gy, scalar, null, 257);
    ghost var result := Point(V(resultX), V(resultY));
    zero := EccPointIsZero(resultX, resultY);
    FromLadder(k, s, zero, result, inverse);
    return !zero, inverse;
  }
}
