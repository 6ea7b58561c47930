/**
 The ladder with the regularised scalar that key generation and shared secrets use: private + n
 or private + 2n, with 257 bits.
 */
module RegularLadder {
  import opened Words
  import opened Bits
  import opened Vli
  import opened Reduce
  import opened Congruence
  import opened ModMultN
  import opened Field
  import opened Points
  import opened Curve
  import opened Ladder
  import opened PrimeField
  import opened ScalarMult
  import opened Degenerate
  import opened AffineCurve
  import opened CyclicLadder

  // ----- The regularised scalar -----

  /** The 257-bit scalar for private: its leading one is left implied. */
  function Regularised(k: int): int {
    if k + N >= W8 then k + N else k + 2 * N
  }

  /** 257 bits, congruent to private, for every 256-bit number. */
  lemma RegularisedScalar(private: int)
    requires 0 <= private < W8
    ensures W8 <= Regularised(private) < 2 * W8 && Cong(Regularised(private), private, N)
  {
    Witness(N, Regularised(private) - private, if private + N >= W8 then 1 else 2);
  }

  lemma PickScalar(private: int, tmp1: int, carry: int, tmp2: int, carry2: int)
    requires 0 <= private < W8 && 0 <= tmp1 < W8 && 0 <= tmp2 < W8 && 0 <= carry <= 1 && 0 <= carry2 <= 1
    requires tmp1 + carry * W8 == private + N && tmp2 + carry2 * W8 == tmp1 + N
    ensures (if carry != 0 then tmp1 else tmp2) == Regularised(private) - W8
  {
  }

  /** The two additions of n and p2[!carry]; tmp1 may be private itself. */
  method Regularise(tmp1: array<Word>, tmp2: array<Word>, private: array<Word>, curveN: array<Word>)
    returns (scalar: array<Word>)
    requires tmp1.Length == 8 && tmp2.Length == 8 && private.Length == 8 && curveN.Length == 8
    requires tmp1 != tmp2 && curveN != tmp1 && curveN != tmp2 && V(curveN) == N
    modifies tmp1, tmp2
    ensures scalar in {tmp1, tmp2} && V(scalar) == Regularised(old(V(private))) - W8
  {
    ghost var k := V(private);
    ValueBound(private);
    var carry := Add8(tmp1, private, curveN);
    ghost var t := V(tmp1);
    var carry2 := Add8(tmp2, tmp1, curveN);
    PickScalar(k, t, carry, V(tmp2), carry2);
    var p2 := [tmp1, tmp2];
    scalar := p2[if carry != 0 then 0 else 1];
  }

  /** The numbers for which the ladder ends in a collapse. */
  predicate Collapsing(k: int) {
    MeetsMirror(Regularised(k))
  }

  lemma CollapsingNumbers(k: int)
    requires 0 <= k < W8
    ensures Collapsing(k) <==> k in {0, 1, N - 2, N - 1, N, N + 1}
  {
  }

  // ----- What comes out -----

  /** The implied top bit: `Effective` restores it. */
  lemma RestoredScalar(k: int, s: int)
    requires 0 <= k < W8 && s == Regularised(k) - W8
    ensures 0 <= s < W8 && Effective(s, 256) == Regularised(k)
  {
    PowerOfTwo256();
    assert s % W8 == s;
  }

  /** S * P is k * P. */
  lemma RegularisedPoint(mul: int -> Multiple, k: int)
    requires CyclicMultiples(mul) && 0 < k < W8 && k != N
    ensures mul(k).Affine? && mul(Regularised(k)).Affine?
    ensures SamePoint(mul(Regularised(k)).point, mul(k).point)
  {
    NotMultiple(k);
    NotMultiple(k + N);
    assert OrderLaw(mul, k) && OrderLaw(mul, k + N);
    assert PeriodLaw(mul, k) && PeriodLaw(mul, k + N);
    SamePointSym(mul(k).point, mul(k + N).point);
    if k + N < W8 {
      assert k + N + N == k + 2 * N;
      NotMultiple(k + 2 * N);
      assert OrderLaw(mul, k + N + N);
      SamePointSym(mul(k + N).point, mul(k + N + N).point);
      SamePointTrans(mul(k + N + N).point, mul(k + N).point, mul(k).point);
    }
  }

  lemma SamePair(result: Point, a: Point, b: Point)
    requires ArePair(result, a.x, a.y) && SamePoint(a, b)
    ensures ArePair(result, b.x, b.y)
  {
    IsCong(result.x, a.x, b.x);
    IsCong(result.y, a.y, b.y);
  }

  /**
   The regularised ladder for a 256-bit number k, a point of order N and any initial Z: a point
   comes out exactly if k is not one of six numbers and neither x(P) nor Z is divisible by p, and
   then it is k * P, reduced.
   */
  lemma RegularisedResult(k: int, s: int, p: Point, z: int, result: Point, inverse: int, mul: int -> Multiple)
    requires IsPrime(P) && CyclicMultiples(mul) && SamePoint(p, mul(1).point)
    requires 0 <= k < W8 && s == Regularised(k) - W8 && LadderResult(p, z, s, 257, result, inverse)
    ensures result != ORIGIN <==> !Collapsing(k) && NonZero(p.x, P) && NonZero(z, P)
    ensures result != ORIGIN ==> mul(k).Affine? && ArePair(result, mul(k).point.x, mul(k).point.y)
  {
    RestoredScalar(k, s);
    EveryScalar(p, z, s, 257, result, inverse, mul);
    if result != ORIGIN {
      CollapsingNumbers(k);
      RegularisedPoint(mul, k);
      SamePair(result, mul(Regularised(k)).point, mul(k).point);
    }
  }
}
