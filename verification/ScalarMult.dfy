/**
 What `EccPoint_mult` computes: the multiple S * P of the input point, in affine coordinates,
 where S has the scalar's low numBits - 1 bits under a leading one.

 The curve group enters as a hypothesis: a table `mul` of the multiples of P whose entries obey
 the chord and tangent laws. Its associativity, the primality of the field size and the order of
 P are not proved here.
 */
module ScalarMult {
  import opened Words
  import opened Bits
  import opened Reduce
  import opened Congruence
  import opened Field
  import opened Points
  import opened Curve
  import opened Ladder
  import opened PrimeField

  datatype Multiple = Infinity | Affine(point: Point)

  /** Opposite multiples are mirror images. */
  ghost predicate MirrorLaw(mul: int -> Multiple, k: int) {
    mul(-k) == match mul(k)
      case Infinity => Infinity
      case Affine(a) => Affine(Negate(a))
  }

  /** Affine multiples with different x coordinates add up by the chord law. */
  ghost predicate ChordLaw(mul: int -> Multiple, i: int, j: int) {
    mul(i).Affine? && mul(j).Affine? && !Cong(mul(i).point.x, mul(j).point.x, P) ==>
      mul(i + j).Affine? && ChordSum(mul(i).point, mul(j).point, mul(i + j).point)
  }

  /** mul(k) is k * P for an affine point P = mul(1) that is not its own mirror image. */
  ghost predicate Multiples(mul: int -> Multiple) {
    && (forall k {:trigger MirrorLaw(mul, k)} :: MirrorLaw(mul, k))
    && (forall i, j {:trigger ChordLaw(mul, i, j)} :: ChordLaw(mul, i, j))
    && mul(1).Affine? && NonZero(mul(1).point.y, P)
    && mul(2).Affine? && TangentDouble(mul(1).point, mul(2).point)
  }

  ghost predicate ApartX(mul: int -> Multiple, i: int, j: int) {
    mul(i).Affine? && mul(j).Affine? && !Cong(mul(i).point.x, mul(j).point.x, P)
  }

  /** The two additions of the ladder step at m * P, (m + 1) * P meet points with different x. */
  ghost predicate StepApart(mul: int -> Multiple, m: int) {
    ApartX(mul, m, m + 1) && ApartX(mul, 2 * m + 1, 1)
  }

  /** Every ladder step on the way to S does. */
  ghost predicate LadderApart(mul: int -> Multiple, S: int)
    decreases S
  {
    S <= 1 || (StepApart(mul, S / 2) && LadderApart(mul, S / 2))
  }

  /** The rungs stand for m * P and (m + 1) * P over z. */
  ghost predicate RungsAt(r: Rungs, z: int, mul: int -> Multiple, m: int) {
    && mul(m).Affine? && mul(m + 1).Affine?
    && Represents(r.r0, z, mul(m).point) && Represents(r.r1, z, mul(m + 1).point)
    && NonZero(z, P)
  }

  lemma NextZNonZero(z: int, a: Point, b: Point)
    requires IsPrime(P) && NonZero(z, P) && !Cong(a.x, b.x, P)
    ensures NonZero(NextZ(z, a, b), P)
  {
    if Cong(b.x, a.x, P) {
      CongSym(b.x, a.x, P);
    }
    NonZeroDifference(b.x, a.x, P);
    NonZeroProduct(z, z, P);
    NonZeroProduct(b.x - a.x, z * z, P);
    NonZeroProduct(z, (b.x - a.x) * (z * z), P);
    NextZMeans(z, a, b);
  }

  /** After `XYcZ_addC`: the sum (2m+1) * P and the difference, which is P or -P. */
  lemma AddCStep(r: Rungs, z: int, mul: int -> Multiple, m: int, b: bool) returns (z': int)
    requires IsPrime(P) && Multiples(mul) && RungsAt(r, z, mul, m) && StepApart(mul, m)
    ensures var k := if b then 1 else -1;
      var (difference, sum) := if b then CoZAddC(r.r1, r.r0) else CoZAddC(r.r0, r.r1);
      && mul(2 * m + 1).Affine? && mul(k).Affine?
      && Represents(sum, z', mul(2 * m + 1).point) && Represents(difference, z', mul(k).point)
    ensures NonZero(z', P)
  {
    var i, j := if b then m + 1 else m, if b then m else m + 1;
    var p, q := if b then r.r1 else r.r0, if b then r.r0 else r.r1;
    var a, c := mul(i).point, mul(j).point;
    if Cong(a.x, c.x, P) {
      CongSym(a.x, c.x, P);
    }
    assert MirrorLaw(mul, j);
    assert ChordLaw(mul, i, j) && i + j == 2 * m + 1;
    assert ChordLaw(mul, i, -j) && i + -j == if b then 1 else -1;
    AddCRepresents(p, q, z, a, c, mul(i + j).point, mul(i + -j).point);
    z' := NextZ(z, a, c);
    NextZNonZero(z, a, c);
  }

  /** (2m+1) * P plus P or minus P. */
  lemma AddStep(sum: Point, difference: Point, z: int, mul: int -> Multiple, m: int, b: bool) returns (z': int)
    requires IsPrime(P) && Multiples(mul) && StepApart(mul, m) && NonZero(z, P)
    requires mul(2 * m + 1).Affine? && Represents(sum, z, mul(2 * m + 1).point)
    requires var k := if b then 1 else -1; mul(k).Affine? && Represents(difference, z, mul(k).point)
    ensures var k := if b then 1 else -1;
      && z' == NextZ(z, mul(2 * m + 1).point, mul(k).point) && NonZero(z', P)
      && mul(2 * m + 1 + k).Affine?
      && Represents(CoZAdd(sum, difference).0, z', mul(2 * m + 1).point)
      && Represents(CoZAdd(sum, difference).1, z', mul(2 * m + 1 + k).point)
  {
    var k := if b then 1 else -1;
    assert MirrorLaw(mul, 1);
    assert ChordLaw(mul, 2 * m + 1, k);
    AddRepresents(sum, difference, z, mul(2 * m + 1).point, mul(k).point, mul(2 * m + 1 + k).point);
    z' := NextZ(z, mul(2 * m + 1).point, mul(k).point);
    NextZNonZero(z, mul(2 * m + 1).point, mul(k).point);
  }

  /** One scalar bit: m becomes 2m + bit, and R[1] - R[0] stays P. */
  lemma StepRepresents(r: Rungs, z: int, mul: int -> Multiple, m: int, b: bool) returns (z': int)
    requires IsPrime(P) && Multiples(mul) && RungsAt(r, z, mul, m) && StepApart(mul, m)
    ensures RungsAt(LadderStep(r, b), z', mul, 2 * m + if b then 1 else 0)
  {
    var (difference, sum) := if b then CoZAddC(r.r1, r.r0) else CoZAddC(r.r0, r.r1);
    var z1 := AddCStep(r, z, mul, m, b);
    z' := AddStep(sum, difference, z1, mul, m, b);
  }

  lemma {:induction false} PrefixApart(mul: int -> Multiple, S: int, j: nat)
    requires LadderApart(mul, S) && Prefix(S, j + 1) >= 1
    ensures StepApart(mul, Prefix(S, j + 1))
    decreases j
  {
    if S <= 1 {
      PrefixSmall(S, j);
    } else {
      PrefixPrefix(S, 1, j);
      assert Prefix(S, 1) == Prefix(S, 0) / 2;
      if j > 0 {
        PrefixApart(mul, S / 2, j - 1);
      }
    }
  }

  lemma {:induction false} PrefixSmall(S: int, j: nat)
    requires S <= 1
    ensures Prefix(S, j + 1) <= 0
  {
    if j > 0 {
      PrefixSmall(S, j - 1);
    } else {
      assert Prefix(S, 1) == Prefix(S, 0) / 2;
    }
  }

  /** The steps for the bits i, ..., stop + 1 meet points with different x coordinates. */
  ghost predicate PathApart(mul: int -> Multiple, S: int, i: nat, stop: nat) {
    forall j {:trigger StepApart(mul, Prefix(S, j + 1))} :: stop < j <= i ==> StepApart(mul, Prefix(S, j + 1))
  }

  ghost predicate SameBits(s: int, S: int, i: nat) {
    forall j {:trigger Bit(s, j)} :: 0 <= j <= i ==> Bit(s, j) == Bit(S, j)
  }

  lemma NextPrefix(s: int, S: int, i: nat)
    requires SameBits(s, S, i)
    ensures Prefix(S, i) == 2 * Prefix(S, i + 1) + if Bit(s, i) == 1 then 1 else 0
  {
    assert Bit(s, i) == Bit(S, i);
    assert Prefix(S, i + 1) == Prefix(S, i) / 2;
  }

  /** The ladder loop, from the prefix above bit i to the prefix above bit `stop`. */
  lemma {:induction false} LoopRepresents(r: Rungs, z: int, mul: int -> Multiple, s: int, S: int, i: nat, stop: nat)
    returns (r': Rungs, z': int)
    requires stop <= i
    requires IsPrime(P) && Multiples(mul) && RungsAt(r, z, mul, Prefix(S, i + 1))
    requires PathApart(mul, S, i, stop) && SameBits(s, S, i)
    ensures LadderLoop(r, s, i) == LadderLoop(r', s, stop)
    ensures RungsAt(r', z', mul, Prefix(S, stop + 1))
    decreases i
  {
    if i == stop {
      r', z' := r, z;
    } else {
      assert StepApart(mul, Prefix(S, i + 1));
      var b := Bit(s, i) == 1;
      var next := LadderStep(r, b);
      var z1 := StepRepresents(r, z, mul, Prefix(S, i + 1), b);
      NextPrefix(s, S, i);
      r', z' := LoopRepresents(next, z1, mul, s, S, i - 1, stop);
    }
  }

  // ----- The last bit -----

  lemma DenominatorIdentity(z: int, dx: int, x: int, y: int)
    ensures dx * (z * z) * (y * (z * z * z)) * x == z * (dx * (z * z)) * (y * x * (z * z))
  {
    var w := z * z;
    assert dx * w * (y * (z * w)) * x == z * (dx * w) * (y * x * w);
    assert z * z * z == z * w;
  }

  /** The last rungs: P or -P at index b, and the sum s at the other index, over z. */
  ghost predicate LastRungs(last: Rungs, b: bool, z: int, a: Point, s: Point) {
    && Represents(PlusMinusP(last, b), z, if b then a else Negate(a))
    && Represents(if b then last.r0 else last.r1, z, s)
  }

  /** yP * xP * z^2 */
  ghost function Factor(z: int, a: Point): int {
    Times(Times(a.y, a.x), Square(z))
  }

  lemma FactorMeans(z: int, a: Point)
    ensures Factor(z, a) == a.y * a.x * (z * z)
  {
    Powers(z);
    TimesOne(a.y, a.x);
    TimesOne(a.y * a.x, z * z);
  }

  /** xP * Yb * (X1 - X0) is Z times a known factor, whichever bit comes last. */
  lemma DenominatorMeans(last: Rungs, b: bool, p: Point, z: int, a: Point, s: Point)
    requires LastRungs(last, b, z, a, s) && SamePoint(p, a)
    ensures Is(Denominator(last, b, p), Times(NextZ(z, s, a), Factor(z, a)))
  {
    var xs, xa, ya := Times(s.x, Square(z)), Times(a.x, Square(z)), Times(if b then a.y else -a.y, Cube(z));
    var run := if b then xa - xs else xs - xa;
    IsSub(last.r1.x, last.r0.x, if b then xa else xs, if b then xs else xa);
    IsMul(SubP(last.r1.x, last.r0.x), PlusMinusP(last, b).y, run, ya);
    IsMul(MulP(SubP(last.r1.x, last.r0.x), PlusMinusP(last, b).y), p.x, Times(run, ya), a.x);
    DenominatorValue(b, z, a, s, xs, xa, ya, run);
  }

  lemma DenominatorValue(b: bool, z: int, a: Point, s: Point, xs: int, xa: int, ya: int, run: int)
    requires xs == Times(s.x, Square(z)) && xa == Times(a.x, Square(z))
    requires ya == Times(if b then a.y else -a.y, Cube(z)) && run == if b then xa - xs else xs - xa
    ensures Times(Times(run, ya), a.x) == Times(NextZ(z, s, a), Factor(z, a))
  {
    Powers(z);
    TimesOne(s.x, z * z);
    TimesOne(a.x, z * z);
    TimesOne(if b then a.y else -a.y, z * z * z);
    TimesOne(run, ya);
    TimesOne(run * ya, a.x);
    RunIdentity(s.x, a.x, z);
    SignsCancel(b, a.x - s.x, a.y, z);
    DenominatorIdentity(z, a.x - s.x, a.x, a.y);
    NextZMeans(z, s, a);
    FactorMeans(z, a);
    TimesOne(NextZ(z, s, a), Factor(z, a));
  }

  lemma SignsCancel(b: bool, dx: int, y: int, z: int)
    ensures (if b then dx * (z * z) else -(dx * (z * z))) * ((if b then y else -y) * (z * z * z))
         == dx * (z * z) * (y * (z * z * z))
  {
    if !b {
      assert (-y) * (z * z * z) == -(y * (z * z * z));
    }
  }

  lemma FinalZMeans(last: Rungs, b: bool, p: Point, inverse: int, z: int, a: Point, s: Point)
    requires LastRungs(last, b, z, a, s) && SamePoint(p, a)
    ensures Is(FinalZ(last, b, p, inverse), Times(inverse, Factor(z, a)))
  {
    CongRefl(inverse, P);
    IsMul(inverse, p.y, inverse, a.y);
    IsMul(MulP(inverse, p.y), PlusMinusP(last, b).x, Times(inverse, a.y), Times(a.x, Square(z)));
    FinalZValue(inverse, z, a);
  }

  lemma FinalZValue(inverse: int, z: int, a: Point)
    ensures Times(Times(inverse, a.y), Times(a.x, Square(z))) == Times(inverse, Factor(z, a))
  {
    Powers(z);
    FactorMeans(z, a);
    TimesOne(inverse, a.y);
    TimesOne(a.x, z * z);
    TimesOne(inverse * a.y, a.x * (z * z));
    TimesOne(inverse, Factor(z, a));
    Regather(inverse, a.y, a.x, z * z);
  }

  lemma Regather(i: int, y: int, x: int, w: int)
    ensures i * y * (x * w) == i * (y * x * w)
  {
  }

  lemma NonZeroTimes(x: int, y: int)
    requires IsPrime(P) && NonZero(x, P) && NonZero(y, P)
    ensures NonZero(Times(x, y), P)
  {
    NonZeroProduct(x, y, P);
    TimesOne(x, y);
  }

  /** So the final Z undoes the Z of the last addition. */
  lemma FinalZInverts(last: Rungs, b: bool, p: Point, inverse: int, z: int, a: Point, s: Point)
    requires IsPrime(P) && NonZero(a.x, P) && NonZero(a.y, P) && NonZero(z, P) && NonZero(NextZ(z, s, a), P)
    requires LastRungs(last, b, z, a, s) && SamePoint(p, a)
    requires IsInverse(inverse, Denominator(last, b, p))
    ensures Cong(Times(NextZ(z, s, a), FinalZ(last, b, p, inverse)), 1, P)
  {
    var w, t, den, f := NextZ(z, s, a), Factor(z, a), Denominator(last, b, p), FinalZ(last, b, p, inverse);
    NonZeroTimes(a.y, a.x);
    NonZeroTimes(z, z);
    NonZeroTimes(Times(a.y, a.x), Square(z));
    NonZeroTimes(w, t);
    DenominatorMeans(last, b, p, z, a, s);
    NonZeroCong(den, Times(w, t), P);
    CoprimeToPrime(den, P);
    if den == 0 {
      CongRefl(0, P);
    }
    assert Cong(inverse * den, 1, P);
    FinalZMeans(last, b, p, inverse, z, a, s);
    UndoZ(w, t, den, f, inverse);
  }

  lemma UndoZ(w: int, t: int, den: int, f: int, inverse: int)
    requires Cong(den, Times(w, t), P) && Cong(f, Times(inverse, t), P) && Cong(inverse * den, 1, P)
    ensures Cong(Times(w, f), 1, P)
  {
    TimesOne(w, t);
    TimesOne(inverse, t);
    TimesOne(w, f);
    TimesOne(inverse, Times(w, t));
    TimesOne(w, Times(inverse, t));
    SwapFactors(w, inverse, t);
    ScaleCong(inverse, den, Times(w, t));
    ScaleCong(w, f, Times(inverse, t));
    var g := Times(w, Times(inverse, t));
    CongSym(inverse * den, g, P);
    CongTrans(Times(w, f), g, inverse * den, P);
    CongTrans(Times(w, f), inverse * den, 1, P);
  }

  lemma SwapFactors(w: int, i: int, t: int)
    ensures w * (i * t) == i * (w * t)
  {
  }

  lemma ScaleCong(k: int, x: int, y: int)
    requires Cong(x, y, P)
    ensures Cong(k * x, k * y, P)
  {
    CongRefl(k, P);
    CongMul(k, x, k, y, P);
  }

  /** apply_z with the inverse of Z returns the affine coordinates. */
  lemma ScaleBack(p: Point, w: int, f: int, a: Point)
    requires Represents(p, w, a) && Cong(Times(w, f), 1, P)
    ensures ArePair(Scale(p, f), a.x, a.y)
  {
    CongRefl(f, P);
    ScaleMeans(p, f, OverZ(a, w), f);
    var u := Times(w, f);
    OverTwice(a, w, f, u);
    CongRefl(a.x, P);
    CongRefl(a.y, P);
    CongMul(u, u, 1, 1, P);
    CongMul(u * u, u, 1, 1, P);
    CongMul(a.x, u * u, a.x, 1, P);
    CongMul(a.y, u * u * u, a.y, 1, P);
    OverZMeans(a, u);
    IsCong(Scale(p, f).x, a.x * (u * u), a.x);
    IsCong(Scale(p, f).y, a.y * (u * u * u), a.y);
  }

  lemma OverTwice(a: Point, w: int, f: int, u: int)
    requires u == Times(w, f)
    ensures OverZ(OverZ(a, w), f) == OverZ(a, u)
  {
    TimesOne(w, f);
    OverZMeans(a, w);
    OverZMeans(OverZ(a, w), f);
    OverZMeans(a, u);
    RescaleIdentity(a, w, f);
  }

  /** The last `XYcZ_addC`. */
  lemma LastRungsRepresent(r: Rungs, z: int, mul: int -> Multiple, m: int, b: bool) returns (z1: int)
    requires IsPrime(P) && Multiples(mul) && RungsAt(r, z, mul, m) && StepApart(mul, m)
    ensures mul(2 * m + 1).Affine? && NonZero(z1, P)
    ensures LastRungs(LastSum(r, b), b, z1, mul(1).point, mul(2 * m + 1).point)
  {
    z1 := AddCStep(r, z, mul, m, b);
    assert MirrorLaw(mul, 1);
  }

  /** The last `XYcZ_add`. */
  lemma LastAddRepresents(last: Rungs, z: int, mul: int -> Multiple, m: int, S: int, b: bool)
    requires IsPrime(P) && Multiples(mul) && StepApart(mul, m) && NonZero(z, P)
    requires S == 2 * m + if b then 1 else 0
    requires LastRungs(last, b, z, mul(1).point, mul(2 * m + 1).point)
    ensures var w := NextZ(z, mul(2 * m + 1).point, mul(1).point);
      mul(S).Affine? && NonZero(w, P) && Represents(LastAdd(last, b), w, mul(S).point)
  {
    assert MirrorLaw(mul, 1);
    var sum, difference := if b then last.r0 else last.r1, if b then last.r1 else last.r0;
    var z' := AddStep(sum, difference, z, mul, m, b);
  }

  /** From the prefix m above the last bit to the affine point S * P = (2m + bit) * P. */
  lemma FinishRepresents(r: Rungs, z: int, mul: int -> Multiple, m: int, S: int, b: bool, p: Point, inverse: int)
    requires IsPrime(P) && Multiples(mul) && RungsAt(r, z, mul, m) && StepApart(mul, m)
    requires S == 2 * m + if b then 1 else 0
    requires SamePoint(p, mul(1).point) && NonZero(mul(1).point.x, P)
    requires IsInverse(inverse, Denominator(LastSum(r, b), b, p))
    ensures mul(S).Affine?
    ensures ArePair(Finish(LastSum(r, b), b, p, inverse), mul(S).point.x, mul(S).point.y)
  {
    var z1 := LastRungsRepresent(r, z, mul, m, b);
    FinishLast(LastSum(r, b), z1, mul, m, S, b, p, inverse);
  }

  lemma FinishLast(last: Rungs, z: int, mul: int -> Multiple, m: int, S: int, b: bool, p: Point, inverse: int)
    requires IsPrime(P) && Multiples(mul) && StepApart(mul, m) && NonZero(z, P)
    requires S == 2 * m + if b then 1 else 0
    requires SamePoint(p, mul(1).point) && NonZero(mul(1).point.x, P)
    requires LastRungs(last, b, z, mul(1).point, mul(2 * m + 1).point)
    requires IsInverse(inverse, Denominator(last, b, p))
    ensures mul(S).Affine?
    ensures ArePair(Finish(last, b, p, inverse), mul(S).point.x, mul(S).point.y)
  {
    var a, s := mul(1).point, mul(2 * m + 1).point;
    LastAddRepresents(last, z, mul, m, S, b);
    FinalZInverts(last, b, p, inverse, z, a, s);
    ScaleBack(LastAdd(last, b), NextZ(z, s, a), FinalZ(last, b, p, inverse), mul(S).point);
  }

  // ----- The whole multiplication -----

  /** The scalar with a leading one at bit k in place of its own high bits. */
  function Effective(s: int, k: nat): int {
    DoubledBounds(1, k);
    Doubled(1, k) + s % Doubled(1, k)
  }

  lemma EffectiveBits(s: int, k: nat)
    requires s >= 0
    ensures Prefix(Effective(s, k), k) == 1
    ensures forall j {:trigger Bit(s, j)} :: 0 <= j < k ==> Bit(s, j) == Bit(Effective(s, k), j)
  {
    var d := Doubled(1, k);
    DoubledBounds(1, k);
    var r, q := s % d, s / d;
    DoubledIsProduct(q, k);
    assert s == r + Doubled(q, k);
    PrefixOfSum(r, 1, k, k);
    PrefixVanishes(r, k);
    forall j | 0 <= j < k ensures Bit(s, j) == Bit(Effective(s, k), j) {
      BitOfSum(r, q, k, j);
      BitOfSum(r, 1, k, j);
    }
  }

  /**
   Whenever the ladder for S meets only points with different x coordinates, the result is the
   affine point S * P: for every point (reduced or not), every scalar, every initial Z that is
   not a multiple of P.
   */
  lemma LadderComputesMultiple(p: Point, z: int, s: int, numBits: nat, mul: int -> Multiple, result: Point, inverse: int)
    requires 2 <= numBits && s >= 0
    requires IsPrime(P) && Multiples(mul)
    requires SamePoint(p, mul(1).point) && NonZero(mul(1).point.x, P) && NonZero(z, P)
    requires LadderApart(mul, Effective(s, numBits - 1))
    requires LadderResult(p, z, s, numBits, result, inverse)
    ensures var S := Effective(s, numBits - 1);
      mul(S).Affine? && ArePair(result, mul(S).point.x, mul(S).point.y)
  {
    EffectiveBits(s, numBits - 1);
    LadderFollowsBits(p, z, s, Effective(s, numBits - 1), numBits, mul, result, inverse);
  }

  /** The same for any S that begins with a one at bit numBits - 1 and continues with the scalar's bits. */
  lemma LadderFollowsBits(p: Point, z: int, s: int, S: int, numBits: nat, mul: int -> Multiple,
                          result: Point, inverse: int)
    requires 2 <= numBits && Prefix(S, numBits - 1) == 1 && SameBits(s, S, numBits - 2)
    requires IsPrime(P) && Multiples(mul)
    requires SamePoint(p, mul(1).point) && NonZero(mul(1).point.x, P) && NonZero(z, P)
    requires LadderApart(mul, S)
    requires LadderResult(p, z, s, numBits, result, inverse)
    ensures mul(S).Affine? && ArePair(result, mul(S).point.x, mul(S).point.y)
  {
    var k := numBits - 1;
    var (one, two) := InitialDouble(p, z);
    var z0 := StartRepresents(p, z, mul);
    LastPrefix(S, k);
    WholePathApart(mul, S, k);
    var r, z1 := LoopRepresents(Rungs(one, two), z0, mul, s, S, numBits - 2, 0);
    assert Bit(s, 0) == Bit(S, 0) == S % 2;
    assert r == BeforeLast(p, z, s, numBits);
    FinishRepresents(r, z1, mul, S / 2, S, Bit(s, 0) == 1, p, inverse);
  }

  lemma WholePathApart(mul: int -> Multiple, S: int, k: nat)
    requires k >= 1 && Prefix(S, k) >= 1 && LadderApart(mul, S)
    ensures PathApart(mul, S, k - 1, 0) && StepApart(mul, Prefix(S, 1))
  {
    forall j {:trigger StepApart(mul, Prefix(S, j + 1))} | 0 <= j < k ensures StepApart(mul, Prefix(S, j + 1)) {
      PrefixDecreases(S, j + 1, k);
      PrefixApart(mul, S, j);
    }
    assert StepApart(mul, Prefix(S, 0 + 1));
  }

  lemma {:induction false} PrefixDecreases(x: int, j: nat, k: nat)
    requires j <= k && Prefix(x, k) >= 1
    ensures Prefix(x, j) >= 1
    decreases k
  {
    if j < k {
      assert Prefix(x, k) == Prefix(x, k - 1) / 2;
      PrefixDecreases(x, j, k - 1);
    }
  }

  lemma StartRepresents(p: Point, z: int, mul: int -> Multiple) returns (z0: int)
    requires IsPrime(P) && Multiples(mul) && SamePoint(p, mul(1).point) && NonZero(z, P)
    ensures var (one, two) := InitialDouble(p, z); RungsAt(Rungs(one, two), z0, mul, 1)
  {
    var a := mul(1).point;
    if z == 0 {
      CongRefl(0, P);
    }
    InitialDoubleRepresents(p, z, a, mul(2).point);
    z0 := DoubleZ(z, a);
    NonZeroProduct(z, z, P);
    NonZeroProduct(z * z, z, P);
    NonZeroProduct(a.y, z * z * z, P);
    NonZeroProduct(a.y * (z * z * z), z, P);
    DoubleZMeans(z, a);
  }

  lemma LastPrefix(S: int, k: nat)
    requires k >= 1 && Prefix(S, k) == 1
    ensures Prefix(S, 1) == S / 2 && S == 2 * (S / 2) + Bit(S, 0)
    ensures S > 1
  {
    assert Prefix(S, 1) == Prefix(S, 0) / 2;
    if S <= 1 {
      PrefixSmall(S, k - 1);
    }
  }
}
