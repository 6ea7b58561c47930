/**
 `uECC_shared_secret`: elliptic-curve Diffie-Hellman. Two key pairs arrive at the same secret,
 and exactly when a secret comes out at all.
 */
module SharedSecrets {
  import opened Words
  import opened Vli
  import opened Reduce
  import opened Congruence
  import opened ModMultN
  import opened Field
  import opened Points
  import opened Curve
  import opened Ladder
  import opened PrimeField
  import opened ScalarMult
  import opened Degenerate
  import opened AffineCurve
  import opened CyclicLadder
  import opened RegularLadder
  import opened KeyGen
  import opened OctetStrings
  import opened PublicKeys

  // ----- One secret -----

  /**
   x is the x coordinate of k times the point that mul lists; there is none for six numbers, if
   x(p) = 0, or if the initial Z is divisible by p.
   */
  ghost predicate CorrectSecret(k: int, p: Point, z: int, ok: bool, x: int, mul: int -> Multiple) {
    && (ok <==> !Collapsing(k) && NonZero(p.x, P) && NonZero(z, P))
    && (ok ==> mul(k).Affine? && Is(x, mul(k).point.x))
  }

  /** For every point p of order N. */
  ghost predicate SecretOf(k: int, p: Point, z: int, ok: bool, x: int) {
    forall mul {:trigger CyclicMultiples(mul)} ::
      IsPrime(P) && CyclicMultiples(mul) && SamePoint(p, mul(1).point) ==> CorrectSecret(k, p, z, ok, x, mul)
  }

  lemma LadderGivesSecret(k: int, s: int, p: Point, z: int, zero: bool, result: Point, inverse: int)
    requires 0 <= k < W8 && s == Regularised(k) - W8
    requires LadderResult(p, z, s, 257, result, inverse) && (zero <==> result == ORIGIN)
    ensures SecretOf(k, p, z, !zero, result.x)
  {
    forall mul | IsPrime(P) && CyclicMultiples(mul) && SamePoint(p, mul(1).point)
      ensures CorrectSecret(k, p, z, !zero, result.x, mul)
    {
      RegularisedResult(k, s, p, z, result, inverse, mul);
    }
  }

  ghost function InitialZ(random: array?<Word>): int
    reads random
  {
    if random == null then 1 else V(random)
  }

  /** The part on words: the regularised scalar, in place, and the multiplication. */
  method MultiplyPublic(productX: array<Word>, productY: array<Word>, x: array<Word>, y: array<Word>,
                        private: array<Word>, random: array?<Word>) returns (zero: bool)
    requires productX.Length == 8 && productY.Length == 8 && x.Length == 8 && y.Length == 8 && private.Length == 8
    requires random != null ==> random.Length == 8
    requires productX != productY && private != x && private != y && private != random
    modifies productX, productY, private
    ensures SecretOf(old(V(private)), Point(old(V(x)), old(V(y))), old(InitialZ(random)), !zero, V(productX))
  {
    ghost var k, p, z := V(private), Point(V(x), V(y)), InitialZ(random);
    ValueBound(private);
    var tmp := new Word[8];
    var curveN := CurveN();
    var scalar := Regularise(private, tmp, private, curveN);
    ghost var s := V(scalar);
    assert InitialZ(random) == z;
    ghost var inverse := EccPointMult(productX, productY, x, y, scalar, random, 257);
    ghost var result := Point(V(productX), V(productY));
    zero := EccPointIsZero(productX, productY);
    LadderGivesSecret(k, s, p, z, zero, result, inverse);
  }

  /** random is the first nonzero number that the generator delivers, null if it fails every time. */
  method ComputeSharedSecret(publicKey: array<Byte>, privateKey: array<Byte>, secret: array<Byte>, random: array?<Word>)
    returns (ok: bool)
    requires publicKey.Length == 64 && privateKey.Length == 32 && secret.Length == 32
    requires random != null ==> random.Length == 8
    modifies secret
    ensures SecretOf(old(BigEndian(privateKey[0..32])),
                     old(Point(BigEndian(publicKey[0..32]), BigEndian(publicKey[32..64]))),
                     old(if random == null then 1 else V(random)), ok, BigEndian(secret[0..32]))
  {
    ghost var k, p, z := BigEndian(privateKey[0..32]), Point(BigEndian(publicKey[0..32]), BigEndian(publicKey[32..64])), InitialZ(random);
    var private, x, y := new Word[8], new Word[8], new Word[8];
    var productX, productY := new Word[8], new Word[8];
    VliBytesToNative(private, privateKey, 0);
    VliBytesToNative(x, publicKey, 0);
    VliBytesToNative(y, publicKey, 32);
    assert Point(V(x), V(y)) == p;
    assert V(private) == k && InitialZ(random) == z;
    var zero := MultiplyPublic(productX, productY, x, y, private, random);
    ghost var product := V(productX);
    assert SecretOf(k, p, z, !zero, product);
    VliNativeToBytes(secret, 0, productX);
    assert BigEndian(secret[0..32]) == product;
    return !zero;
  }

  // ----- Two secrets -----

  /** Doubling an affine multiple is a tangent step: the group has no point of order two. */
  ghost predicate DoubleLaw(mul: int -> Multiple, k: int) {
    mul(k).Affine? ==>
      NonZero(mul(k).point.y, P) && mul(2 * k).Affine? && TangentDouble(mul(k).point, mul(2 * k).point)
  }

  ghost predicate Doubles(mul: int -> Multiple) {
    forall k {:trigger DoubleLaw(mul, k)} :: DoubleLaw(mul, k)
  }

  /** The multiples of b * P among the multiples of P. */
  function Scaled(mul: int -> Multiple, b: int): int -> Multiple {
    k => mul(b * k)
  }

  lemma Distributes(b: int, i: int, j: int)
    ensures b * (i + j) == b * i + b * j && b * -i == -(b * i) && b * (i - j) == b * i - b * j
  {
  }

  lemma MultipleOfProduct(b: int, k: int)
    requires IsPrime(N) && !Divides(N, b)
    ensures Divides(N, b * k) <==> Divides(N, k)
  {
    if Divides(N, k) {
      Combine(N, k, k, b, 0);
    } else {
      assert NonZero(b, N) && NonZero(k, N);
      NonZeroProduct(b, k, N);
      assert b * k - 0 == b * k;
    }
  }

  lemma ScaledOrder(mul: int -> Multiple, b: int, k: int)
    requires CyclicMultiples(mul) && IsPrime(N) && !Divides(N, b)
    ensures OrderLaw(Scaled(mul, b), k)
  {
    assert OrderLaw(mul, b * k);
    MultipleOfProduct(b, k);
  }

  lemma {:induction false} ManyPeriods(mul: int -> Multiple, x: int, j: nat)
    requires CyclicMultiples(mul) && mul(x).Affine?
    ensures mul(x + j * N).Affine? && SamePoint(mul(x).point, mul(x + j * N).point)
  {
    if j == 0 {
      CongRefl(mul(x).point.x, P);
      CongRefl(mul(x).point.y, P);
    } else {
      ManyPeriods(mul, x, j - 1);
      var y := x + (j - 1) * N;
      assert y + N == x + j * N;
      assert OrderLaw(mul, y) && OrderLaw(mul, y + N) && PeriodLaw(mul, y);
      if Divides(N, y + N) {
        SelfDivides(N);
        Combine(N, y + N, N, 1, -1);
      }
      SamePointTrans(mul(x).point, mul(y).point, mul(y + N).point);
    }
  }

  lemma ScaledPeriod(mul: int -> Multiple, b: int, k: int)
    requires CyclicMultiples(mul) && b > 0
    ensures PeriodLaw(Scaled(mul, b), k)
  {
    if mul(b * k).Affine? {
      ManyPeriods(mul, b * k, b);
      Distributes(b, k, N);
    }
  }

  lemma ScaledEqualX(mul: int -> Multiple, b: int, i: int, j: int)
    requires CyclicMultiples(mul) && IsPrime(N) && !Divides(N, b)
    ensures EqualXLaw(Scaled(mul, b), i, j)
  {
    assert EqualXLaw(mul, b * i, b * j);
    Distributes(b, i, j);
    MultipleOfProduct(b, i - j);
    MultipleOfProduct(b, i + j);
  }

  lemma ScaledChord(mul: int -> Multiple, b: int, i: int, j: int)
    requires CyclicMultiples(mul)
    ensures ChordLaw(Scaled(mul, b), i, j) && MirrorLaw(Scaled(mul, b), i)
  {
    assert ChordLaw(mul, b * i, b * j);
    assert MirrorLaw(mul, b * i);
    Distributes(b, i, j);
  }

  lemma ScaledMultiples(mul: int -> Multiple, b: int)
    requires CyclicMultiples(mul) && Doubles(mul) && !Divides(N, b)
    ensures Multiples(Scaled(mul, b)) && Scaled(mul, b)(1) == mul(b)
  {
    var t := Scaled(mul, b);
    assert b * 1 == b && b * 2 == 2 * b;
    assert t(1) == mul(b) && t(2) == mul(2 * b);
    assert OrderLaw(mul, b) && DoubleLaw(mul, b);
    forall i ensures MirrorLaw(t, i) {
      ScaledChord(mul, b, i, 0);
    }
    forall i, j ensures ChordLaw(t, i, j) {
      ScaledChord(mul, b, i, j);
    }
  }

  /** The multiples of b * P form a group of order N, too. */
  lemma ScaledCyclic(mul: int -> Multiple, b: int)
    requires IsPrime(P) && IsPrime(N) && CyclicMultiples(mul) && Doubles(mul) && 0 < b < N
    ensures CyclicMultiples(Scaled(mul, b)) && Scaled(mul, b)(1) == mul(b)
  {
    var t := Scaled(mul, b);
    NotMultiple(b);
    ScaledMultiples(mul, b);
    forall k ensures OrderLaw(t, k) {
      ScaledOrder(mul, b, k);
    }
    forall k ensures PeriodLaw(t, k) {
      ScaledPeriod(mul, b, k);
    }
    forall i, j ensures EqualXLaw(t, i, j) {
      ScaledEqualX(mul, b, i, j);
    }
    assert OrderLaw(mul, b);
    MultipleOnCurve(mul, b);
  }

  /** The secret of k with the public point of b is the x coordinate of (b * k) * G. */
  lemma SecretIsMultiple(mul: int -> Multiple, k: int, b: int, p: Point, z: int, ok: bool, x: int)
    requires IsPrime(P) && IsPrime(N) && BaseMultiples(mul) && Doubles(mul) && CorrectKey(b, true, p, mul)
    requires SecretOf(k, p, z, ok, x)
    ensures ok <==> !Collapsing(k) && NonZero(p.x, P) && NonZero(z, P)
    ensures ok ==> mul(b * k).Affine? && Is(x, mul(b * k).point.x)
  {
    BaseIsCyclic(mul);
    ScaledCyclic(mul, b);
    var t := Scaled(mul, b);
    assert CorrectSecret(k, p, z, ok, x, t);
  }

  /**
   Diffie-Hellman: each holder of two computed key pairs obtains a secret exactly if the other's
   public key has an x coordinate other than 0 and the initial Z is not divisible by p, and two
   secrets are equal.
   */
  lemma SecretsAgree(mul: int -> Multiple, a: int, b: int, A: Point, B: Point, zA: int, zB: int,
                     okA: bool, okB: bool, x: int, y: int)
    requires IsPrime(P) && IsPrime(N) && BaseMultiples(mul) && Doubles(mul)
    requires CorrectKey(a, true, A, mul) && CorrectKey(b, true, B, mul)
    requires SecretOf(a, B, zA, okA, x) && SecretOf(b, A, zB, okB, y)
    ensures okA <==> B.x != 0 && NonZero(zA, P)
    ensures okB <==> A.x != 0 && NonZero(zB, P)
    ensures okA && okB ==> x == y
  {
    CollapsingNumbers(a);
    CollapsingNumbers(b);
    SecretIsMultiple(mul, a, b, B, zA, okA, x);
    SecretIsMultiple(mul, b, a, A, zB, okB, y);
    ZeroResidue(A.x);
    ZeroResidue(B.x);
    assert a * b == b * a;
    if okA && okB {
      CongSym(y, mul(b * a).point.x, P);
      CongTrans(x, mul(b * a).point.x, y, P);
      CongSmall(x, y, P);
    }
  }

  lemma ZeroResidue(v: int)
    requires 0 <= v < P
    ensures NonZero(v, P) <==> v != 0
  {
    CongRefl(0, P);
    if Cong(v, 0, P) {
      CongSmall(v, 0, P);
    }
  }

  /** Both private numbers are the owner's, both public keys computed from them: the octets of the secrets agree. */
  lemma SameOctets(a: int, b: int, A: Point, B: Point, zA: int, zB: int, s: seq<Byte>, t: seq<Byte>)
    requires |s| == |t|
    requires forall mul {:trigger BaseMultiples(mul)} :: IsPrime(P) && BaseMultiples(mul) ==>
      CorrectKey(a, true, A, mul) && CorrectKey(b, true, B, mul)
    requires SecretOf(a, B, zA, true, BigEndian(s)) && SecretOf(b, A, zB, true, BigEndian(t))
    ensures forall mul {:trigger BaseMultiples(mul)} ::
      IsPrime(P) && IsPrime(N) && BaseMultiples(mul) && Doubles(mul) ==> s == t
  {
    forall mul | IsPrime(P) && IsPrime(N) && BaseMultiples(mul) && Doubles(mul) ensures s == t {
      SecretsAgree(mul, a, b, A, B, zA, zB, true, true, BigEndian(s), BigEndian(t));
      OctetsInjective(s, t);
    }
  }

  /** The whole exchange, each side with its own random number. */
  method Exchange(privateA: array<Byte>, privateB: array<Byte>, randomA: array?<Word>, randomB: array?<Word>)
    returns (secretA: array<Byte>, secretB: array<Byte>, ok: bool)
    requires privateA.Length == 32 && privateB.Length == 32
    requires (randomA != null ==> randomA.Length == 8) && (randomB != null ==> randomB.Length == 8)
    ensures secretA.Length == 32 && secretB.Length == 32
    ensures forall mul {:trigger BaseMultiples(mul)} ::
      IsPrime(P) && IsPrime(N) && BaseMultiples(mul) && Doubles(mul) && ok ==> secretA[..] == secretB[..]
  {
    secretA, secretB := new Byte[32](_ => 0), new Byte[32](_ => 0);
    var publicA, publicB := new Byte[64](_ => 0), new Byte[64](_ => 0);
    ghost var a, b := BigEndian(privateA[0..32]), BigEndian(privateB[0..32]);
    ok := ComputePublicKey(privateA, publicA);
    if !ok {
      return;
    }
    ghost var A := Point(BigEndian(publicA[0..32]), BigEndian(publicA[32..64]));
    ok := ComputePublicKey(privateB, publicB);
    if !ok {
      return;
    }
    ghost var B := Point(BigEndian(publicB[0..32]), BigEndian(publicB[32..64]));
    ghost var zA, zB := if randomA == null then 1 else V(randomA), if randomB == null then 1 else V(randomB);
    ok := ComputeSharedSecret(publicB, privateA, secretA, randomA);
    if !ok {
      return;
    }
    ghost var x := secretA[0..32];
    assert SecretOf(a, B, zA, true, BigEndian(x));
    ok := ComputeSharedSecret(publicA, privateB, secretB, randomB);
    if !ok {
      return;
    }
    assert secretA[..] == x && secretB[..] == secretB[0..32];
    SameOctets(a, b, A, B, zA, zB, x, secretB[0..32]);
  }
}
