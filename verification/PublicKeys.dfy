/**
 `curve_x_side`, `uECC_valid_public_key` and `uECC_compute_public_key`: public keys as
 big-endian octet strings.
 */
module PublicKeys {
  import opened Words
  import opened Vli
  import opened Reduce
  import opened Congruence
  import opened Field
  import opened Points
  import opened Curve
  import opened Ladder
  import opened PrimeField
  import opened ScalarMult
  import opened Degenerate
  import opened AffineCurve
  import opened CyclicLadder
  import opened RegularLadder
  import opened KeyGen
  import opened OctetStrings

  /** The table `curve_b`. */
  method CurveB() returns (b: array<Word>)
    ensures fresh(b) && b.Length == 8 && V(b) == B
  {
    b := new Word[8] [0x27D2604B, 0x3BCE3C3E, 0xCC53B0F6, 0x651D06B0, 0x769886BC, 0xB3EBBD55, 0xAA3A93E7, 0x5AC635D8];
    NumEight(b[..]);
  }

  method Three() returns (three: array<Word>)
    ensures fresh(three) && three.Length == 8 && V(three) == 3
  {
    three := new Word[8] [3, 0, 0, 0, 0, 0, 0, 0];
    NumEight(three[..]);
  }

  function XSide(x: int): (r: int)
    ensures 0 <= r < P
  {
    AddP(MulP(SubP(MulP(x, x), 3), x), B)
  }

  /** x^3 - 3x + b */
  lemma XSideMeans(x: int)
    ensures Is(XSide(x), Cube(x) - 3 * x + B)
  {
    CongRefl(x, P);
    CongRefl(3, P);
    CongRefl(B, P);
    IsMul(x, x, x, x);
    IsSub(MulP(x, x), 3, Square(x), 3);
    IsMul(SubP(MulP(x, x), 3), x, Square(x) - 3, x);
    IsAdd(MulP(SubP(MulP(x, x), 3), x), B, Times(Square(x) - 3, x), B);
    Powers(x);
    TimesOne(Square(x) - 3, x);
    CubicForm(x);
  }

  lemma CubicForm(x: int)
    ensures (x * x - 3) * x == x * x * x - 3 * x
  {
  }

  /** result = x^3 - 3x + b; result must not overlap x. */
  method CurveXSide(result: array<Word>, x: array<Word>)
    requires result.Length == 8 && x.Length == 8 && result != x
    modifies result
    ensures V(result) == XSide(V(x))
  {
    var three := Three();
    var curveB := CurveB();
    VliModSquareFast(result, x);
    VliModSubFast(result, result, three);
    VliModMultFast(result, result, x);
    VliModAddFast(result, result, curveB);
  }

  /** A point in canonical affine coordinates: SEC 1, section 3.2.2.1, short of the order check. */
  ghost predicate ValidKey(x: int, y: int) {
    !(x == 0 && y == 0) && x < P && y < P && OnCurve(Point(x, y))
  }

  lemma EqualSides(x: int, y: int)
    ensures MulP(y, y) == XSide(x) <==> OnCurve(Point(x, y))
  {
    var g := Cube(x) - 3 * x + B;
    CongRefl(y, P);
    IsMul(y, y, y, y);
    XSideMeans(x);
    var l, r := MulP(y, y), XSide(x);
    if l == r {
      CongSym(l, Square(y), P);
      CongTrans(Square(y), l, g, P);
    }
    if OnCurve(Point(x, y)) {
      CongTrans(l, Square(y), g, P);
      CongSym(r, g, P);
      CongTrans(l, g, r, P);
      CongSmall(l, r, P);
    }
  }

  /** uECC_valid_public_key */
  method ValidPublicKey(publicKey: array<Byte>) returns (valid: bool)
    requires publicKey.Length == 64
    ensures var x, y := BigEndian(publicKey[0..32]), BigEndian(publicKey[32..64]);
      valid <==> x < P && y < P && !(x == 0 && y == 0) && OnCurve(Point(x, y))
  {
    var tmp1, tmp2 := new Word[8], new Word[8];
    var x, y := new Word[8], new Word[8];
    VliBytesToNative(x, publicKey, 0);
    VliBytesToNative(y, publicKey, 32);
    EqualSides(V(x), V(y));
    var zero := EccPointIsZero(x, y);
    if zero {
      return false;
    }
    var curveP := CurveP();
    var xSign := VliCmp(curveP, x);
    if xSign != 1 {
      return false;
    }
    var ySign := VliCmp(curveP, y);
    if ySign != 1 {
      return false;
    }
    VliModSquareFast(tmp1, y);
    CurveXSide(tmp2, x);
    var sign := VliCmp(tmp1, tmp2);
    return sign == 0;
  }

  /** The two calls of vli_nativeToBytes. */
  method StorePoint(publicKey: array<Byte>, x: array<Word>, y: array<Word>)
    requires publicKey.Length == 64 && x.Length == 8 && y.Length == 8
    modifies publicKey
    ensures BigEndian(publicKey[0..32]) == V(x) && BigEndian(publicKey[32..64]) == V(y)
  {
    VliNativeToBytes(publicKey, 0, x);
    ghost var upper := publicKey[0..32];
    VliNativeToBytes(publicKey, 32, y);
    assert publicKey[0..32] == upper;
  }

  /** A correct public key is a valid one. */
  lemma CorrectIsValid(k: int, result: Point, mul: int -> Multiple)
    requires IsPrime(P) && BaseMultiples(mul) && CorrectKey(k, true, result, mul)
    ensures ValidKey(result.x, result.y)
  {
    BaseIsCyclic(mul);
    MultipleOnCurve(mul, k);
    var a := mul(k).point;
    OnCurveSame(result, a);
    NotOrigin(result, a);
  }

  lemma AllCorrectAreValid(k: int, ok: bool, result: Point)
    requires forall mul {:trigger BaseMultiples(mul)} :: IsPrime(P) && BaseMultiples(mul) ==> CorrectKey(k, ok, result, mul)
    ensures forall mul {:trigger BaseMultiples(mul)} :: IsPrime(P) && BaseMultiples(mul) ==>
      CorrectKey(k, ok, result, mul) && (ok ==> ValidKey(result.x, result.y))
  {
    forall mul | IsPrime(P) && BaseMultiples(mul) && ok ensures ValidKey(result.x, result.y) {
      CorrectIsValid(k, result, mul);
    }
  }

  /** uECC_compute_public_key: the x coordinate first, then y; correct, and a valid key. */
  method ComputePublicKey(privateKey: array<Byte>, publicKey: array<Byte>) returns (ok: bool)
    requires privateKey.Length == 32 && publicKey.Length == 64
    modifies publicKey
    ensures var k, x, y := old(BigEndian(privateKey[0..32])), BigEndian(publicKey[0..32]), BigEndian(publicKey[32..64]);
      forall mul {:trigger BaseMultiples(mul)} :: IsPrime(P) && BaseMultiples(mul) ==>
        CorrectKey(k, ok, Point(x, y), mul) && (ok ==> ValidKey(x, y))
    ensures !ok ==> publicKey[..] == old(publicKey[..])
  {
    var private, x, y := new Word[8], new Word[8], new Word[8];
    VliBytesToNative(private, privateKey, 0);
    ghost var k := V(private);
    ghost var inverse;
    ok, inverse := EccPointComputePublicKey(x, y, private);
    ghost var point := Point(V(x), V(y));
    if !ok {
      return;
    }
    StorePoint(publicKey, x, y);
    AllCorrectAreValid(k, ok, point);
  }

  /** A key that was computed passes the test. */
  method ComputeThenValidate(privateKey: array<Byte>, publicKey: array<Byte>) returns (ok: bool, valid: bool)
    requires privateKey.Length == 32 && publicKey.Length == 64
    modifies publicKey
    ensures forall mul {:trigger BaseMultiples(mul)} :: IsPrime(P) && BaseMultiples(mul) && ok ==> valid
  {
    ok := ComputePublicKey(privateKey, publicKey);
    valid := ValidPublicKey(publicKey);
  }
}
