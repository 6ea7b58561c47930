/**
 Tracking field operations by integers: `Is(v, g)` says that v is the reduced residue of g.
 The lemmas carry an integer polynomial along with every step of a point formula.
 */
module Field {
  import opened Words
  import opened Vli
  import opened Reduce
  import opened Congruence
  import opened ModInv

  ghost predicate Is(v: int, g: int) {
    0 <= v < P && Cong(v, g, P)
  }

  /**
   x * y by repeated addition. Long derivations speak of products this way, so that the
   solver does no nonlinear arithmetic until `TimesIsProduct` converts the result.
   */
  ghost function Times(x: int, y: int): int
    decreases if y < 0 then -y else y
  {
    if y == 0 then 0 else if y > 0 then Times(x, y - 1) + x else Times(x, y + 1) - x
  }

  lemma {:induction false} TimesOne(x: int, y: int)
    ensures Times(x, y) == x * y
    decreases if y < 0 then -y else y
  {
    if y > 0 {
      TimesOne(x, y - 1);
      assert x * y == x * (y - 1) + x;
    } else if y < 0 {
      TimesOne(x, y + 1);
      assert x * y == x * (y + 1) - x;
    }
  }

  lemma TimesIsProduct()
    ensures forall x, y {:trigger Times(x, y)} :: Times(x, y) == x * y
  {
    forall x, y ensures Times(x, y) == x * y {
      TimesOne(x, y);
    }
  }

  ghost function Square(z: int): int {
    Times(z, z)
  }

  ghost function Cube(z: int): int {
    Times(Times(z, z), z)
  }

  lemma Powers(z: int)
    ensures Square(z) == z * z && Cube(z) == z * z * z
  {
    TimesIsProduct();
  }

  lemma TimesCommute(x: int, y: int)
    ensures Times(x, y) == Times(y, x)
  {
    TimesOne(x, y);
    TimesOne(y, x);
  }

  lemma Residue(v: int, x: int, g: int)
    requires v == x % P && Cong(x, g, P)
    ensures Is(v, g)
  {
    CongMod(x, P);
    CongTrans(v, x, g, P);
  }

  lemma IsItself(v: int)
    requires 0 <= v < P
    ensures Is(v, v)
  {
    CongRefl(v, P);
  }

  lemma IsCong(v: int, g: int, h: int)
    requires Is(v, g) && Cong(g, h, P)
    ensures Is(v, h)
  {
    CongTrans(v, g, h, P);
  }

  lemma IsMul(x: int, y: int, g: int, h: int)
    requires Cong(x, g, P) && Cong(y, h, P)
    ensures Is(MulP(x, y), Times(g, h))
  {
    CongMul(x, y, g, h, P);
    TimesOne(g, h);
    Residue(MulP(x, y), x * y, g * h);
  }

  lemma IsSub(x: int, y: int, g: int, h: int)
    requires Is(x, g) && Is(y, h)
    ensures Is(SubP(x, y), g - h)
  {
    CongSub(x, y, g, h, P);
    Residue(SubP(x, y), x - y, g - h);
  }

  lemma IsAdd(x: int, y: int, g: int, h: int)
    requires Is(x, g) && Is(y, h)
    ensures Is(AddP(x, y), g + h)
  {
    CongAdd(x, y, g, h, P);
    Residue(AddP(x, y), x + y, g + h);
  }

  /** Two congruent doubles have congruent halves, because P is odd. */
  lemma HalfUnique(x: int, y: int)
    requires Cong(2 * x, 2 * y, P)
    ensures Cong(x, y, P)
  {
    assert 2 * x - 2 * y == 2 * (x - y);
    HalveMultiple(P, x - y);
  }

  /** Half of a residue: P is added to an odd one first. */
  function HalfP(x: int): (r: int)
    ensures 2 * r == x || 2 * r == x + P
    ensures 0 <= x < P ==> 0 <= r < P
  {
    if x % 2 == 0 then x / 2 else (x + P) / 2
  }

  /** The modular halving inside `EccPoint_double_jacobian`. */
  method HalveField(a: array<Word>)
    requires a.Length == 8 && V(a) < P
    modifies a
    ensures V(a) == HalfP(old(V(a)))
  {
    ghost var x := V(a);
    ValueBound(a);
    NumParity(a[..]);
    if a[0] % 2 != 0 {
      var curveP := CurveP();
      var carry := Add8(a, a, curveP);
      Halve(a);
      ghost var shifted := a[..];
      a[7] := OrTop(a[7], carry * HIGH_BIT_SET);
      if carry != 0 {
        TopBit(shifted, a[..]);
      } else {
        assert a[..] == shifted;
      }
    } else {
      Halve(a);
    }
  }

  /** The halved value is the residue of any half of the original. */
  lemma IsHalf(x: int, g: int, h: int)
    requires Is(x, g) && Cong(g, 2 * h, P)
    ensures Is(HalfP(x), h)
  {
    var v := HalfP(x);
    Witness(P, 2 * v - x, if 2 * v == x then 0 else 1);
    CongTrans(2 * v, x, g, P);
    CongTrans(2 * v, g, 2 * h, P);
    HalfUnique(v, h);
  }
}
