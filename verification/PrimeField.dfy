/** Residues modulo a prime: every nonzero residue has an inverse, and there are no zero divisors. */
module PrimeField {
  import opened Congruence

  ghost predicate IsPrime(p: int) {
    p > 1 && forall d :: 0 < d < p && Divides(d, p) ==> d == 1
  }

  ghost predicate NonZero(x: int, p: int) {
    !Cong(x, 0, p)
  }

  /** Euclid's algorithm with its coefficients. */
  lemma {:induction false} Bezout(x: int, y: int) returns (g: int, i: int, j: int)
    requires x >= 0 && y > 0
    ensures IsGcd(g, x, y) && g == i * x + j * y
    decreases x
  {
    if x == 0 {
      g, i, j := y, 0, 1;
      SelfDivides(y);
      Witness(y, 0, 0);
      assert Common(y, x, y);
    } else {
      var q, r := y / x, y % x;
      var i', j';
      g, i', j' := Bezout(r, x);
      assert r == y - q * x;
      assert i' * (y - q * x) + j' * x == (j' - i' * q) * x + i' * y;
      i, j := j' - i' * q, i';
      forall d ensures Common(d, r, x) <==> Common(d, x, y) {
        RemainderDivisors(d, x, y, q);
      }
    }
  }

  lemma RemainderDivisors(d: int, x: int, y: int, q: int)
    ensures Common(d, y - q * x, x) <==> Common(d, x, y)
  {
    if Common(d, y - q * x, x) {
      Combine(d, y - q * x, x, 1, q);
    }
    if Common(d, x, y) {
      Combine(d, y, x, 1, -q);
    }
  }

  lemma CoprimeToPrime(x: int, p: int)
    requires IsPrime(p) && NonZero(x, p)
    ensures Coprime(x, p)
  {
    Witness(1, x, x);
    Witness(1, p, p);
    forall d | Common(d, x, p) ensures Divides(d, 1) {
      var k :| p == k * d;
      var e, m := if d > 0 then d else -d, if d > 0 then k else -k;
      assert p == m * e;
      Witness(e, p, m);
      DivisorBound(e, p) by { assert e > 0; }
      if e == p {
        Combine(d, x, x, if d > 0 then 1 else -1, 0);
        var l :| x == l * d;
        Witness(p, x - 0, if d > 0 then l else -l);
        assert false;
      }
      Witness(d, 1, d);
    }
  }

  /** An inverse of a nonzero residue. */
  lemma Inverse(x: int, p: int) returns (u: int)
    requires IsPrime(p) && NonZero(x, p)
    ensures Cong(u * x, 1, p)
  {
    var r := x % p;
    CongMod(x, p);
    var g, i, j := Bezout(r, p);
    if Cong(r, 0, p) {
      CongSym(r, x, p);
      CongTrans(x, r, 0, p);
    }
    CoprimeToPrime(r, p);
    GcdUnique(1, g, r, p);
    u := i;
    Witness(p, i * r - 1, -j);
    CongRefl(i, p);
    CongSym(r, x, p);
    CongMul(i, x, i, r, p);
    CongTrans(i * x, i * r, 1, p);
  }

  /** No zero divisors. */
  lemma NonZeroProduct(x: int, y: int, p: int)
    requires IsPrime(p) && NonZero(x, p) && NonZero(y, p)
    ensures NonZero(x * y, p)
  {
    if Cong(x * y, 0, p) {
      var u := Inverse(x, p);
      CongRefl(u, p);
      CongRefl(y, p);
      CongMul(u, x * y, u, 0, p);
      CongMul(u * x, y, 1, y, p);
      assert u * (x * y) == u * x * y;
      CongSym(u * x * y, 1 * y, p);
      CongTrans(y, u * x * y, 0, p);
    }
  }

  lemma NonZeroDifference(x: int, y: int, p: int)
    requires !Cong(x, y, p)
    ensures NonZero(x - y, p)
  {
  }

  lemma NonZeroCong(x: int, y: int, p: int)
    requires Cong(x, y, p) && NonZero(y, p)
    ensures NonZero(x, p)
  {
    CongSym(x, y, p);
    if Cong(x, 0, p) {
      CongTrans(y, x, 0, p);
    }
  }
}
