/** Divisibility, greatest common divisors and congruences, with explicit quotients. */
module Congruence {

  ghost predicate Divides(d: int, a: int) {
    exists k: int :: a == k * d
  }

  /** x and y leave the same residue modulo m. */
  ghost predicate Cong(x: int, y: int, m: int) {
    Divides(m, x - y)
  }

  ghost predicate Common(d: int, x: int, y: int) {
    Divides(d, x) && Divides(d, y)
  }

  ghost predicate IsGcd(g: int, x: int, y: int) {
    && g > 0
    && Common(g, x, y)
    && forall d {:trigger Common(d, x, y)} :: Common(d, x, y) ==> Divides(d, g)
  }

  ghost predicate Coprime(x: int, y: int) {
    IsGcd(1, x, y)
  }

  /** (a, b) and (x, y) have the same common divisors. */
  ghost predicate SameDivisors(a: int, b: int, x: int, y: int) {
    forall d :: Common(d, a, b) <==> Common(d, x, y)
  }

  lemma Witness(d: int, a: int, k: int)
    requires a == k * d
    ensures Divides(d, a)
  {
  }

  /** Any integer combination of multiples of d is a multiple of d. */
  lemma Combine(d: int, a: int, b: int, i: int, j: int)
    requires Divides(d, a) && Divides(d, b)
    ensures Divides(d, i * a + j * b)
  {
    var k :| a == k * d;
    var l :| b == l * d;
    assert i * (k * d) == (i * k) * d && j * (l * d) == (j * l) * d;
    Collect(i * k, j * l, d);
    Witness(d, i * a + j * b, i * k + j * l);
  }

  lemma Collect(x: int, y: int, d: int)
    ensures x * d + y * d == (x + y) * d
  {
  }

  lemma OddProduct(k: int, d: int)
    requires d % 2 == 1
    ensures (k * d) % 2 == k % 2
  {
    var h := d / 2;
    assert k * d == 2 * (k * h) + k by {
      assert d == 2 * h + 1;
    }
  }

  lemma EvenProduct(k: int, d: int)
    requires d % 2 == 0
    ensures (k * d) % 2 == 0
  {
    var h := d / 2;
    assert k * d == 2 * (k * h);
  }

  lemma DivisorOfOdd(d: int, b: int)
    requires Divides(d, b) && b % 2 == 1
    ensures d % 2 == 1
  {
    var k :| b == k * d;
    if d % 2 == 0 {
      EvenProduct(k, d);
    }
  }

  /** An odd divisor of 2a divides a. */
  lemma HalveMultiple(d: int, a: int)
    requires d % 2 == 1 && Divides(d, 2 * a)
    ensures Divides(d, a)
  {
    var k :| 2 * a == k * d;
    OddProduct(k, d);
    var h := k / 2;
    assert k == 2 * h;
    assert 2 * a == 2 * (h * d);
    Witness(d, a, h);
  }

  lemma SelfDivides(d: int)
    ensures Divides(d, d)
  {
    Witness(d, d, 1);
  }

  lemma HalveSame(a: int, b: int, x: int, y: int)
    requires SameDivisors(2 * a, b, x, y) && b % 2 == 1
    ensures SameDivisors(a, b, x, y)
  {
    forall d ensures Common(d, a, b) <==> Common(d, 2 * a, b) {
      if Divides(d, b) {
        DivisorOfOdd(d, b);
        if Divides(d, a) {
          Combine(d, a, a, 1, 1);
        }
        if Divides(d, 2 * a) {
          HalveMultiple(d, a);
        }
      }
    }
  }

  lemma SubtractSame(a: int, b: int, x: int, y: int)
    requires SameDivisors(a, b, x, y)
    ensures SameDivisors(a - b, b, x, y)
  {
    forall d ensures Common(d, a - b, b) <==> Common(d, a, b) {
      if Divides(d, b) {
        if Divides(d, a) {
          Combine(d, a, b, 1, -1);
        }
        if Divides(d, a - b) {
          Combine(d, a - b, b, 1, 1);
        }
      }
    }
  }

  /** When the subtractive algorithm has made both numbers equal, they are the gcd. */
  lemma EqualIsGcd(a: int, x: int, y: int)
    requires a > 0 && SameDivisors(a, a, x, y)
    ensures IsGcd(a, x, y)
  {
    SelfDivides(a);
    assert Common(a, a, a);
  }

  lemma SwapSame(a: int, b: int, x: int, y: int)
    requires SameDivisors(a, b, x, y)
    ensures SameDivisors(b, a, x, y)
  {
    forall d ensures Common(d, b, a) <==> Common(d, a, b) {
    }
  }

  lemma GcdUnique(g: int, h: int, x: int, y: int)
    requires IsGcd(g, x, y) && IsGcd(h, x, y)
    ensures g == h
  {
    DivisorBound(g, h);
    DivisorBound(h, g);
  }

  lemma DivisorBound(d: int, a: int)
    requires Divides(d, a) && d > 0 && a > 0
    ensures d <= a
  {
    var k :| a == k * d;
    assert k >= 1;
  }

  // ----- Congruences -----

  /** Quotient and remainder are unique. */
  lemma ModUnique(x: int, q: int, r: int, m: int)
    requires 0 <= r < m && x == q * m + r
    ensures x % m == r
  {
    var d := x / m - q;
    assert d * m == r - x % m;
    AtLeastOnce(d, m);
    AtLeastOnce(-d, m);
  }

  lemma AtLeastOnce(d: int, m: int)
    requires m > 0
    ensures d > 0 ==> d * m >= m
  {
  }

  lemma CongRefl(x: int, m: int)
    ensures Cong(x, x, m)
  {
    Witness(m, x - x, 0);
  }

  lemma CongMod(x: int, m: int)
    requires m > 0
    ensures Cong(x % m, x, m)
  {
    Witness(m, x % m - x, -(x / m));
  }

  lemma CongSym(x: int, y: int, m: int)
    requires Cong(x, y, m)
    ensures Cong(y, x, m)
  {
    Combine(m, x - y, x - y, -1, 0);
  }

  lemma CongTrans(x: int, y: int, z: int, m: int)
    requires Cong(x, y, m) && Cong(y, z, m)
    ensures Cong(x, z, m)
  {
    Combine(m, x - y, y - z, 1, 1);
  }

  lemma CongAdd(x: int, y: int, a: int, b: int, m: int)
    requires Cong(x, a, m) && Cong(y, b, m)
    ensures Cong(x + y, a + b, m)
  {
    Combine(m, x - a, y - b, 1, 1);
  }

  lemma CongSub(x: int, y: int, a: int, b: int, m: int)
    requires Cong(x, a, m) && Cong(y, b, m)
    ensures Cong(x - y, a - b, m)
  {
    Combine(m, x - a, y - b, 1, -1);
  }

  lemma CongMul(x: int, y: int, a: int, b: int, m: int)
    requires Cong(x, a, m) && Cong(y, b, m)
    ensures Cong(x * y, a * b, m)
  {
    Combine(m, x - a, y - b, y, a);
    assert y * (x - a) + a * (y - b) == x * y - a * b;
  }

  /** Congruent residues are equal. */
  lemma CongSmall(x: int, y: int, m: int)
    requires Cong(x, y, m) && 0 <= x < m && 0 <= y < m
    ensures x == y
  {
    var k :| x - y == k * m;
    AtLeastOnce(k, m);
    AtLeastOnce(-k, m);
  }

  lemma CongIffMod(x: int, y: int, m: int)
    requires m > 0
    ensures Cong(x, y, m) <==> x % m == y % m
  {
    CongMod(x, m);
    CongMod(y, m);
    if Cong(x, y, m) {
      CongTrans(x % m, x, y, m);
      CongSym(y % m, y, m);
      CongTrans(x % m, y, y % m, m);
      CongSmall(x % m, y % m, m);
    }
    if x % m == y % m {
      CongSym(x % m, x, m);
      CongTrans(x, x % m, y, m);
    }
  }
}
