/**
 Polynomials over the field of two elements, written as numbers: bit i is the coefficient of x^i.
 Addition is exclusive or, multiplication has no carries, and division leaves a remainder.
 */
module BinaryPolynomials {
  import opened Bits

  /** Exclusive or, digit by digit. */
  function Sum(a: nat, b: nat): nat {
    if a == 0 && b == 0 then 0
    else 2 * Sum(a / 2, b / 2) + if a % 2 != b % 2 then 1 else 0
  }

  /** The sum of the shifts of g by the digits of q. */
  function Product(q: nat, g: nat): nat {
    if q == 0 then 0 else Sum(2 * Product(q / 2, g), if q % 2 == 1 then g else 0)
  }

  /** Dividing m by g may leave r. */
  ghost predicate Leaves(m: nat, g: nat, r: nat) {
    exists q: nat :: Sum(Product(q, g), r) == m
  }

  // ----- The sum -----

  lemma SumHalf(a: nat, b: nat)
    ensures Sum(a, b) / 2 == Sum(a / 2, b / 2)
    ensures Sum(a, b) % 2 == if a % 2 != b % 2 then 1 else 0
  {
  }

  lemma {:induction false} SumDigit(a: nat, b: nat, i: nat)
    ensures Bit(Sum(a, b), i) == if Bit(a, i) != Bit(b, i) then 1 else 0
    decreases i
  {
    SumHalf(a, b);
    if i > 0 {
      SumDigit(a / 2, b / 2, i - 1);
      HalfPrefix(a, i - 1);
      HalfPrefix(b, i - 1);
      HalfPrefix(Sum(a, b), i - 1);
    }
  }

  lemma HalfPrefix(x: int, i: nat)
    ensures Prefix(x, i + 1) == Prefix(x / 2, i)
  {
    PrefixPrefix(x, 1, i);
    assert Prefix(x, 1) == Prefix(x, 0) / 2;
  }

  lemma {:induction false} SumCommutes(a: nat, b: nat)
    ensures Sum(a, b) == Sum(b, a)
  {
    if a != 0 || b != 0 {
      SumCommutes(a / 2, b / 2);
    }
  }

  lemma {:induction false} SumAssociates(a: nat, b: nat, c: nat)
    ensures Sum(Sum(a, b), c) == Sum(a, Sum(b, c))
    decreases a + b + c
  {
    if a != 0 || b != 0 || c != 0 {
      SumAssociates(a / 2, b / 2, c / 2);
      SumHalf(a, b);
      SumHalf(b, c);
      SumHalf(Sum(a, b), c);
      SumHalf(a, Sum(b, c));
    }
  }

  lemma {:induction false} SumZero(a: nat)
    ensures Sum(a, 0) == a == Sum(0, a) && Sum(a, a) == 0
  {
    if a != 0 {
      SumZero(a / 2);
    }
  }

  /** Nothing carries. */
  lemma {:induction false} SumBelow(a: nat, b: nat, k: nat)
    requires a < Doubled(1, k) && b < Doubled(1, k)
    ensures Sum(a, b) < Doubled(1, k)
    decreases k
  {
    if k > 0 {
      SumBelow(a / 2, b / 2, k - 1);
      SumHalf(a, b);
    }
  }

  /** The lower summand leaves the top digit in place. */
  lemma {:induction false} SumTop(a: nat, b: nat, k: nat)
    requires Doubled(1, k) <= a < Doubled(1, k + 1) && b < Doubled(1, k)
    ensures Doubled(1, k) <= Sum(a, b) < Doubled(1, k + 1)
    decreases k
  {
    SumHalf(a, b);
    if k > 0 {
      SumTop(a / 2, b / 2, k - 1);
    } else {
      SumZero(a);
    }
  }

  /** Digits that do not meet are added. */
  lemma {:induction false} SumDisjoint(a: nat, b: nat, k: nat, c: nat)
    requires b < Doubled(1, k) && c == Doubled(a, k)
    ensures Sum(c, b) == c + b
    decreases k
  {
    if k == 0 {
      SumZero(a);
    } else {
      SumDisjoint(a, b / 2, k - 1, c / 2);
      SumHalf(c, b);
    }
  }

  lemma SumDoubled(a: nat, b: nat)
    ensures Sum(2 * a, 2 * b) == 2 * Sum(a, b)
  {
    SumHalf(2 * a, 2 * b);
  }

  // ----- The remainder is unique -----

  lemma {:induction false} SizeOf(q: nat) returns (d: nat)
    requires q > 0
    ensures Doubled(1, d) <= q < Doubled(1, d + 1)
  {
    if q == 1 {
      d := 0;
    } else {
      d := SizeOf(q / 2);
      d := d + 1;
    }
  }

  /** Degrees add up. */
  lemma {:induction false} ProductSize(q: nat, g: nat, d: nat, k: nat)
    requires Doubled(1, d) <= q < Doubled(1, d + 1) && Doubled(1, k) <= g < Doubled(1, k + 1)
    ensures Doubled(1, d + k) <= Product(q, g) < Doubled(1, d + k + 1)
    decreases d
  {
    SumZero(g);
    if d == 0 {
      assert Product(1, g) == Sum(2 * Product(0, g), g);
    } else {
      ProductSize(q / 2, g, d - 1, k);
      var y := if q % 2 == 1 then g else 0;
      DoubledGrows(k + 1, d + k);
      SumTop(2 * Product(q / 2, g), y, d + k);
    }
  }

  lemma {:induction false} ProductDistributes(p: nat, q: nat, g: nat)
    ensures Product(Sum(p, q), g) == Sum(Product(p, g), Product(q, g))
    decreases p + q
  {
    if p == 0 && q == 0 {
    } else {
      ProductDistributes(p / 2, q / 2, g);
      SumHalf(p, q);
      var x, y := Product(p / 2, g), Product(q / 2, g);
      var i, j := if p % 2 == 1 then g else 0, if q % 2 == 1 then g else 0;
      ProductStep(p, g);
      ProductStep(q, g);
      ProductStep(Sum(p, q), g);
      SumDoubled(x, y);
      SumZero(g);
      assert Sum(i, j) == if Sum(p, q) % 2 == 1 then g else 0;
      Interchange(2 * x, 2 * y, i, j);
    }
  }

  lemma ProductStep(q: nat, g: nat)
    ensures Product(q, g) == Sum(2 * Product(q / 2, g), if q % 2 == 1 then g else 0)
  {
  }

  lemma Interchange(a: nat, b: nat, c: nat, d: nat)
    ensures Sum(Sum(a, b), Sum(c, d)) == Sum(Sum(a, c), Sum(b, d))
  {
    SumAssociates(a, b, Sum(c, d));
    SumAssociates(b, c, d);
    SumCommutes(b, c);
    SumAssociates(c, b, d);
    SumAssociates(a, c, Sum(b, d));
  }

  /** Below the size of g there is only one remainder. */
  lemma LeavesOne(m: nat, g: nat, r: nat, s: nat, k: nat)
    requires Doubled(1, k) <= g < Doubled(1, k + 1) && r < Doubled(1, k) && s < Doubled(1, k)
    requires Leaves(m, g, r) && Leaves(m, g, s)
    ensures r == s
  {
    var p: nat :| Sum(Product(p, g), r) == m;
    var q: nat :| Sum(Product(q, g), s) == m;
    var x, y, d := Product(p, g), Product(q, g), Sum(p, q);
    // m + m = 0, so (p + q) g = r + s
    SumZero(m);
    Interchange(x, r, y, s);
    ProductDistributes(p, q, g);
    SumBelow(r, s, k);
    EqualIfSumZero(Product(d, g), Sum(r, s));
    if d > 0 {
      var n := SizeOf(d);
      ProductSize(d, g, n, k);
      DoubledGrows(k, n + k);
      assert false;
    }
    EqualIfSumZero(r, s);
  }

  lemma EqualIfSumZero(a: nat, b: nat)
    requires Sum(a, b) == 0
    ensures a == b
  {
    SumAssociates(a, b, b);
    SumZero(b);
    SumZero(a);
  }
}
