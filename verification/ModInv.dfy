/**
 Modular inversion by the binary (shift and subtract) Euclidean algorithm: `vli_modInv`.
 */
module ModInv {
  import opened Words
  import opened Vli
  import opened Reduce
  import opened Congruence

  method IsEven(vli: array<Word>) returns (even: bool)
    requires vli.Length == 8
    ensures even <==> V(vli) % 2 == 0
  {
    NumParity(vli[..]);
    return vli[0] % 2 == 0;
  }

  /** Setting the top bit of a number below 2^255 adds 2^255. */
  lemma TopBit(s: seq<Word>, t: seq<Word>)
    requires |s| == 8 && s[7] < HIGH_BIT_SET && t == s[7 := OrTop(s[7], HIGH_BIT_SET)]
    ensures Num(t, 8) == Num(s, 8) + W8 / 2
  {
    NumEight(s);
    NumEight(t);
  }

  /**
   u = u / 2 modulo an odd modulus: adds mod to an odd u, shifts, and puts the carry of the
   addition back as the top bit. `vli_modInv` repeats these statements in each of its branches.
   */
  method HalveModulo(u: array<Word>, mod: array<Word>)
    requires u.Length == 8 && mod.Length == 8 && u != mod
    requires V(u) < V(mod) && V(mod) % 2 == 1
    modifies u
    ensures 2 * V(u) == old(V(u)) || 2 * V(u) == old(V(u)) + V(mod)
    ensures V(u) < V(mod)
  {
    ValueBound(u);
    ValueBound(mod);
    var carry: Word := 0;
    var even := IsEven(u);
    if !even {
      carry := Add8(u, u, mod);
    }
    WholeSegment(u);
    VliRshift1(u, 0);
    WholeSegment(u);
    if carry != 0 {
      ghost var shifted := u[..];
      u[7] := OrTop(u[7], HIGH_BIT_SET);
      TopBit(shifted, u[..]);
    }
  }

  /** u = u - v modulo mod; the carry of the addition and the borrow of the subtraction cancel. */
  method SubtractModulo(u: array<Word>, v: array<Word>, mod: array<Word>)
    requires u.Length == 8 && v.Length == 8 && mod.Length == 8 && u != mod && u != v
    requires V(u) < V(mod) && V(v) < V(mod)
    modifies u
    ensures V(u) == old(V(u)) - V(v) || V(u) == old(V(u)) - V(v) + V(mod)
    ensures V(u) < V(mod)
  {
    ValueBound(u);
    ValueBound(mod);
    var sign := VliCmp(u, v);
    if sign < 0 {
      var _ := Add8(u, u, mod);
    }
    var _ := Sub8(u, u, v);
  }

  /** vli_rshift1 on one whole number. */
  method Halve(vli: array<Word>)
    requires vli.Length == 8
    modifies vli
    ensures V(vli) == old(V(vli)) / 2 && vli[7] < HIGH_BIT_SET
  {
    WholeSegment(vli);
    VliRshift1(vli, 0);
    WholeSegment(vli);
  }

  /** The statements of the branch for an even a (or, with b and v, for an even b). */
  method HalveBranch(a: array<Word>, u: array<Word>, mod: array<Word>)
    requires a.Length == 8 && u.Length == 8 && mod.Length == 8
    requires a != u && a != mod && u != mod
    requires V(a) % 2 == 0 && V(u) < V(mod) && V(mod) % 2 == 1
    modifies a, u
    ensures 2 * V(a) == old(V(a))
    ensures V(u) < V(mod) && (2 * V(u) == old(V(u)) || 2 * V(u) == old(V(u)) + V(mod))
  {
    Halve(a);
    HalveModulo(u, mod);
  }

  /** The statements of the branch for odd a > b (or, with the roles swapped, b > a). */
  method SubtractBranch(a: array<Word>, b: array<Word>, u: array<Word>, v: array<Word>, mod: array<Word>)
    returns (ghost difference: int)
    requires a.Length == 8 && b.Length == 8 && u.Length == 8 && v.Length == 8 && mod.Length == 8
    requires a != b && a != u && a != v && a != mod && b != u && u != v && u != mod
    requires V(a) > V(b) && V(a) % 2 == 1 && V(b) % 2 == 1
    requires V(u) < V(mod) && V(v) < V(mod) && V(mod) % 2 == 1
    modifies a, u
    ensures 2 * V(a) == old(V(a)) - V(b)
    ensures difference == old(V(u)) - V(v) || difference == old(V(u)) - V(v) + V(mod)
    ensures V(u) < V(mod) && (2 * V(u) == difference || 2 * V(u) == difference + V(mod))
  {
    ValueBound(a);
    var _ := Sub8(a, a, b);
    Halve(a);
    SubtractModulo(u, v, mod);
    difference := V(u);
    HalveModulo(u, mod);
  }

  /** a is congruent to u times the input, so their halves are congruent modulo an odd modulus. */
  lemma HalveCong(a: int, u: int, u': int, x: int, m: int)
    requires m % 2 == 1 && Cong(2 * a, u * x, m)
    requires 2 * u' == u || 2 * u' == u + m
    ensures Cong(a, u' * x, m)
  {
    var j := if 2 * u' == u then 0 else 1;
    SelfDivides(m);
    Combine(m, 2 * a - u * x, m, 1, -j * x);
    assert 2 * u' * x == u * x + j * m * x;
    assert 1 * (2 * a - u * x) + (-j * x) * m == 2 * (a - u' * x);
    HalveMultiple(m, a - u' * x);
  }

  lemma SubtractCong(a: int, b: int, u: int, v: int, u': int, x: int, m: int)
    requires Cong(a, u * x, m) && Cong(b, v * x, m)
    requires u' == u - v || u' == u - v + m
    ensures Cong(a - b, u' * x, m)
  {
    var j := if u' == u - v then 0 else 1;
    CongSub(a, b, u * x, v * x, m);
    SelfDivides(m);
    Combine(m, (a - b) - (u * x - v * x), m, 1, -j * x);
    assert u' * x == u * x - v * x + j * m * x;
    assert 1 * ((a - b) - (u * x - v * x)) + (-j * x) * m == (a - b) - u' * x;
  }

  /**
   The state (a, b, u, v) of the algorithm on input x and modulus m: a = u * x and b = v * x
   modulo m, and no common divisor of x and m has been lost or gained.
   */
  ghost predicate State(a: int, b: int, u: int, v: int, x: int, m: int) {
    && a > 0 && b > 0 && (a % 2 == 1 || b % 2 == 1)
    && 0 <= u < m && 0 <= v < m && m % 2 == 1
    && Cong(a, u * x, m) && Cong(b, v * x, m)
    && SameDivisors(a, b, x, m)
  }

  lemma Start(x: int, m: int)
    requires x > 0 && m > 1 && m % 2 == 1
    ensures State(x, m, 1, 0, x, m)
  {
    CongRefl(x, m);
    SelfDivides(m);
  }

  lemma Swap(a: int, b: int, u: int, v: int, x: int, m: int)
    requires State(a, b, u, v, x, m)
    ensures State(b, a, v, u, x, m)
  {
    SwapSame(a, b, x, m);
  }

  /** The branch that halves an even a. */
  lemma HalveStep(a: int, b: int, u: int, v: int, a': int, u': int, x: int, m: int)
    requires State(a, b, u, v, x, m)
    requires a == 2 * a' && 0 <= u' < m && (2 * u' == u || 2 * u' == u + m)
    ensures State(a', b, u', v, x, m)
  {
    HalveCong(a', u, u', x, m);
    HalveSame(a', b, x, m);
  }

  /** The branch that subtracts b from a larger a, both odd, and halves the difference. */
  lemma SubtractStep(a: int, b: int, u: int, v: int, u'': int, a': int, u': int, x: int, m: int)
    requires State(a, b, u, v, x, m) && a > b && b % 2 == 1
    requires a - b == 2 * a'
    requires u'' == u - v || u'' == u - v + m
    requires 0 <= u' < m && (2 * u' == u'' || 2 * u' == u'' + m)
    ensures State(a', b, u', v, x, m)
  {
    SubtractCong(a, b, u, v, u'', x, m);
    HalveCong(a', u'', u', x, m);
    SubtractSame(a, b, x, m);
    HalveSame(a', b, x, m);
  }

  lemma Finish(a: int, u: int, v: int, x: int, m: int)
    requires State(a, a, u, v, x, m)
    ensures forall g :: IsGcd(g, x, m) ==> Cong(u * x, g, m)
  {
    EqualIsGcd(a, x, m);
    CongSym(a, u * x, m);
    forall g | IsGcd(g, x, m)
      ensures g == a
    {
      GcdUnique(g, a, x, m);
    }
  }

  /** The `while` loop of `vli_modInv`: runs until a and b are equal. */
  method EuclidLoop(a: array<Word>, b: array<Word>, u: array<Word>, v: array<Word>, mod: array<Word>, ghost x: int)
    requires a.Length == 8 && b.Length == 8 && u.Length == 8 && v.Length == 8 && mod.Length == 8
    requires a != b && a != u && a != v && a != mod && b != u && b != v && b != mod
    requires u != v && u != mod && v != mod
    requires State(V(a), V(b), V(u), V(v), x, V(mod))
    modifies a, b, u, v
    ensures V(a) == V(b) && State(V(a), V(b), V(u), V(v), x, V(mod))
  {
    ghost var m := V(mod);
    var cmpResult := VliCmp(a, b);
    while cmpResult != 0
      invariant cmpResult == if V(a) > V(b) then 1 else if V(a) < V(b) then -1 else 0
      invariant V(mod) == m
      invariant State(V(a), V(b), V(u), V(v), x, m)
      decreases V(a) + V(b)
    {
      ghost var a0, b0, u0, v0 := V(a), V(b), V(u), V(v);
      var evenA := IsEven(a);
      var evenB := IsEven(b);
      if evenA {
        HalveBranch(a, u, mod);
        HalveStep(a0, b0, u0, v0, V(a), V(u), x, m);
      } else if evenB {
        HalveBranch(b, v, mod);
        Swap(a0, b0, u0, v0, x, m);
        HalveStep(b0, a0, v0, u0, V(b), V(v), x, m);
        Swap(V(b), V(a), V(v), V(u), x, m);
      } else if cmpResult > 0 {
        ghost var u1 := SubtractBranch(a, b, u, v, mod);
        SubtractStep(a0, b0, u0, v0, u1, V(a), V(u), x, m);
      } else {
        ghost var v1 := SubtractBranch(b, a, v, u, mod);
        Swap(a0, b0, u0, v0, x, m);
        SubtractStep(b0, a0, v0, u0, v1, V(b), V(v), x, m);
        Swap(V(b), V(a), V(v), V(u), x, m);
      }
      cmpResult := VliCmp(a, b);
    }
  }

  /**
   result * input is congruent to gcd(input, mod): the inverse when they are coprime.
   Zero yields zero. The result may overwrite the input.
   */
  method VliModInv(result: array<Word>, input: array<Word>, mod: array<Word>)
    requires result.Length == 8 && input.Length == 8 && mod.Length == 8
    requires V(mod) > 1 && V(mod) % 2 == 1
    modifies result
    ensures old(V(input)) == 0 ==> V(result) == 0
    ensures old(V(input)) != 0 ==> V(result) < old(V(mod))
    ensures old(V(input)) != 0 ==>
      forall g :: IsGcd(g, old(V(input)), old(V(mod))) ==> Cong(V(result) * old(V(input)), g, old(V(mod)))
  {
    ghost var x, m := V(input), V(mod);
    var zero := VliIsZero(input);
    if zero {
      VliZero(result);
      return;
    }
    var a, b, u, v := new Word[8], new Word[8], new Word[8], new Word[8];
    VliCopy(a, input);
    VliCopy(b, mod);
    VliZero(u);
    SetOne(u);
    VliZero(v);
    Start(x, m);
    EuclidLoop(a, b, u, v, mod, x);
    Finish(V(a), V(u), V(v), x, m);
    VliCopy(result, u);
  }

  method SetOne(u: array<Word>)
    requires u.Length == 8 && V(u) == 0
    modifies u
    ensures V(u) == 1
  {
    NumZero(u[..], 8);
    u[0] := 1;
    NumEight(u[..]);
  }
}
