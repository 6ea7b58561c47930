/** Binary digits of numbers, and `vli_testBit`. */
module Bits {
  import opened Words

  /** n * 2^k */
  function Doubled(n: int, k: nat): int {
    if k == 0 then n else 2 * Doubled(n, k - 1)
  }

  lemma {:induction false} DoubledAgain(n: int, j: nat, k: nat)
    ensures Doubled(Doubled(n, j), k) == Doubled(n, j + k)
  {
    if k > 0 {
      DoubledAgain(n, j, k - 1);
    }
  }

  lemma DoubledSixteen(n: int)
    ensures Doubled(n, 16) == 0x1_0000 * n
  {
    assert Doubled(n, 2) == 2 * Doubled(n, 1);
    assert Doubled(n, 4) == 2 * Doubled(n, 3);
    assert Doubled(n, 6) == 2 * Doubled(n, 5);
    assert Doubled(n, 8) == 2 * Doubled(n, 7);
    assert Doubled(n, 10) == 2 * Doubled(n, 9);
    assert Doubled(n, 12) == 2 * Doubled(n, 11);
    assert Doubled(n, 14) == 2 * Doubled(n, 13);
    assert Doubled(n, 16) == 2 * Doubled(n, 15);
  }

  /** One word is 32 doublings. */
  lemma {:induction false} DoubledByWords(n: int, words: nat)
    ensures Doubled(n, 32 * words) == Shift(n, words)
  {
    if words > 0 {
      DoubledByWords(n, words - 1);
      var x := Shift(n, words - 1);
      DoubledAgain(n, 32 * (words - 1), 32);
      DoubledAgain(x, 16, 16);
      DoubledSixteen(x);
      DoubledSixteen(0x1_0000 * x);
    }
  }

  lemma {:induction false} DoubledBounds(x: int, k: nat)
    requires x >= 0
    ensures Doubled(x, k) >= x
  {
    if k > 0 {
      DoubledBounds(x, k - 1);
    }
  }

  lemma {:induction false} DoubledGrows(j: nat, k: nat)
    requires j <= k
    ensures 0 < Doubled(1, j) <= Doubled(1, k)
  {
    DoubledBounds(1, j);
    if j < k {
      DoubledGrows(j, k - 1);
    }
  }

  lemma {:induction false} DoubledIsProduct(x: int, k: nat)
    ensures Doubled(x, k) == x * Doubled(1, k)
  {
    if k > 0 {
      DoubledIsProduct(x, k - 1);
      assert 2 * (x * Doubled(1, k - 1)) == x * (2 * Doubled(1, k - 1));
    }
  }

  /** x with its k low bits dropped. */
  function Prefix(x: int, k: nat): int {
    if k == 0 then x else Prefix(x, k - 1) / 2
  }

  function Bit(x: int, k: nat): int {
    Prefix(x, k) % 2
  }

  lemma {:induction false} PrefixPrefix(x: int, j: nat, k: nat)
    ensures Prefix(Prefix(x, j), k) == Prefix(x, j + k)
  {
    if k > 0 {
      PrefixPrefix(x, j, k - 1);
    }
  }

  /** Dropping k of n low bits. */
  lemma {:induction false} PrefixOfSum(x: int, y: int, n: nat, k: nat)
    requires k <= n
    ensures Prefix(x + Doubled(y, n), k) == Prefix(x, k) + Doubled(y, n - k)
  {
    if k > 0 {
      PrefixOfSum(x, y, n, k - 1);
      assert Doubled(y, n - (k - 1)) == 2 * Doubled(y, n - k);
    }
  }

  /** A number below 2^k has no more than k bits. */
  lemma {:induction false} PrefixVanishes(x: int, k: nat)
    requires 0 <= x < Doubled(1, k)
    ensures Prefix(x, k) == 0
  {
    if k > 0 {
      PrefixVanishes(x / 2, k - 1);
      PrefixPrefix(x, 1, k - 1);
      assert Prefix(x, 1) == x / 2;
    }
  }

  /** Bits below n do not see what lies n bits up. */
  lemma BitOfSum(x: int, y: int, n: nat, k: nat)
    requires k < n
    ensures Bit(x + Doubled(y, n), k) == Bit(x, k)
  {
    PrefixOfSum(x, y, n, k);
    assert Doubled(y, n - k) == 2 * Doubled(y, n - k - 1);
  }

  /** Bit k of a word array is bit k % 32 of its word k / 32. */
  lemma BitOfWord(s: seq<Word>, k: nat)
    requires k < 32 * |s|
    ensures Bit(Num(s, |s|), k) == Bit(s[k / 32], k % 32)
  {
    var i, j := k / 32, k % 32;
    Split(s, i);
    DoubledByWords(High(s, i), i);
    DoubledByWords(1, i);
    DoubledByWords(High(s, i + 1), 1);
    NumBound(s, i);
    PrefixOfSum(Num(s, i), High(s, i), 32 * i, 32 * i);
    PrefixVanishes(Num(s, i), 32 * i);
    PrefixPrefix(Num(s, |s|), 32 * i, j);
    assert Shift(High(s, i + 1), 1) == W * High(s, i + 1);
    BitOfSum(s[i], High(s, i + 1), 32, j);
  }

  /** Nonzero if bit `bit` of vli is set. */
  method VliTestBit(vli: array<Word>, bit: nat) returns (isSet: bool)
    requires bit < 32 * vli.Length
    ensures isSet <==> Bit(V(vli), bit) == 1
  {
    BitOfWord(vli[..], bit);
    return Bit(vli[bit / 32], bit % 32) != 0;
  }
}
