/**
 The meaning of a word array: a little-endian number in base 2^32.

 C's `uint32_t` is the subset type `Word`; every place where the C code relies on
 wrap-around is written out with `% W`. Scaling by powers of W is kept linear: `Shift`
 multiplies by the literal W, once per word.
 */
module Words {

  const W: int := 0x1_0000_0000
  const HIGH_BIT_SET: int := 0x8000_0000

  type Word = x: int | 0 <= x < 0x1_0000_0000

  /** x * W^n */
  function Shift(x: int, n: nat): int {
    if n == 0 then x else W * Shift(x, n - 1)
  }

  /** W^n */
  function Pow(n: nat): int {
    Shift(1, n)
  }

  /** The number denoted by the n low words of s. */
  function Num(s: seq<Word>, n: nat): int
    requires n <= |s|
  {
    if n == 0 then 0 else Num(s, n - 1) + Shift(s[n - 1], n - 1)
  }

  /** The number denoted by the words of s from i upwards, scaled down by W^i. */
  function High(s: seq<Word>, i: nat): int
    requires i <= |s|
    decreases |s| - i
  {
    if i == |s| then 0 else s[i] + W * High(s, i + 1)
  }

  /** The number held by a whole array. */
  ghost function V(a: array<Word>): nat
    reads a
  {
    NumBound(a[..], a.Length);
    Num(a[..], a.Length)
  }

  // ----- Shift -----

  lemma {:induction false} ShiftAdd(x: int, y: int, n: nat)
    ensures Shift(x + y, n) == Shift(x, n) + Shift(y, n)
  {
    if n > 0 {
      ShiftAdd(x, y, n - 1);
    }
  }

  lemma {:induction false} ShiftMonotone(x: int, y: int, n: nat)
    requires x <= y
    ensures Shift(x, n) <= Shift(y, n)
    ensures x < y ==> Shift(x, n) < Shift(y, n)
  {
    if n > 0 {
      ShiftMonotone(x, y, n - 1);
    }
  }

  lemma {:induction false} ShiftZero(n: nat)
    ensures Shift(0, n) == 0
  {
    if n > 0 {
      ShiftZero(n - 1);
    }
  }

  lemma {:induction false} ShiftIn(x: int, n: nat)
    ensures Shift(W * x, n) == Shift(x, n + 1)
  {
    if n > 0 {
      ShiftIn(x, n - 1);
    }
  }

  lemma {:induction false} ShiftShift(x: int, m: nat, n: nat)
    ensures Shift(Shift(x, m), n) == Shift(x, m + n)
  {
    if n > 0 {
      ShiftShift(x, m, n - 1);
    }
  }

  lemma {:induction false} ShiftIsProduct(x: int, n: nat)
    ensures Shift(x, n) == x * Pow(n)
  {
    if n > 0 {
      ShiftIsProduct(x, n - 1);
      assert W * (x * Pow(n - 1)) == x * (W * Pow(n - 1));
    }
  }

  // ----- Num -----

  lemma {:induction false} NumFrame(s: seq<Word>, t: seq<Word>, n: nat)
    requires n <= |s| && n <= |t|
    requires forall k :: 0 <= k < n ==> s[k] == t[k]
    ensures Num(s, n) == Num(t, n)
  {
    if n > 0 {
      NumFrame(s, t, n - 1);
    }
  }

  /** Words in range keep the number in range. */
  lemma {:induction false} NumBound(s: seq<Word>, n: nat)
    requires n <= |s|
    ensures 0 <= Num(s, n) < Pow(n)
  {
    if n > 0 {
      NumBound(s, n - 1);
      var w: int := s[n - 1];
      ShiftZero(n - 1);
      ShiftMonotone(0, w, n - 1);
      ShiftAdd(w, 1, n - 1);
      ShiftMonotone(w + 1, W, n - 1);
      ShiftIn(1, n - 1);
    }
  }

  /** Splitting a number at word n. */
  lemma {:induction false} Split(s: seq<Word>, n: nat)
    requires n <= |s|
    ensures Num(s, |s|) == Num(s, n) + Shift(High(s, n), n)
    decreases |s| - n
  {
    if n == |s| {
      ShiftZero(n);
    } else {
      Split(s, n + 1);
      ShiftIn(High(s, n + 1), n);
      ShiftAdd(s[n], W * High(s, n + 1), n);
    }
  }

  lemma HighIsNum(s: seq<Word>)
    ensures High(s, 0) == Num(s, |s|)
  {
    Split(s, 0);
  }

  /** The most significant differing word decides the order. */
  lemma {:induction false} TopWordDecides(s: seq<Word>, t: seq<Word>, i: nat, n: nat)
    requires i < n <= |s| && n <= |t|
    requires s[i] < t[i]
    requires forall k :: i < k < n ==> s[k] == t[k]
    ensures Num(s, n) < Num(t, n)
  {
    if n == i + 1 {
      NumBound(s, i);
      NumBound(t, i);
      ShiftAdd(s[i], 1, i);
      ShiftMonotone(s[i] + 1, t[i], i);
    } else {
      TopWordDecides(s, t, i, n - 1);
    }
  }

  /** The representation is unique: arrays that denote the same number hold the same words. */
  lemma {:induction false} NumInjective(s: seq<Word>, t: seq<Word>, n: nat)
    requires n <= |s| && n <= |t|
    requires Num(s, n) == Num(t, n)
    ensures forall k :: 0 <= k < n ==> s[k] == t[k]
  {
    if n > 0 {
      if s[n - 1] < t[n - 1] {
        TopWordDecides(s, t, n - 1, n);
      } else if t[n - 1] < s[n - 1] {
        TopWordDecides(t, s, n - 1, n);
      }
      NumInjective(s, t, n - 1);
    }
  }

  lemma {:induction false} NumZero(s: seq<Word>, n: nat)
    requires n <= |s|
    ensures Num(s, n) == 0 <==> forall k :: 0 <= k < n ==> s[k] == 0
  {
    if n > 0 {
      NumZero(s, n - 1);
      NumBound(s, n - 1);
      ShiftZero(n - 1);
      ShiftMonotone(0, s[n - 1], n - 1);
    }
  }

  // ----- Literals -----

  const W2: int := 0x1_00000000_00000000
  const W3: int := 0x1_00000000_00000000_00000000
  const W4: int := 0x1_00000000_00000000_00000000_00000000
  const W5: int := 0x1_00000000_00000000_00000000_00000000_00000000
  const W6: int := 0x1_00000000_00000000_00000000_00000000_00000000_00000000
  const W7: int := 0x1_00000000_00000000_00000000_00000000_00000000_00000000_00000000
  const W8: int := 0x1_00000000_00000000_00000000_00000000_00000000_00000000_00000000_00000000

  lemma ShiftLiterals(x: int)
    ensures Shift(x, 0) == x && Shift(x, 1) == W * x && Shift(x, 2) == W2 * x && Shift(x, 3) == W3 * x
    ensures Shift(x, 4) == W4 * x && Shift(x, 5) == W5 * x && Shift(x, 6) == W6 * x
    ensures Shift(x, 7) == W7 * x && Shift(x, 8) == W8 * x
  {
    assert Shift(x, 2) == W * Shift(x, 1);
    assert Shift(x, 4) == W * Shift(x, 3);
    assert Shift(x, 6) == W * Shift(x, 5);
    assert Shift(x, 8) == W * Shift(x, 7);
  }

  lemma PowEight()
    ensures Pow(8) == W8
  {
    ShiftLiterals(1);
  }

  /** Eight words, spelled out. */
  lemma NumEight(s: seq<Word>)
    requires |s| >= 8
    ensures Num(s, 8) == s[0] + W * s[1] + W2 * s[2] + W3 * s[3]
                         + W4 * s[4] + W5 * s[5] + W6 * s[6] + W7 * s[7]
  {
    forall k | 0 <= k < 8 {
      ShiftLiterals(s[k]);
    }
    assert Num(s, 1) == s[0];
    assert Num(s, 2) == Num(s, 1) + W * s[1];
    assert Num(s, 3) == Num(s, 2) + W2 * s[2];
    assert Num(s, 4) == Num(s, 3) + W3 * s[3];
    assert Num(s, 5) == Num(s, 4) + W4 * s[4];
    assert Num(s, 6) == Num(s, 5) + W5 * s[5];
    assert Num(s, 7) == Num(s, 6) + W6 * s[6];
    assert Num(s, 8) == Num(s, 7) + W7 * s[7];
  }

  lemma NumParity(s: seq<Word>)
    requires |s| >= 8
    ensures Num(s, 8) % 2 == s[0] % 2
  {
    NumEight(s);
    var half: int := W / 2 * s[1] + W2 / 2 * s[2] + W3 / 2 * s[3] + W4 / 2 * s[4]
                     + W5 / 2 * s[5] + W6 / 2 * s[6] + W7 / 2 * s[7];
    assert Num(s, 8) == s[0] + 2 * half;
  }
}
