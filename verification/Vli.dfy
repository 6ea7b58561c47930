/**
 The word loops of uECC.c: clear, test, set, compare, shift, add, subtract.

 A C pointer into the middle of an array (`vli + uECC_WORDS`) is an array and an offset.
 `VliSub` runs over the length of its operands: 8 words for `vli_sub`, 16 for `vli2_sub`.
 Operands may alias the result wherever the C code lets them.
 */
module Vli {
  import opened Words

  /** The number in the eight words that start at off. */
  ghost function Segment(a: array<Word>, off: nat): int
    requires off + 8 <= a.Length
    reads a
  {
    Num(a[off..off + 8], 8)
  }

  lemma WholeSegment(a: array<Word>)
    requires a.Length == 8
    ensures Segment(a, 0) == V(a)
  {
    assert a[0..8] == a[..];
  }

  method VliClear(vli: array<Word>, off: nat)
    requires off + 8 <= vli.Length
    modifies vli
    ensures forall k :: off <= k < off + 8 ==> vli[k] == 0
    ensures forall k :: 0 <= k < vli.Length && !(off <= k < off + 8) ==> vli[k] == old(vli[k])
    ensures Segment(vli, off) == 0
  {
    var i := 0;
    while i < 8
      invariant 0 <= i <= 8
      invariant forall k :: off <= k < off + i ==> vli[k] == 0
      invariant forall k :: 0 <= k < vli.Length && !(off <= k < off + 8) ==> vli[k] == old(vli[k])
    {
      vli[off + i] := 0;
      i := i + 1;
    }
    NumZero(vli[off..off + 8], 8);
  }

  /** vli_clear on one whole number. */
  method VliZero(vli: array<Word>)
    requires vli.Length == 8
    modifies vli
    ensures V(vli) == 0
  {
    VliClear(vli, 0);
    WholeSegment(vli);
  }

  method VliIsZero(vli: array<Word>) returns (zero: bool)
    requires vli.Length == 8
    ensures zero <==> V(vli) == 0
  {
    NumZero(vli[..], 8);
    var i := 0;
    while i < 8
      invariant 0 <= i <= 8
      invariant forall k :: 0 <= k < i ==> vli[k] == 0
    {
      if vli[i] != 0 {
        assert vli[..][i] != 0;
        return false;
      }
      i := i + 1;
    }
    return true;
  }

  method VliSet(dest: array<Word>, off: nat, src: array<Word>)
    requires off + 8 <= dest.Length && 8 <= src.Length
    requires dest != src
    modifies dest
    ensures forall k :: 0 <= k < 8 ==> dest[off + k] == src[k]
    ensures forall k :: 0 <= k < dest.Length && !(off <= k < off + 8) ==> dest[k] == old(dest[k])
    ensures Segment(dest, off) == Segment(src, 0)
  {
    var i := 0;
    while i < 8
      invariant 0 <= i <= 8
      invariant forall k :: 0 <= k < i ==> dest[off + k] == src[k]
      invariant forall k :: 0 <= k < dest.Length && !(off <= k < off + 8) ==> dest[k] == old(dest[k])
    {
      dest[off + i] := src[i];
      i := i + 1;
    }
    NumFrame(dest[off..off + 8], src[0..8], 8);
  }

  /** vli_set on two whole numbers. */
  method VliCopy(dest: array<Word>, src: array<Word>)
    requires dest.Length == 8 && src.Length == 8
    requires dest != src
    modifies dest
    ensures V(dest) == V(src)
  {
    VliSet(dest, 0, src);
    WholeSegment(dest);
    WholeSegment(src);
  }

  /** 1, 0 or -1: the sign of left - right. */
  method VliCmp(left: array<Word>, right: array<Word>) returns (sign: int)
    requires left.Length == 8 && right.Length == 8
    ensures sign == if V(left) > V(right) then 1 else if V(left) < V(right) then -1 else 0
  {
    var i := 7;
    while i >= 0
      invariant -1 <= i <= 7
      invariant forall k :: i < k < 8 ==> left[k] == right[k]
    {
      if left[i] > right[i] {
        TopWordDecides(right[..], left[..], i, 8);
        return 1;
      } else if left[i] < right[i] {
        TopWordDecides(left[..], right[..], i, 8);
        return -1;
      }
      i := i - 1;
    }
    NumFrame(left[..], right[..], 8);
    return 0;
  }

  /** `w | top` for a word whose other operand is 0 or the high bit. */
  function OrTop(w: Word, top: Word): Word
    requires top == 0 || top == HIGH_BIT_SET
  {
    if top == 0 || w >= HIGH_BIT_SET then w else w + HIGH_BIT_SET
  }

  lemma {:induction false} HighFrame(s: seq<Word>, t: seq<Word>, i: nat)
    requires i <= |s| == |t|
    requires forall k :: i <= k < |s| ==> s[k] == t[k]
    ensures High(s, i) == High(t, i)
    decreases |s| - i
  {
    if i < |s| {
      HighFrame(s, t, i + 1);
    }
  }

  method VliRshift1(vli: array<Word>, off: nat)
    requires off + 8 <= vli.Length
    modifies vli
    ensures Segment(vli, off) == old(Segment(vli, off)) / 2
    ensures vli[off + 7] < HIGH_BIT_SET
    ensures forall k :: 0 <= k < vli.Length && !(off <= k < off + 8) ==> vli[k] == old(vli[k])
  {
    ghost var s := vli[off..off + 8];
    ghost var t := s;
    var carry: Word := 0;
    var i := 8;
    while i > 0
      invariant 0 <= i <= 8
      invariant forall k :: 0 <= k < vli.Length && !(off <= k < off + 8) ==> vli[k] == old(vli[k])
      invariant t == vli[off..off + 8]
      invariant forall k :: 0 <= k < i ==> t[k] == s[k]
      invariant High(t, i) == High(s, i) / 2
      invariant carry == (High(s, i) % 2) * HIGH_BIT_SET
      invariant i < 8 ==> vli[off + 7] < HIGH_BIT_SET
    {
      i := i - 1;
      var temp := vli[off + i];
      vli[off + i] := OrTop(temp / 2, carry);
      carry := (temp % 2) * HIGH_BIT_SET;
      ghost var t' := vli[off..off + 8];
      HighFrame(t, t', i + 1);
      t := t';
    }
    HighIsNum(s);
    HighIsNum(t);
  }

  lemma AddStep(l: int, r: int, c: int, s: int, c': int, n: nat)
    requires l + r + c == s + W * c'
    ensures Shift(l, n) + Shift(r, n) + Shift(c, n) == Shift(s, n) + Shift(c', n + 1)
  {
    ShiftAdd(l, r, n);
    ShiftAdd(l + r, c, n);
    ShiftAdd(s, W * c', n);
    ShiftIn(c', n);
  }

  /** result = left + right, returning the carry. */
  method VliAdd(result: array<Word>, left: array<Word>, right: array<Word>) returns (carry: Word)
    requires result.Length == left.Length == right.Length
    modifies result
    ensures carry <= 1
    ensures V(result) + Shift(carry, result.Length) == old(V(left)) + old(V(right))
  {
    carry := 0;
    var i := 0;
    ghost var l, r := left[..], right[..];
    while i < result.Length
      invariant 0 <= i <= result.Length
      invariant carry <= 1
      invariant forall k :: i <= k < result.Length ==> left[k] == l[k] && right[k] == r[k]
      invariant Num(result[..], i) + Shift(carry, i) == Num(l, i) + Num(r, i)
    {
      ghost var c, before := carry, result[..];
      var sum := (left[i] + right[i] + carry) % W;
      if sum != left[i] {
        carry := if sum < left[i] then 1 else 0;
      }
      AddStep(l[i], r[i], c, sum, carry, i);
      result[i] := sum;
      NumFrame(before, result[..], i);
      i := i + 1;
    }
  }

  /** result = left - right, returning the borrow. */
  method VliSub(result: array<Word>, left: array<Word>, right: array<Word>) returns (borrow: Word)
    requires result.Length == left.Length == right.Length
    modifies result
    ensures borrow <= 1
    ensures V(result) - Shift(borrow, result.Length) == old(V(left)) - old(V(right))
  {
    borrow := 0;
    var i := 0;
    ghost var l, r := left[..], right[..];
    while i < result.Length
      invariant 0 <= i <= result.Length
      invariant borrow <= 1
      invariant forall k :: i <= k < result.Length ==> left[k] == l[k] && right[k] == r[k]
      invariant Num(result[..], i) - Shift(borrow, i) == Num(l, i) - Num(r, i)
    {
      ghost var b, before := borrow, result[..];
      var diff := (left[i] - right[i] - borrow) % W;
      if diff != left[i] {
        borrow := if diff > left[i] then 1 else 0;
      }
      AddStep(diff, r[i], b, l[i], borrow, i);
      result[i] := diff;
      NumFrame(before, result[..], i);
      i := i + 1;
    }
  }
}
