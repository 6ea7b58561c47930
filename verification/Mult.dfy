/**
 Product-scanning multiplication: `muladd`, `vli_mult`, `mul2add` and `vli_square`.

 The specification is a table of columns: column k of a * b collects every a[i] * b[k - i].
 Summing it by rows instead of by columns gives the product of the two numbers.
 */
module Mult {
  import opened Words

  /** Words beyond the end count as zero. */
  function At(s: seq<Word>, i: int): Word {
    if 0 <= i < |s| then s[i] else 0
  }

  /** The part of column k that the words a[lo..hi] contribute. */
  function Column(a: seq<Word>, b: seq<Word>, k: int, lo: nat, hi: nat): int
    requires lo <= hi <= |a|
    decreases hi
  {
    if lo == hi then 0 else Column(a, b, k, lo, hi - 1) + a[hi - 1] * At(b, k - (hi - 1))
  }

  /** The first n numbers of cs, weighted by powers of W. */
  function Weighted(cs: seq<int>, n: nat): int
    requires n <= |cs|
  {
    if n == 0 then 0 else Weighted(cs, n - 1) + Shift(cs[n - 1], n - 1)
  }

  /** cs lists the columns of the product, restricted to the first m words of a. */
  ghost predicate AreColumns(cs: seq<int>, a: seq<Word>, b: seq<Word>, m: nat) {
    && m <= |a|
    && forall k {:trigger Column(a, b, k, 0, m)} :: 0 <= k < |cs| ==> cs[k] == Column(a, b, k, 0, m)
  }

  /** Row m of the table: w * b, m words up. */
  lemma {:induction false} RowSum(cs: seq<int>, b: seq<Word>, w: Word, m: nat, n: nat)
    requires n <= |cs|
    requires forall k :: 0 <= k < |cs| ==> cs[k] == w * At(b, k - m)
    ensures Weighted(cs, n) == if n <= m then 0
                               else Shift(w * Num(b, if n - m <= |b| then n - m else |b|), m)
  {
    if n > 0 {
      RowSum(cs, b, w, m, n - 1);
      if n <= m || n - m > |b| {
        ShiftZero(n - 1);
      } else {
        RowDigit(w, Num(b, n - 1 - m), b[n - 1 - m], m, n - 1 - m);
      }
      if n == m + 1 {
        ShiftZero(m);
      }
    }
  }

  lemma RowDigit(w: int, x: int, d: int, m: nat, j: nat)
    ensures Shift(w * x, m) + Shift(w * d, m + j) == Shift(w * (x + Shift(d, j)), m)
  {
    ShiftShift(w * d, j, m);
    ShiftIsProduct(w * d, j);
    ShiftIsProduct(d, j);
    assert w * d * Pow(j) == w * (d * Pow(j));
    ShiftAdd(w * x, w * Shift(d, j), m);
    assert w * x + w * Shift(d, j) == w * (x + Shift(d, j));
  }

  lemma {:induction false} WeightedAdd(cs: seq<int>, ds: seq<int>, es: seq<int>, n: nat)
    requires n <= |cs| == |ds| == |es|
    requires forall k :: 0 <= k < |cs| ==> es[k] == cs[k] + ds[k]
    ensures Weighted(es, n) == Weighted(cs, n) + Weighted(ds, n)
  {
    if n > 0 {
      WeightedAdd(cs, ds, es, n - 1);
      ShiftAdd(cs[n - 1], ds[n - 1], n - 1);
    }
  }

  lemma {:induction false} WeightedZero(cs: seq<int>, n: nat)
    requires n <= |cs| && forall k :: 0 <= k < n ==> cs[k] == 0
    ensures Weighted(cs, n) == 0
  {
    if n > 0 {
      WeightedZero(cs, n - 1);
      ShiftZero(n - 1);
    }
  }

  /** Summed by rows instead of by columns, the table is the product. */
  lemma {:induction false} ColumnsAreProduct(cs: seq<int>, a: seq<Word>, b: seq<Word>, m: nat)
    requires m <= |a| && |b| > 0 && m + |b| <= |cs| + 1
    requires AreColumns(cs, a, b, m)
    ensures Weighted(cs, |cs|) == Num(a, m) * Num(b, |b|)
    decreases m
  {
    var n := |cs|;
    if m == 0 {
      forall k | 0 <= k < n ensures cs[k] == 0 {
        assert Column(a, b, k, 0, 0) == 0;
      }
      WeightedZero(cs, n);
    } else {
      var w: Word := a[m - 1];
      var above := seq(n, k requires 0 <= k < n => Column(a, b, k, 0, m - 1));
      var row := seq(n, k requires 0 <= k < n => w * At(b, k - (m - 1)));
      forall k | 0 <= k < n ensures cs[k] == above[k] + row[k] {
        assert Column(a, b, k, 0, m) == Column(a, b, k, 0, m - 1) + w * At(b, k - (m - 1));
      }
      ColumnsAreProduct(above, a, b, m - 1);
      RowSum(row, b, w, m - 1, n);
      WeightedAdd(above, row, cs, n);
      RowJoins(w, Num(a, m - 1), Num(b, |b|), m - 1);
    }
  }

  lemma RowJoins(w: int, x: int, y: int, m: nat)
    ensures x * y + Shift(w * y, m) == (x + Shift(w, m)) * y
  {
    ShiftIsProduct(w * y, m);
    ShiftIsProduct(w, m);
    Factor(w, x, y, Pow(m));
  }

  lemma Factor(w: int, x: int, y: int, p: int)
    ensures x * y + w * y * p == (x + w * p) * y
  {
  }

  /** Words of a that find no partner in b contribute nothing. */
  lemma {:induction false} ColumnTail(a: seq<Word>, b: seq<Word>, k: int, lo: nat, hi: nat, top: nat)
    requires lo <= hi <= top <= |a| && k < hi
    ensures Column(a, b, k, lo, top) == Column(a, b, k, lo, hi)
  {
    if hi < top {
      ColumnTail(a, b, k, lo, hi, top - 1);
    }
  }

  lemma {:induction false} ColumnHead(a: seq<Word>, b: seq<Word>, k: int, lo: nat, hi: nat)
    requires lo <= hi <= |a| && lo + |b| <= k + 1
    ensures Column(a, b, k, 0, hi) == Column(a, b, k, lo, hi)
  {
    if lo < hi {
      ColumnHead(a, b, k, lo, hi - 1);
    } else {
      ColumnSkip(a, b, k, lo);
    }
  }

  lemma {:induction false} ColumnSkip(a: seq<Word>, b: seq<Word>, k: int, lo: nat)
    requires lo <= |a| && lo + |b| <= k + 1
    ensures Column(a, b, k, 0, lo) == 0
  {
    if lo > 0 {
      ColumnSkip(a, b, k, lo - 1);
    }
  }

  // ----- The accumulator -----

  /** The three-word accumulator r2:r1:r0. */
  function Acc(r0: Word, r1: Word, r2: Word): int {
    r0 + W * r1 + W2 * r2
  }

  const MAX_PRODUCT: int := 0xFFFF_FFFE_0000_0001 // (W - 1)^2

  lemma ProductBound(a: int, b: int, m: int)
    requires 0 <= a <= m && 0 <= b <= m
    ensures 0 <= a * b <= m * m
  {
    assert a * b <= a * m <= m * m;
  }

  /** The wrap-around test is exact: it detects precisely the carry out of r1:r0. */
  lemma CarryStep(r0: Word, r1: Word, r2: Word, p: int, r01: int, s2: Word)
    requires 0 <= p < W2
    requires r01 == (r1 * W + r0 + p) % W2
    requires s2 == (r2 + if r01 < p then 1 else 0) % W
    ensures Acc(r01 % W, r01 / W, s2) == (Acc(r0, r1, r2) + p) % W3
  {
    var low := r1 * W + r0 + p;
    var carry := if low < W2 then 0 else 1;
    assert r01 == low - carry * W2;
    assert (r01 < p) == (carry == 1);
    WrapTop(r01, r2 + carry, s2);
    assert Acc(r0, r1, r2) + p == r01 + W2 * (r2 + carry);
  }

  lemma WrapTop(low: int, high: int, s2: Word)
    requires 0 <= low < W2 && 0 <= high <= W
    requires s2 == high % W
    ensures (low + W2 * high) % W3 == low + W2 * s2 == Acc(low % W, low / W, s2)
  {
    if high == W {
      assert low + W2 * high == low + W3;
    } else {
      assert high % W == high;
    }
  }

  /** Adds a * b to the accumulator; the C code passes r0, r1, r2 by address. */
  method MulAdd(a: Word, b: Word, r0: Word, r1: Word, r2: Word) returns (s0: Word, s1: Word, s2: Word)
    ensures Acc(s0, s1, s2) == (Acc(r0, r1, r2) + a * b) % W3
  {
    ProductBound(a, b, W - 1);
    var p: int := a * b;
    var r01: int := (r1 * W + r0 + p) % W2;
    s2 := (r2 + if r01 < p then 1 else 0) % W;
    s1 := r01 / W;
    s0 := r01 % W;
    CarryStep(r0, r1, r2, p, r01, s2);
  }

  lemma DoubledCarryStep(r0: Word, r1: Word, r2: Word, half: int, low: int, t2: Word, r01: int, s2: Word)
    requires 0 <= half <= 1 && 0 <= low < W2
    requires t2 == (r2 + half) % W
    requires r01 == (r1 * W + r0 + low) % W2
    requires s2 == (t2 + if r01 < low then 1 else 0) % W
    ensures Acc(r01 % W, r01 / W, s2) == (Acc(r0, r1, r2) + half * W2 + low) % W3
  {
    CarryStep(r0, r1, t2, low, r01, s2);
    WrapAgain(r0 + W * r1 + low, r2 + half, t2);
  }

  lemma TopBitAndRest(p: int)
    requires 0 <= p < W2
    ensures 0 <= p / (W2 / 2) <= 1 && 2 * p == p / (W2 / 2) * W2 + 2 * p % W2
  {
  }

  lemma WrapAgain(x: int, high: int, t2: Word)
    requires 0 <= high <= W && t2 == high % W
    ensures (x + W2 * high) % W3 == (x + W2 * t2) % W3
  {
    ModPlus(x + W2 * t2, if high == W then 1 else 0);
    assert high == if high == W then t2 + W else t2;
  }

  lemma ModPlus(x: int, k: int)
    ensures (x + k * W3) % W3 == x % W3
  {
  }

  /** Adds 2 * a * b to the accumulator. */
  method Mul2Add(a: Word, b: Word, r0: Word, r1: Word, r2: Word) returns (s0: Word, s1: Word, s2: Word)
    ensures Acc(s0, s1, s2) == (Acc(r0, r1, r2) + 2 * (a * b)) % W3
  {
    ProductBound(a, b, W - 1);
    var p: int := a * b;
    var r01: int := r1 * W + r0;
    var t2 := (r2 + p / (W2 / 2)) % W;
    ghost var half := p / (W2 / 2);
    TopBitAndRest(p);
    p := 2 * p % W2;
    r01 := (r01 + p) % W2;
    s2 := (t2 + if r01 < p then 1 else 0) % W;
    s1 := r01 / W;
    s0 := r01 % W;
    DoubledCarryStep(r0, r1, r2, half, p, t2, r01, s2);
  }

  /** Columns stay far below the accumulator's capacity. */
  const HEADROOM: int := 8 * W

  lemma NoOverflow(x: int, a: Word, b: Word, i: nat)
    requires i < 8 && 0 <= x <= HEADROOM + i * MAX_PRODUCT
    ensures (x + a * b) % W3 == x + a * b <= HEADROOM + (i + 1) * MAX_PRODUCT
  {
    ProductBound(a, b, W - 1);
    NoWrap(x + a * b);
  }

  lemma NoWrap(x: int)
    requires 0 <= x < W3
    ensures x % W3 == x
  {
  }

  /** The inner loop of `vli_mult`: adds the products left[i] * right[k - i], lo <= i < hi. */
  method AddColumn(left: array<Word>, right: array<Word>, k: nat, lo: nat, hi: nat,
                   r0: Word, r1: Word, r2: Word, ghost cs: seq<int>)
    returns (s0: Word, s1: Word, s2: Word)
    requires left.Length == 8 && right.Length == 8
    requires if k < 8 then lo == 0 && hi == k + 1 else k < 15 && lo == k - 7 && hi == 8
    requires |cs| == 15 && AreColumns(cs, left[..], right[..], 8)
    requires Acc(r0, r1, r2) <= HEADROOM
    ensures Acc(s0, s1, s2) == Acc(r0, r1, r2) + cs[k] <= HEADROOM + 8 * MAX_PRODUCT
  {
    ghost var l, r := left[..], right[..];
    s0, s1, s2 := r0, r1, r2;
    var i := lo;
    while i < hi
      invariant lo <= i <= hi
      invariant Acc(s0, s1, s2) == Acc(r0, r1, r2) + Column(l, r, k, lo, i)
      invariant Acc(s0, s1, s2) <= HEADROOM + i * MAX_PRODUCT
    {
      ghost var x := Acc(s0, s1, s2);
      s0, s1, s2 := MulAdd(left[i], right[k - i], s0, s1, s2);
      NoOverflow(x, l[i], r[k - i], i);
      i := i + 1;
    }
    assert i == hi;
    PartialColumn(l, r, k, lo, hi);
    assert cs[k] == Column(l, r, k, 0, 8);
  }

  /** Words outside lo .. hi find no partner in column k. */
  lemma PartialColumn(l: seq<Word>, r: seq<Word>, k: nat, lo: nat, hi: nat)
    requires |l| == 8 && |r| == 8
    requires if k < 8 then lo == 0 && hi == k + 1 else k < 15 && lo == k - 7 && hi == 8
    ensures Column(l, r, k, lo, hi) == Column(l, r, k, 0, 8)
  {
    if k < 8 {
      ColumnTail(l, r, k, 0, hi, 8);
    } else {
      ColumnHead(l, r, k, lo, 8);
    }
  }

  /** Stores the digit of column k and shifts the accumulator down to column k + 1. */
  method EmitWord(result: array<Word>, k: nat, r0: Word, r1: Word, r2: Word)
    returns (s0: Word, s1: Word, s2: Word)
    requires k < result.Length
    modifies result
    ensures s0 == r1 && s1 == r2 && s2 == 0
    ensures Num(result[..], k + 1) + Shift(Acc(s0, s1, s2), k + 1)
         == Num(old(result[..]), k) + Shift(Acc(r0, r1, r2), k)
  {
    result[k] := r0;
    NumFrame(old(result[..]), result[..], k);
    s0, s1, s2 := r1, r2, 0;
    ShiftIn(Acc(s0, s1, s2), k);
    ShiftAdd(r0, W * Acc(s0, s1, s2), k);
  }

  /** The columns of the full product of two eight-word numbers. */
  lemma ProductColumns(l: seq<Word>, r: seq<Word>) returns (cs: seq<int>)
    requires |l| == 8
    ensures |cs| == 15 && AreColumns(cs, l, r, 8)
  {
    cs := seq(15, k requires 0 <= k < 15 => Column(l, r, k, 0, 8));
  }

  lemma TotalIsProduct(cs: seq<int>, l: seq<Word>, r: seq<Word>)
    requires |cs| == 15 && |l| == 8 && |r| == 8 && AreColumns(cs, l, r, 8)
    ensures Weighted(cs, 15) == Num(l, 8) * Num(r, 8) < Pow(16)
  {
    ColumnsAreProduct(cs, l, r, 8);
    NumBound(l, 8);
    NumBound(r, 8);
    StrictProductBound(Num(l, 8), Num(r, 8), Pow(8));
    ShiftIsProduct(Pow(8), 8);
    ShiftShift(1, 8, 8);
  }

  /** After the last column the accumulator is the sixteenth word of the product. */
  lemma LastWord(result: seq<Word>, acc: int)
    requires |result| == 16 && acc >= 0
    requires Num(result, 15) + Shift(acc, 15) < Pow(16)
    ensures acc < W
    ensures Num(result[15 := acc], 16) == Num(result, 15) + Shift(acc, 15)
  {
    NumBound(result, 15);
    ShiftIn(1, 15);
    if W <= acc {
      ShiftMonotone(W, acc, 15);
      assert false;
    }
    NumFrame(result, result[15 := acc], 15);
  }

  lemma StrictProductBound(a: int, b: int, m: int)
    requires 0 <= a < m && 0 <= b < m
    ensures 0 <= a * b < m * m
  {
    assert a * b <= a * m;
    assert a * m < m * m;
  }

  /** result = left * right, all sixteen words. */
  method VliMult(result: array<Word>, left: array<Word>, right: array<Word>)
    requires result.Length == 16 && left.Length == 8 && right.Length == 8
    modifies result
    ensures V(result) == V(left) * V(right)
  {
    ghost var l, r := left[..], right[..];
    ghost var cs := ProductColumns(l, r);
    var r0: Word, r1: Word, r2: Word := 0, 0, 0;
    var k := 0;
    ShiftZero(0);
    while k < 8
      invariant 0 <= k <= 8
      invariant left[..] == l && right[..] == r
      invariant Acc(r0, r1, r2) <= HEADROOM
      invariant Num(result[..], k) + Shift(Acc(r0, r1, r2), k) == Weighted(cs, k)
    {
      ghost var words, acc := result[..], Acc(r0, r1, r2);
      r0, r1, r2 := AddColumn(left, right, k, 0, k + 1, r0, r1, r2, cs);
      assert result[..] == words;
      ShiftAdd(acc, cs[k], k);
      assert Num(words, k) + Shift(Acc(r0, r1, r2), k) == Weighted(cs, k + 1);
      r0, r1, r2 := EmitWord(result, k, r0, r1, r2);
      k := k + 1;
    }
    while k < 15
      invariant 8 <= k <= 15
      invariant left[..] == l && right[..] == r
      invariant Acc(r0, r1, r2) <= HEADROOM
      invariant Num(result[..], k) + Shift(Acc(r0, r1, r2), k) == Weighted(cs, k)
    {
      ghost var words, acc := result[..], Acc(r0, r1, r2);
      r0, r1, r2 := AddColumn(left, right, k, (k + 1) - 8, 8, r0, r1, r2, cs);
      assert result[..] == words;
      ShiftAdd(acc, cs[k], k);
      assert Num(words, k) + Shift(Acc(r0, r1, r2), k) == Weighted(cs, k + 1);
      r0, r1, r2 := EmitWord(result, k, r0, r1, r2);
      k := k + 1;
    }
    ghost var words := result[..];
    TotalIsProduct(cs, l, r);
    LastWord(words, Acc(r0, r1, r2));
    result[15] := r0;
    assert result[..] == words[15 := r0];
  }

  // ----- Squaring: half the products, each taken twice -----

  /** The inner loop of `vli_square` as a sum: off-diagonal products count twice. */
  function HalfColumn(a: seq<Word>, k: nat, lo: nat, hi: nat): int
    requires lo <= hi <= |a|
    decreases hi
  {
    if lo == hi then 0
    else
      var p: int := a[hi - 1] * At(a, k - (hi - 1));
      HalfColumn(a, k, lo, hi - 1) + if hi - 1 < k - (hi - 1) then 2 * p else p
  }

  lemma {:induction false} ColumnJoin(a: seq<Word>, b: seq<Word>, k: int, lo: nat, mid: nat, hi: nat)
    requires lo <= mid <= hi <= |a|
    ensures Column(a, b, k, lo, hi) == Column(a, b, k, lo, mid) + Column(a, b, k, mid, hi)
    decreases hi
  {
    if mid < hi {
      ColumnJoin(a, b, k, lo, mid, hi - 1);
    }
  }

  /** Below the diagonal, each doubled product stands for its mirror image as well. */
  lemma {:induction false} Mirror(a: seq<Word>, k: nat, lo: nat, i: nat)
    requires lo <= i && 2 * i <= k + 1 && k + 1 - lo <= |a|
    ensures HalfColumn(a, k, lo, i) == Column(a, a, k, lo, i) + Column(a, a, k, k + 1 - i, k + 1 - lo)
    decreases i
  {
    if lo < i {
      Mirror(a, k, lo, i - 1);
      ColumnJoin(a, a, k, k + 1 - i, k + 2 - i, k + 1 - lo);
      OneProduct(a, k, i - 1);
      OneProduct(a, k, k + 1 - i);
    }
  }

  lemma OneProduct(a: seq<Word>, k: nat, j: nat)
    requires j <= k && j < |a| && k - j < |a|
    ensures Column(a, a, k, j, j + 1) == a[j] * At(a, k - j) == a[k - j] * At(a, j)
  {
    assert Column(a, a, k, j, j) == 0;
  }

  lemma HalfColumnIsColumn(a: seq<Word>, k: nat, lo: nat)
    requires 2 * lo <= k && k + 1 - lo <= |a|
    ensures HalfColumn(a, k, lo, k / 2 + 1) == Column(a, a, k, lo, k + 1 - lo)
  {
    var mid := (k + 1) / 2;
    Mirror(a, k, lo, mid);
    ColumnJoin(a, a, k, lo, k + 1 - mid, k + 1 - lo);
  }

  /** One step of the inner loop of `vli_square`: t joins the accumulator without overflow. */
  lemma HalfStep(l: seq<Word>, k: nat, lo: nat, i: nat, acc: int) returns (t: int)
    requires |l| == 8 && lo <= i <= k - i < 8 && i < lo + 4
    requires 0 <= acc <= HEADROOM + (i - lo) * (2 * MAX_PRODUCT)
    ensures var x: int, y: int := l[i], l[k - i]; t == if i < k - i then 2 * (x * y) else x * y
    ensures HalfColumn(l, k, lo, i + 1) == HalfColumn(l, k, lo, i) + t
    ensures (acc + t) % W3 == acc + t <= HEADROOM + (i + 1 - lo) * (2 * MAX_PRODUCT)
  {
    var x: int, y: int := l[i], l[k - i];
    t := if i < k - i then 2 * (x * y) else x * y;
    ProductBound(l[i], l[k - i], W - 1);
    NoWrap(acc + t);
  }

  lemma Fits(x: int, n: nat)
    requires n <= 4 && x <= HEADROOM + n * (2 * MAX_PRODUCT)
    ensures x <= HEADROOM + 8 * MAX_PRODUCT
  {
  }

  lemma FullColumn(l: seq<Word>, k: nat, lo: nat)
    requires |l| == 8 && k < 15 && lo == if k < 8 then 0 else k - 7
    ensures HalfColumn(l, k, lo, k / 2 + 1) == Column(l, l, k, 0, 8)
  {
    HalfColumnIsColumn(l, k, lo);
    PartialColumn(l, l, k, lo, k + 1 - lo);
  }

  /** The inner loop of `vli_square`. */
  method AddHalfColumn(left: array<Word>, k: nat, lo: nat, r0: Word, r1: Word, r2: Word, ghost cs: seq<int>)
    returns (s0: Word, s1: Word, s2: Word)
    requires left.Length == 8
    requires k < 15 && lo == if k < 8 then 0 else k - 7
    requires |cs| == 15 && AreColumns(cs, left[..], left[..], 8)
    requires Acc(r0, r1, r2) <= HEADROOM
    ensures Acc(s0, s1, s2) == Acc(r0, r1, r2) + cs[k] <= HEADROOM + 8 * MAX_PRODUCT
  {
    ghost var l := left[..];
    s0, s1, s2 := r0, r1, r2;
    var i := lo;
    while i <= k && i <= k - i
      invariant lo <= i <= k / 2 + 1
      invariant Acc(s0, s1, s2) == Acc(r0, r1, r2) + HalfColumn(l, k, lo, i)
      invariant Acc(s0, s1, s2) <= HEADROOM + (i - lo) * (2 * MAX_PRODUCT)
    {
      ghost var acc := Acc(s0, s1, s2);
      ghost var t := HalfStep(l, k, lo, i, acc);
      if i < k - i {
        s0, s1, s2 := Mul2Add(left[i], left[k - i], s0, s1, s2);
      } else {
        s0, s1, s2 := MulAdd(left[i], left[k - i], s0, s1, s2);
      }
      assert Acc(s0, s1, s2) == acc + t;
      i := i + 1;
    }
    assert i == k / 2 + 1 <= lo + 4;
    Fits(Acc(s0, s1, s2), i - lo);
    FullColumn(l, k, lo);
    assert cs[k] == Column(l, l, k, 0, 8);
  }

  /** result = left^2, by half the multiplications: the words `VliMult` computes. */
  method VliSquare(result: array<Word>, left: array<Word>)
    requires result.Length == 16 && left.Length == 8
    modifies result
    ensures V(result) == V(left) * V(left)
  {
    ghost var l := left[..];
    ghost var cs := ProductColumns(l, l);
    var r0: Word, r1: Word, r2: Word := 0, 0, 0;
    var k := 0;
    ShiftZero(0);
    while k < 15
      invariant 0 <= k <= 15
      invariant left[..] == l
      invariant Acc(r0, r1, r2) <= HEADROOM
      invariant Num(result[..], k) + Shift(Acc(r0, r1, r2), k) == Weighted(cs, k)
    {
      ShiftAdd(Acc(r0, r1, r2), cs[k], k);
      ghost var words := result[..];
      var min := if k < 8 then 0 else (k + 1) - 8;
      r0, r1, r2 := AddHalfColumn(left, k, min, r0, r1, r2, cs);
      assert result[..] == words;
      r0, r1, r2 := EmitWord(result, k, r0, r1, r2);
      k := k + 1;
    }
    ghost var words := result[..];
    TotalIsProduct(cs, l, l);
    LastWord(words, Acc(r0, r1, r2));
    result[15] := r0;
    assert result[..] == words[15 := r0];
  }
}
