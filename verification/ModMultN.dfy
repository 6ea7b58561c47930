/**
 Multiplication modulo the group order by shift and subtract: `vli2_rshift1`, `vli2_sub`
 (`VliSub` on sixteen words) and `vli_modMult_n`.
 */
module ModMultN {
  import opened Words
  import opened Bits
  import opened Vli
  import opened Mult
  import opened Reduce
  import opened Congruence

  /** The order of the secp256r1 group. */
  const N: int := 0xFFFFFFFF_00000000_FFFFFFFF_FFFFFFFF_BCE6FAAD_A7179E84_F3B9CAC2_FC632551

  /** The table `curve_n`. */
  method CurveN() returns (n: array<Word>)
    ensures fresh(n) && n.Length == 8 && V(n) == N
  {
    n := new Word[8] [0xFC632551, 0xF3B9CAC2, 0xA7179E84, 0xBCE6FAAD, 0xFFFFFFFF, 0xFFFFFFFF, 0, 0xFFFFFFFF];
    NumEight(n[..]);
  }

  lemma TwoSegments(a: array<Word>)
    requires a.Length == 16
    ensures V(a) == Segment(a, 0) + W8 * Segment(a, 8)
  {
    NumSixteen(a[..]);
    NumFrame(a[..], a[0..8], 8);
    NumEight(a[8..16]);
  }

  lemma HalveBoth(low: int, high: int, bit: int)
    requires bit == high % 2
    ensures (low + W8 * high) / 2 == low / 2 + bit * (W8 / 2) + W8 * (high / 2)
  {
    assert high == 2 * (high / 2) + bit;
  }

  /** vli = vli / 2 on sixteen words. */
  method Vli2Rshift1(vli: array<Word>)
    requires vli.Length == 16
    modifies vli
    ensures V(vli) == old(V(vli)) / 2
  {
    ghost var low, high, upper := Segment(vli, 0), Segment(vli, 8), vli[8..16];
    TwoSegments(vli);
    VliRshift1(vli, 0);
    ghost var s, bit := vli[0..8], vli[8] % 2;
    assert vli[8..16] == upper;
    NumParity(upper);
    HalveBoth(low, high, bit);
    vli[7] := OrTop(vli[7], vli[8] % 2 * HIGH_BIT_SET);
    ghost var lower := vli[0..8];
    LowWithTopBit(s, lower, bit);
    assert vli[8..16] == upper;
    VliRshift1(vli, 8);
    assert vli[0..8] == lower;
    TwoSegments(vli);
  }

  lemma LowWithTopBit(s: seq<Word>, t: seq<Word>, bit: int)
    requires |s| == 8 && s[7] < HIGH_BIT_SET && 0 <= bit <= 1
    requires t == s[7 := OrTop(s[7], bit * HIGH_BIT_SET)]
    ensures Num(t, 8) == Num(s, 8) + bit * (W8 / 2)
  {
    NumEight(s);
    NumEight(t);
  }

  /** Where iteration i of the reduction loop starts: v < 2 * n * 2^(256 - i), and v < n at the end. */
  ghost predicate Reduced(v: int, modMultiple: int, i: nat) {
    && i <= 257
    && (i <= 256 ==> modMultiple == Doubled(N, 256 - i) && v < 2 * modMultiple)
    && (i == 257 ==> v < N)
  }

  lemma StartReduction(v: int, modMultiple: int)
    requires 0 <= v < W8 * W8 && modMultiple == W8 * N
    ensures Reduced(v, modMultiple, 0)
  {
    DoubledByWords(N, 8);
    ShiftLiterals(N);
  }

  lemma ReductionStep(v: int, v': int, modMultiple: int, modMultiple': int, i: nat)
    requires Reduced(v, modMultiple, i) && i < 257
    requires v' == if v < modMultiple then v else v - modMultiple
    requires modMultiple' == modMultiple / 2
    ensures Reduced(v', modMultiple', i + 1)
    ensures Cong(v', v, N)
  {
    if i < 256 {
      assert Doubled(N, 256 - i) == 2 * Doubled(N, 255 - i);
    }
    MultipleOfN(256 - i);
    CongRefl(v, N);
    if v' != v {
      Combine(N, modMultiple, modMultiple, -1, 0);
    }
  }

  lemma {:induction false} MultipleOfN(k: nat)
    ensures Divides(N, Doubled(N, k))
  {
    SelfDivides(N);
    if k > 0 {
      MultipleOfN(k - 1);
      Combine(N, Doubled(N, k - 1), N, 2, 0);
    }
  }

  lemma ProductFits(l: int, r: int)
    requires 0 <= l < W8 && 0 <= r < W8
    ensures 0 <= l * r < W8 * W8
  {
    StrictProductBound(l, r, W8);
  }

  /** The borrow of a sixteen-word subtraction tells the order. */
  method Sub16(result: array<Word>, left: array<Word>, right: array<Word>) returns (borrow: Word)
    requires result.Length == 16 && left.Length == 16 && right.Length == 16
    requires result != left && result != right
    modifies result
    ensures borrow == if V(left) < V(right) then 1 else 0
    ensures V(left) >= V(right) ==> V(result) == V(left) - V(right)
  {
    borrow := VliSub(result, left, right);
    NumBound(result[..], 16);
    ShiftZero(16);
  }

  /** modMultiple = n * 2^256 */
  method StartMultiple(modMultiple: array<Word>, curveN: array<Word>)
    requires modMultiple.Length == 16 && curveN.Length == 8 && modMultiple != curveN
    modifies modMultiple
    ensures V(modMultiple) == W8 * V(curveN)
  {
    VliSet(modMultiple, 8, curveN);
    WholeSegment(curveN);
    ghost var upper := modMultiple[8..16];
    VliClear(modMultiple, 0);
    assert modMultiple[8..16] == upper;
    TwoSegments(modMultiple);
  }

  /** The loop of `vli_modMult_n`: `index` tells which of tmp and product holds the remainder. */
  method ReductionLoop(tmp: array<Word>, product: array<Word>, modMultiple: array<Word>) returns (index: int)
    requires tmp.Length == 16 && product.Length == 16 && modMultiple.Length == 16
    requires tmp != product && tmp != modMultiple && product != modMultiple
    requires Reduced(V(product), V(modMultiple), 0)
    modifies tmp, product, modMultiple
    ensures 0 <= index <= 1
    ensures var remainder := V([tmp, product][index]);
      remainder < N && Cong(remainder, old(V(product)), N)
  {
    var v := [tmp, product];
    index := 1;
    ghost var x := V(product);
    CongRefl(x, N);
    var i := 0;
    while i <= 256
      invariant 0 <= i <= 257 && 0 <= index <= 1
      invariant Reduced(V(v[index]), V(modMultiple), i)
      invariant Cong(V(v[index]), x, N)
    {
      ghost var before, multiple := V(v[index]), V(modMultiple);
      var borrow := Sub16(v[1 - index], v[index], modMultiple);
      index := if (index + borrow) % 2 == 0 then 1 else 0; // !(index ^ borrow)
      ghost var after := V(v[index]);
      Vli2Rshift1(modMultiple);
      ReductionStep(before, after, multiple, V(modMultiple), i);
      CongTrans(after, before, x, N);
      i := i + 1;
    }
  }

  /** result = (left * right) % N for any two 256-bit numbers. */
  method VliModMultN(result: array<Word>, left: array<Word>, right: array<Word>)
    requires result.Length == 8 && left.Length == 8 && right.Length == 8
    modifies result
    ensures V(result) == (old(V(left)) * old(V(right))) % N
  {
    var product, modMultiple, tmp := new Word[16], new Word[16], new Word[16];
    ghost var l, r := V(left), V(right);
    ValueBound(left);
    ValueBound(right);
    VliMult(product, left, right);
    ghost var x := V(product);
    var curveN := CurveN();
    StartMultiple(modMultiple, curveN);
    ProductReduced(l, r, x, V(modMultiple));
    var index := ReductionLoop(tmp, product, modMultiple);
    var remainder := [tmp, product][index];
    SixteenIsEight(remainder);
    VliSet(result, 0, remainder);
    WholeSegment(result);
    ProductRemainder(l, r, x, V(result));
  }

  lemma ProductReduced(l: int, r: int, x: int, modMultiple: int)
    requires 0 <= l < W8 && 0 <= r < W8 && x == l * r && modMultiple == W8 * N
    ensures Reduced(x, modMultiple, 0)
  {
    ProductFits(l, r);
    StartReduction(x, modMultiple);
  }

  lemma ProductRemainder(l: int, r: int, x: int, v: int)
    requires x == l * r && 0 <= v < N && Cong(v, x, N)
    ensures v == (l * r) % N
  {
    CongIffMod(v, x, N);
  }

  /** A sixteen-word number below N fits in its lower eight words. */
  lemma SixteenIsEight(a: array<Word>)
    requires a.Length == 16 && V(a) < N
    ensures Segment(a, 0) == V(a)
  {
    TwoSegments(a);
    NumBound(a[0..8], 8);
    NumBound(a[8..16], 8);
  }
}
