/**
 Arithmetic modulo a word-array modulus, and the fast reduction modulo the P-256 prime
 (FIPS 186-4, Appendix D.2.3).
 */
module Reduce {
  import opened Words
  import opened Vli
  import opened Mult
  import opened Congruence

  /** The field size of secp256r1: W^8 - W^7 + W^6 + W^3 - 1. */
  const P: int := 0xFFFFFFFF_00000001_00000000_00000000_00000000_FFFFFFFF_FFFFFFFF_FFFFFFFF

  /** The table `curve_p`. */
  method CurveP() returns (p: array<Word>)
    ensures fresh(p) && p.Length == 8 && V(p) == P
  {
    p := new Word[8] [0xFFFFFFFF, 0xFFFFFFFF, 0xFFFFFFFF, 0, 0, 0, 1, 0xFFFFFFFF];
    NumEight(p[..]);
  }

  lemma ValueBound(a: array<Word>)
    requires a.Length == 8
    ensures 0 <= V(a) < W8
  {
    NumBound(a[..], 8);
    PowEight();
  }

  /** vli_add on eight words, with the carry's weight spelled out. */
  method Add8(result: array<Word>, left: array<Word>, right: array<Word>) returns (carry: Word)
    requires result.Length == 8 && left.Length == 8 && right.Length == 8
    modifies result
    ensures carry <= 1 && 0 <= V(result) < W8
    ensures V(result) + carry * W8 == old(V(left)) + old(V(right))
  {
    carry := VliAdd(result, left, right);
    ShiftLiterals(carry);
    ValueBound(result);
  }

  /** vli_sub on eight words, with the borrow's weight spelled out. */
  method Sub8(result: array<Word>, left: array<Word>, right: array<Word>) returns (borrow: Word)
    requires result.Length == 8 && left.Length == 8 && right.Length == 8
    modifies result
    ensures borrow <= 1 && 0 <= V(result) < W8
    ensures V(result) - borrow * W8 == old(V(left)) - old(V(right))
  {
    borrow := VliSub(result, left, right);
    ShiftLiterals(borrow);
    ValueBound(result);
  }

  lemma SmallMod(x: int, r: int, m: int)
    requires 0 <= r < m
    requires x == r || x == r + m || x == r - m
    ensures x % m == r
  {
    ModUnique(x, if x == r then 0 else if x == r + m then 1 else -1, r, m);
  }

  /** result = (left + right) % mod; result may be left or right. */
  method VliModAdd(result: array<Word>, left: array<Word>, right: array<Word>, mod: array<Word>)
    requires result.Length == 8 && left.Length == 8 && right.Length == 8 && mod.Length == 8
    requires V(left) < V(mod) && V(right) < V(mod) && result != mod
    modifies result
    ensures V(result) == (old(V(left)) + old(V(right))) % V(mod) < V(mod)
  {
    ValueBound(left);
    ValueBound(right);
    ghost var sum := V(left) + V(right);
    var carry := Add8(result, left, right);
    var sign := VliCmp(result, mod);
    if carry != 0 || sign >= 0 {
      var _ := Sub8(result, result, mod);
    }
    SmallMod(sum, V(result), V(mod));
  }

  /** result = (left - right) % mod; result may be left or right. */
  method VliModSub(result: array<Word>, left: array<Word>, right: array<Word>, mod: array<Word>)
    requires result.Length == 8 && left.Length == 8 && right.Length == 8 && mod.Length == 8
    requires V(left) < V(mod) && V(right) < V(mod) && result != mod
    modifies result
    ensures V(result) == (old(V(left)) - old(V(right))) % V(mod) < V(mod)
  {
    ValueBound(left);
    ValueBound(right);
    ghost var difference := V(left) - V(right);
    var lBorrow := Sub8(result, left, right);
    if lBorrow != 0 {
      var _ := Add8(result, result, mod);
    }
    SmallMod(difference, V(result), V(mod));
  }

  // ----- Fast reduction modulo P -----

  /**
   The eight-word terms of FIPS 186-4, D.2.3, low word first, as sequences over the
   sixteen words c of a product.
   */
  function S1(c: seq<Word>): seq<Word> requires |c| == 16 { [0, 0, 0, c[11], c[12], c[13], c[14], c[15]] }
  function S2(c: seq<Word>): seq<Word> requires |c| == 16 { [0, 0, 0, c[12], c[13], c[14], c[15], 0] }
  function S3(c: seq<Word>): seq<Word> requires |c| == 16 { [c[8], c[9], c[10], 0, 0, 0, c[14], c[15]] }
  function S4(c: seq<Word>): seq<Word> requires |c| == 16 { [c[9], c[10], c[11], c[13], c[14], c[15], c[13], c[8]] }
  function D1(c: seq<Word>): seq<Word> requires |c| == 16 { [c[11], c[12], c[13], 0, 0, 0, c[8], c[10]] }
  function D2(c: seq<Word>): seq<Word> requires |c| == 16 { [c[12], c[13], c[14], c[15], 0, 0, c[9], c[11]] }
  function D3(c: seq<Word>): seq<Word> requires |c| == 16 { [c[13], c[14], c[15], c[8], c[9], c[10], 0, c[12]] }
  function D4(c: seq<Word>): seq<Word> requires |c| == 16 { [c[14], c[15], 0, c[9], c[10], c[11], 0, c[13]] }

  function FipsSum(c: seq<Word>): int
    requires |c| == 16
  {
    Num(c, 8) + 2 * Num(S1(c), 8) + 2 * Num(S2(c), 8) + Num(S3(c), 8) + Num(S4(c), 8)
    - Num(D1(c), 8) - Num(D2(c), 8) - Num(D3(c), 8) - Num(D4(c), 8)
  }

  lemma NumSixteen(c: seq<Word>)
    requires |c| == 16
    ensures Num(c, 16) == Num(c, 8)
      + W8 * (c[8] + W * c[9] + W2 * c[10] + W3 * c[11] + W4 * c[12] + W5 * c[13] + W6 * c[14] + W7 * c[15])
  {
    Split(c, 8);
    ShiftLiterals(High(c, 8));
    assert High(c, 15) == c[15];
    assert High(c, 14) == c[14] + W * c[15];
    assert High(c, 12) == c[12] + W * c[13] + W2 * High(c, 14);
    assert High(c, 10) == c[10] + W * c[11] + W2 * High(c, 12);
    assert High(c, 8) == c[8] + W * c[9] + W2 * High(c, 10);
  }

  /** The quotient that separates sixteen words from their FIPS sum. */
  function FipsQuotient(c8: int, c9: int, c10: int, c11: int, c12: int, c13: int, c14: int, c15: int): int {
    c8
    + 0x1_00000001 * c9
    + 0x1_00000001_00000000 * c10
    + 0x1_00000000_FFFFFFFF_FFFFFFFF * c11
    + 0x1_00000000_FFFFFFFF_FFFFFFFE_FFFFFFFF * c12
    + 0x1_00000000_FFFFFFFF_FFFFFFFE_FFFFFFFE_FFFFFFFF * c13
    + 0x1_00000000_FFFFFFFF_FFFFFFFE_FFFFFFFE_FFFFFFFE_FFFFFFFF * c14
    + 0x1_00000000_FFFFFFFF_FFFFFFFE_FFFFFFFE_FFFFFFFE_FFFFFFFF_00000000 * c15
  }

  lemma FipsIdentity(c8: int, c9: int, c10: int, c11: int, c12: int, c13: int, c14: int, c15: int,
                     s1: int, s2: int, s3: int, s4: int, d1: int, d2: int, d3: int, d4: int)
    requires s1 == W3 * c11 + W4 * c12 + W5 * c13 + W6 * c14 + W7 * c15
    requires s2 == W3 * c12 + W4 * c13 + W5 * c14 + W6 * c15
    requires s3 == c8 + W * c9 + W2 * c10 + W6 * c14 + W7 * c15
    requires s4 == c9 + W * c10 + W2 * c11 + W3 * c13 + W4 * c14 + W5 * c15 + W6 * c13 + W7 * c8
    requires d1 == c11 + W * c12 + W2 * c13 + W6 * c8 + W7 * c10
    requires d2 == c12 + W * c13 + W2 * c14 + W3 * c15 + W6 * c9 + W7 * c11
    requires d3 == c13 + W * c14 + W2 * c15 + W3 * c8 + W4 * c9 + W5 * c10 + W7 * c12
    requires d4 == c14 + W * c15 + W3 * c9 + W4 * c10 + W5 * c11 + W7 * c13
    ensures W8 * (c8 + W * c9 + W2 * c10 + W3 * c11 + W4 * c12 + W5 * c13 + W6 * c14 + W7 * c15)
         == 2 * s1 + 2 * s2 + s3 + s4 - d1 - d2 - d3 - d4
            + FipsQuotient(c8, c9, c10, c11, c12, c13, c14, c15) * P
  {
  }

  /** Sixteen words and their FIPS sum differ by a multiple of P. */
  lemma FipsCongruence(c: seq<Word>) returns (q: int)
    requires |c| == 16
    ensures Num(c, 16) == FipsSum(c) + q * P
  {
    q := FipsQuotient(c[8], c[9], c[10], c[11], c[12], c[13], c[14], c[15]);
    NumSixteen(c);
    assert Num(S1(c), 8) == W3 * c[11] + W4 * c[12] + W5 * c[13] + W6 * c[14] + W7 * c[15] by { NumEight(S1(c)); }
    assert Num(S2(c), 8) == W3 * c[12] + W4 * c[13] + W5 * c[14] + W6 * c[15] by { NumEight(S2(c)); }
    assert Num(S3(c), 8) == c[8] + W * c[9] + W2 * c[10] + W6 * c[14] + W7 * c[15] by { NumEight(S3(c)); }
    assert Num(S4(c), 8) == c[9] + W * c[10] + W2 * c[11] + W3 * c[13] + W4 * c[14] + W5 * c[15] + W6 * c[13] + W7 * c[8] by { NumEight(S4(c)); }
    assert Num(D1(c), 8) == c[11] + W * c[12] + W2 * c[13] + W6 * c[8] + W7 * c[10] by { NumEight(D1(c)); }
    assert Num(D2(c), 8) == c[12] + W * c[13] + W2 * c[14] + W3 * c[15] + W6 * c[9] + W7 * c[11] by { NumEight(D2(c)); }
    assert Num(D3(c), 8) == c[13] + W * c[14] + W2 * c[15] + W3 * c[8] + W4 * c[9] + W5 * c[10] + W7 * c[12] by { NumEight(D3(c)); }
    assert Num(D4(c), 8) == c[14] + W * c[15] + W3 * c[9] + W4 * c[10] + W5 * c[11] + W7 * c[13] by { NumEight(D4(c)); }
    FipsIdentity(c[8], c[9], c[10], c[11], c[12], c[13], c[14], c[15],
                 Num(S1(c), 8), Num(S2(c), 8), Num(S3(c), 8), Num(S4(c), 8),
                 Num(D1(c), 8), Num(D2(c), 8), Num(D3(c), 8), Num(D4(c), 8));
  }

  /** Doubling a number whose low three words are zero leaves them zero. */
  lemma LowWordsStayZero(s: seq<Word>, t: seq<Word>, carry: int)
    requires |s| == 8 && |t| == 8
    requires s[0] == 0 && s[1] == 0 && s[2] == 0
    requires Num(t, 8) + carry * W8 == 2 * Num(s, 8)
    ensures t[0] == 0 && t[1] == 0 && t[2] == 0
  {
    NumEight(s);
    NumEight(t);
    var high := t[3] + W * t[4] + W2 * t[5] + W3 * t[6] + W4 * t[7] + carry * W5
                - 2 * (s[3] + W * s[4] + W2 * s[5] + W3 * s[6] + W4 * s[7]);
    assert t[0] + W * t[1] + W2 * t[2] == -W3 * high;
  }

  /** Eight assignments to tmp. */
  method Fill(tmp: array<Word>, w0: Word, w1: Word, w2: Word, w3: Word, w4: Word, w5: Word, w6: Word, w7: Word)
    requires tmp.Length == 8
    modifies tmp
    ensures tmp[..] == [w0, w1, w2, w3, w4, w5, w6, w7]
  {
    tmp[0], tmp[1], tmp[2], tmp[3] := w0, w1, w2, w3;
    tmp[4], tmp[5], tmp[6], tmp[7] := w4, w5, w6, w7;
  }

  /** s2 assigns only the upper five words: the lower three are still zero after doubling s1. */
  method FillUpper(tmp: array<Word>, w3: Word, w4: Word, w5: Word, w6: Word, w7: Word)
    requires tmp.Length == 8
    modifies tmp
    ensures tmp[..] == [old(tmp[0]), old(tmp[1]), old(tmp[2]), w3, w4, w5, w6, w7]
  {
    tmp[3], tmp[4], tmp[5], tmp[6], tmp[7] := w3, w4, w5, w6, w7;
  }

  /** The part of `vli_mmod_fast` that adds up t, s1, s2, s3 and s4. */
  method AddTerms(result: array<Word>, product: array<Word>, tmp: array<Word>) returns (carry: int)
    requires result.Length == 8 && product.Length == 16 && tmp.Length == 8
    requires tmp != result
    modifies result, tmp
    ensures 0 <= V(result) < W8
    ensures var c := product[..];
      carry * W8 + V(result)
      == Num(c, 8) + 2 * Num(S1(c), 8) + 2 * Num(S2(c), 8) + Num(S3(c), 8) + Num(S4(c), 8)
  {
    ghost var c := product[..];
    // t
    VliSet(result, 0, product);
    WholeSegment(result);
    NumFrame(product[0..8], c, 8);
    // s1
    Fill(tmp, 0, 0, 0, product[11], product[12], product[13], product[14], product[15]);
    assert tmp[..] == S1(c);
    carry := Add8(tmp, tmp, tmp);
    LowWordsStayZero(S1(c), tmp[..], carry);
    var more := Add8(result, result, tmp);
    carry := carry + more;
    // s2
    FillUpper(tmp, product[12], product[13], product[14], product[15], 0);
    assert tmp[..] == S2(c);
    more := Add8(tmp, tmp, tmp);
    carry := carry + more;
    more := Add8(result, result, tmp);
    carry := carry + more;
    // s3
    Fill(tmp, product[8], product[9], product[10], 0, 0, 0, product[14], product[15]);
    assert tmp[..] == S3(c);
    more := Add8(result, result, tmp);
    carry := carry + more;
    // s4
    Fill(tmp, product[9], product[10], product[11], product[13], product[14], product[15], product[13], product[8]);
    assert tmp[..] == S4(c);
    more := Add8(result, result, tmp);
    carry := carry + more;
  }

  /** The part of `vli_mmod_fast` that takes away d1, d2, d3 and d4. */
  method SubtractTerms(result: array<Word>, product: array<Word>, tmp: array<Word>, start: int) returns (carry: int)
    requires result.Length == 8 && product.Length == 16 && tmp.Length == 8
    requires tmp != result
    modifies result, tmp
    ensures 0 <= V(result) < W8
    ensures var c := product[..];
      carry * W8 + V(result)
      == start * W8 + old(V(result)) - Num(D1(c), 8) - Num(D2(c), 8) - Num(D3(c), 8) - Num(D4(c), 8)
  {
    ghost var c := product[..];
    // d1
    Fill(tmp, product[11], product[12], product[13], 0, 0, 0, product[8], product[10]);
    assert tmp[..] == D1(c);
    var more := Sub8(result, result, tmp);
    carry := start - more;
    // d2
    Fill(tmp, product[12], product[13], product[14], product[15], 0, 0, product[9], product[11]);
    assert tmp[..] == D2(c);
    more := Sub8(result, result, tmp);
    carry := carry - more;
    // d3
    Fill(tmp, product[13], product[14], product[15], product[8], product[9], product[10], 0, product[12]);
    assert tmp[..] == D3(c);
    more := Sub8(result, result, tmp);
    carry := carry - more;
    // d4
    Fill(tmp, product[14], product[15], 0, product[9], product[10], product[11], 0, product[13]);
    assert tmp[..] == D4(c);
    more := Sub8(result, result, tmp);
    carry := carry - more;
  }

  /** The correction loops: they end with the residue of carry * 2^256 + result, and no carry. */
  method CorrectResult(result: array<Word>, start: int)
    requires result.Length == 8
    modifies result
    ensures V(result) == (start * W8 + old(V(result))) % P
  {
    var curveP := CurveP();
    var carry := start;
    ValueBound(result);
    ghost var x, q := start * W8 + V(result), 0;
    if carry < 0 {
      while carry < 0
        invariant carry < 1 && 0 <= V(result) < W8 && V(curveP) == P
        invariant x == carry * W8 + V(result) + q * P
        invariant carry == 0 ==> V(result) < P
        decreases -(carry * W8 + V(result))
      {
        var more := Add8(result, result, curveP);
        carry := carry + more;
        q := q - 1;
      }
    } else {
      var sign := VliCmp(curveP, result);
      while carry != 0 || sign != 1
        invariant carry >= 0 && 0 <= V(result) < W8 && V(curveP) == P
        invariant sign == 1 <==> V(result) < P
        invariant x == carry * W8 + V(result) + q * P
        decreases carry * W8 + V(result)
      {
        var more := Sub8(result, result, curveP);
        carry := carry - more;
        q := q + 1;
        sign := VliCmp(curveP, result);
      }
    }
    ModUnique(x, q, V(result), P);
  }

  /** result = product % P. */
  method VliMmodFast(result: array<Word>, product: array<Word>)
    requires result.Length == 8 && product.Length == 16
    modifies result
    ensures V(result) == V(product) % P
  {
    var tmp := new Word[8];
    ghost var c := product[..];
    var carry := AddTerms(result, product, tmp);
    carry := SubtractTerms(result, product, tmp, carry);
    ghost var q := FipsCongruence(c);
    Witness(P, Num(c, 16) - FipsSum(c), q);
    CongIffMod(Num(c, 16), FipsSum(c), P);
    CorrectResult(result, carry);
  }

  // ----- The field operations, as functions on residues -----

  function MulP(x: int, y: int): (r: int)
    ensures 0 <= r < P
  {
    (x * y) % P
  }

  function SubP(x: int, y: int): (r: int)
    ensures 0 <= r < P
  {
    (x - y) % P
  }

  function AddP(x: int, y: int): (r: int)
    ensures 0 <= r < P
  {
    (x + y) % P
  }

  /** result = (left * right) % P for any two 256-bit numbers; result may be left or right. */
  method VliModMultFast(result: array<Word>, left: array<Word>, right: array<Word>)
    requires result.Length == 8 && left.Length == 8 && right.Length == 8
    modifies result
    ensures V(result) == MulP(old(V(left)), old(V(right)))
  {
    var product := new Word[16];
    VliMult(product, left, right);
    VliMmodFast(result, product);
  }

  /** result = left^2 % P. */
  method VliModSquareFast(result: array<Word>, left: array<Word>)
    requires result.Length == 8 && left.Length == 8
    modifies result
    ensures V(result) == MulP(old(V(left)), old(V(left)))
  {
    VliModMultFast(result, left, left);
  }

  /** vli_modSub with the modulus curve_p. */
  method VliModSubFast(result: array<Word>, left: array<Word>, right: array<Word>)
    requires result.Length == 8 && left.Length == 8 && right.Length == 8
    requires V(left) < P && V(right) < P
    modifies result
    ensures V(result) == SubP(old(V(left)), old(V(right)))
  {
    var curveP := CurveP();
    VliModSub(result, left, right, curveP);
  }

  /** vli_modAdd with the modulus curve_p. */
  method VliModAddFast(result: array<Word>, left: array<Word>, right: array<Word>)
    requires result.Length == 8 && left.Length == 8 && right.Length == 8
    requires V(left) < P && V(right) < P
    modifies result
    ensures V(result) == AddP(old(V(left)), old(V(right)))
  {
    var curveP := CurveP();
    VliModAdd(result, left, right, curveP);
  }
}
