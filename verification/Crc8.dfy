/** `nfc_crc8`: the CRC with generator x^8 + x^2 + x + 1, high bit first. */
module Crc8 {
  import opened Bits
  import opened BinaryPolynomials
  import opened OctetStrings

  // ----- Exclusive or -----

  ghost predicate On(x: int, i: nat) {
    Bit(x, i) == 1
  }

  lemma DoubledEight(x: int)
    ensures Doubled(x, 7) == 128 * x && Doubled(x, 8) == 256 * x
  {
    assert Doubled(x, 2) == 2 * Doubled(x, 1);
    assert Doubled(x, 4) == 2 * Doubled(x, 3);
    assert Doubled(x, 6) == 2 * Doubled(x, 5);
  }

  function Xor(a: Byte, b: Byte): (r: Byte) {
    DoubledEight(1);
    SumBelow(a, b, 8);
    Sum(a, b)
  }

  lemma XorBit(a: Byte, b: Byte, i: nat)
    requires i < 8
    ensures On(Xor(a, b), i) <==> On(a, i) != On(b, i)
  {
    SumDigit(a, b, i);
  }

  lemma XorBits()
    ensures forall a: Byte, b: Byte, i: nat {:trigger On(Xor(a, b), i)} :: i < 8 ==>
      (On(Xor(a, b), i) <==> On(a, i) != On(b, i))
  {
    forall a: Byte, b: Byte, i: nat | i < 8 ensures On(Xor(a, b), i) <==> On(a, i) != On(b, i) {
      XorBit(a, b, i);
    }
  }

  /** Bytes with the same eight bits are equal. */
  lemma Extensional(x: Byte, y: Byte)
    requires forall i: nat :: i < 8 ==> (On(x, i) <==> On(y, i))
    ensures x == y
  {
    DoubledEight(1);
    PrefixVanishes(x, 8);
    PrefixVanishes(y, 8);
    SamePrefix(x, y, 8);
  }

  lemma {:induction false} SamePrefix(x: int, y: int, k: nat)
    requires Prefix(x, k) == Prefix(y, k)
    requires forall i: nat :: i < k ==> (On(x, i) <==> On(y, i))
    ensures x == y
  {
    if k > 0 {
      assert On(x, k - 1) <==> On(y, k - 1);
      SamePrefix(x, y, k - 1);
    }
  }

  lemma XorLaws(a: Byte, b: Byte, c: Byte, d: Byte)
    ensures Xor(Xor(a, b), Xor(c, d)) == Xor(Xor(a, c), Xor(b, d))
    ensures Xor(a, b) == Xor(b, a) && Xor(a, a) == 0
  {
    XorBits();
    forall i: nat ensures !On(0, i) {
      NoBits(i);
    }
    Extensional(Xor(Xor(a, b), Xor(c, d)), Xor(Xor(a, c), Xor(b, d)));
    Extensional(Xor(a, b), Xor(b, a));
    Extensional(Xor(a, a), 0);
  }

  lemma {:induction false} NoBits(i: nat)
    ensures Prefix(0, i) == 0
  {
    if i > 0 {
      NoBits(i - 1);
    }
  }

  lemma XorCancel(a: Byte, b: Byte, c: Byte)
    requires Xor(a, c) == Xor(b, c)
    ensures a == b
  {
    forall i: nat | i < 8 ensures On(a, i) <==> On(b, i) {
      XorBit(a, c, i);
      XorBit(b, c, i);
    }
    Extensional(a, b);
  }

  // ----- The CRC -----

  /** One bit of the division. */
  function Round(crc: Byte): Byte {
    if crc >= 0x80 then Xor(2 * crc % 256, 7) else 2 * crc
  }

  function Rounds(crc: Byte, n: nat): Byte {
    if n == 0 then crc else Round(Rounds(crc, n - 1))
  }

  /** The remainder of a message. */
  function Crc(s: seq<Byte>): Byte {
    if s == [] then 0 else Rounds(Xor(Crc(s[..|s| - 1]), s[|s| - 1]), 8)
  }

  method NfcCrc8(data: seq<Byte>) returns (crc: Byte)
    ensures crc == Crc(data)
    ensures forall r: Byte {:trigger Leaves(256 * BigEndian(data), 0x107, r)} ::
      Leaves(256 * BigEndian(data), 0x107, r) <==> r == crc
  {
    crc := 0;
    var i := 0;
    while i < |data|
      invariant 0 <= i <= |data|
      invariant crc == Crc(data[..i])
    {
      crc := Xor(crc, data[i]);
      ghost var start := crc;
      var b := 0;
      while b < 8
        invariant 0 <= b <= 8
        invariant crc == Rounds(start, b)
      {
        crc := if crc >= 0x80 then Xor(2 * crc % 256, 7) else 2 * crc;
        b := b + 1;
      }
      assert data[..i + 1][..i] == data[..i];
      i := i + 1;
    }
    assert data[..i] == data;
    OnlyRemainder(data);
  }

  // ----- The CRC is the remainder -----

  const GENERATOR := 0x107

  lemma GeneratorSize()
    ensures Doubled(1, 8) == 256 && Doubled(1, 9) == 512
  {
    DoubledEight(1);
    assert Doubled(1, 9) == 2 * Doubled(1, 8);
  }

  /** A round takes the remainder of m to that of m * x. */
  lemma RoundLeaves(m: nat, g: nat, crc: Byte)
    requires g == GENERATOR && Leaves(m, g, crc)
    ensures Leaves(2 * m, g, Round(crc))
  {
    RoundDivides(crc, g, Round(crc));
    ShiftLeaves(m, g, crc, crc >= 0x80, Round(crc));
  }

  lemma ShiftLeaves(m: nat, g: nat, c: nat, b: bool, r: nat)
    requires Leaves(m, g, c) && Sum(if b then g else 0, r) == 2 * c
    ensures Leaves(2 * m, g, r)
  {
    var q: nat :| Sum(Product(q, g), c) == m;
    var x := 2 * Product(q, g);
    SumDoubled(Product(q, g), c);
    SumAssociates(x, if b then g else 0, r);
    SumZero(x);
    OddProduct(q, g);
    EvenProduct(q, g);
    var p := if b then 2 * q + 1 else 2 * q;
    assert Sum(Product(p, g), r) == 2 * m;
  }

  lemma RoundAdds(c: Byte, low: nat, seven: nat)
    requires c >= 0x80 && low == 2 * c - 256 && seven == 7
    ensures Round(c) == Sum(low, seven)
  {
  }

  lemma RoundDivides(c: Byte, g: nat, r: nat)
    requires g == GENERATOR && r == Round(c)
    ensures Sum(if c >= 0x80 then g else 0, r) == 2 * c
  {
    if c >= 0x80 {
      var seven: nat, high: nat :| seven == 7 && high == 256;
      TopTerm(c, g, seven, high, 2 * c - 256);
      RoundAdds(c, 2 * c - 256, seven);
    } else {
      SumZero(r);
    }
  }

  lemma OddProduct(q: nat, g: nat)
    ensures Product(2 * q + 1, g) == Sum(2 * Product(q, g), g)
  {
    ProductStep(2 * q + 1, g);
  }

  lemma EvenProduct(q: nat, g: nat)
    ensures Product(2 * q, g) == 2 * Product(q, g)
  {
    ProductStep(2 * q, g);
    SumZero(2 * Product(q, g));
  }

  /** x^8 and the rest of the generator cancel the digit that is shifted out. */
  lemma TopTerm(c: Byte, g: nat, seven: nat, high: nat, low: nat)
    requires c >= 0x80 && g == 0x107 && seven == 7 && high == 256 && low == 2 * c - 256
    ensures Sum(g, Sum(low, seven)) == 2 * c
  {
    var one := high / 256;
    DoubledEight(one);
    DoubledEight(1);
    SumDisjoint(one, seven, 8, high);
    SumDisjoint(one, low, 8, high);
    SumCommutes(low, seven);
    SumAssociates(high, seven, Sum(seven, low));
    SumAssociates(seven, seven, low);
    SumZero(seven);
    SumZero(low);
  }

  lemma {:induction false} RoundsLeave(m: nat, g: nat, crc: Byte, n: nat)
    requires g == GENERATOR && Leaves(m, g, crc)
    ensures Doubled(m, n) >= 0 && Leaves(Doubled(m, n), g, Rounds(crc, n))
  {
    if n > 0 {
      RoundsLeave(m, g, crc, n - 1);
      RoundLeaves(Doubled(m, n - 1), g, Rounds(crc, n - 1));
    }
  }

  /** The next byte is added below. */
  lemma ByteLeaves(m: nat, g: nat, crc: Byte, d: Byte)
    requires Leaves(256 * m, g, crc)
    ensures Leaves(256 * m + d, g, Xor(crc, d))
  {
    var q: nat :| Sum(Product(q, g), crc) == 256 * m;
    DoubledEight(m);
    DoubledEight(1);
    SumDisjoint(m, d, 8, 256 * m);
    SumAssociates(Product(q, g), crc, d);
  }

  lemma {:induction false} CrcLeaves(s: seq<Byte>, g: nat)
    requires g == GENERATOR
    ensures Leaves(256 * BigEndian(s), g, Crc(s))
  {
    if s == [] {
      assert Sum(Product(0, g), 0) == 0;
    } else {
      var s', d := s[..|s| - 1], s[|s| - 1];
      CrcLeaves(s', g);
      ByteLeaves(BigEndian(s'), g, Crc(s'), d);
      DoubledEight(BigEndian(s));
      RoundsLeave(BigEndian(s), g, Xor(Crc(s'), d), 8);
    }
  }

  /**
   The message, as a binary number with the high bit first, times x^8 leaves the CRC when it is
   divided by x^8 + x^2 + x + 1, and no other byte.
   */
  lemma CrcIsRemainder(s: seq<Byte>, r: Byte)
    ensures Leaves(256 * BigEndian(s), 0x107, r) <==> r == Crc(s)
  {
    CrcLeaves(s, GENERATOR);
    GeneratorSize();
    if Leaves(256 * BigEndian(s), 0x107, r) {
      LeavesOne(256 * BigEndian(s), 0x107, r, Crc(s), 8);
    }
  }

  lemma OnlyRemainder(s: seq<Byte>)
    ensures forall r: Byte {:trigger Leaves(256 * BigEndian(s), 0x107, r)} ::
      Leaves(256 * BigEndian(s), 0x107, r) <==> r == Crc(s)
  {
    forall r: Byte ensures Leaves(256 * BigEndian(s), 0x107, r) <==> r == Crc(s) {
      CrcIsRemainder(s, r);
    }
  }

  lemma TopBit(crc: Byte)
    ensures On(crc, 7) <==> crc >= 128
  {
    var t := if crc >= 128 then 1 else 0;
    DoubledEight(t);
    DoubledEight(1);
    PrefixOfSum(crc - 128 * t, t, 7, 7);
    PrefixVanishes(crc - 128 * t, 7);
  }

  lemma ShiftedBit(crc: Byte, i: nat)
    requires i < 8
    ensures On(2 * crc % 256, i) <==> i > 0 && On(crc, i - 1)
  {
    var t := if crc >= 128 then 1 else 0;
    DoubledEight(t);
    BitOfSum(2 * crc % 256, t, 8, i);
    assert 2 * crc == 2 * crc % 256 + 256 * t;
    if i > 0 {
      PrefixPrefix(2 * crc, 1, i - 1);
      assert Prefix(2 * crc, 1) == Prefix(2 * crc, 0) / 2 == crc;
    }
  }

  lemma SevenBit(i: nat)
    ensures On(7, i) <==> i < 3
  {
    assert Prefix(7, 1) == Prefix(7, 0) / 2 == 3;
    assert Prefix(7, 2) == Prefix(7, 1) / 2 == 1;
    assert Prefix(7, 3) == Prefix(7, 2) / 2 == 0;
    if i >= 3 {
      PrefixPrefix(7, 3, i - 3);
      NoBits(i - 3);
    }
  }

  lemma RoundBit(crc: Byte, i: nat)
    requires i < 8
    ensures On(Round(crc), i) <==> (i > 0 && On(crc, i - 1)) != (i < 3 && On(crc, 7))
  {
    TopBit(crc);
    ShiftedBit(crc, i);
    SevenBit(i);
    XorBit(2 * crc % 256, 7, i);
    if crc < 0x80 {
      assert 2 * crc % 256 == 2 * crc;
    }
  }

  // ----- Linearity -----

  function XorAll(s: seq<Byte>, t: seq<Byte>): (r: seq<Byte>)
    requires |s| == |t|
    ensures |r| == |s|
  {
    if s == [] then [] else XorAll(s[..|s| - 1], t[..|t| - 1]) + [Xor(s[|s| - 1], t[|t| - 1])]
  }

  lemma RoundLinear(x: Byte, y: Byte)
    ensures Round(Xor(x, y)) == Xor(Round(x), Round(y))
  {
    forall i: nat | i < 8 ensures On(Round(Xor(x, y)), i) <==> On(Xor(Round(x), Round(y)), i) {
      XorBit(Round(x), Round(y), i);
      XorBit(x, y, i);
      XorBit(x, y, 7);
      XorBit(x, y, if i > 0 then i - 1 else 0);
      RoundBit(x, i);
      RoundBit(y, i);
      RoundBit(Xor(x, y), i);
    }
    Extensional(Round(Xor(x, y)), Xor(Round(x), Round(y)));
  }

  lemma {:induction false} RoundsLinear(x: Byte, y: Byte, n: nat)
    ensures Rounds(Xor(x, y), n) == Xor(Rounds(x, n), Rounds(y, n))
  {
    if n > 0 {
      RoundsLinear(x, y, n - 1);
      RoundLinear(Rounds(x, n - 1), Rounds(y, n - 1));
    }
  }

  lemma {:induction false} CrcLinear(s: seq<Byte>, t: seq<Byte>)
    requires |s| == |t|
    ensures Crc(XorAll(s, t)) == Xor(Crc(s), Crc(t))
  {
    if s == [] {
      XorLaws(0, 0, 0, 0);
    } else {
      var s', t', x, y := s[..|s| - 1], t[..|t| - 1], s[|s| - 1], t[|t| - 1];
      CrcLinear(s', t');
      assert XorAll(s, t)[..|s| - 1] == XorAll(s', t');
      XorLaws(Crc(s'), Crc(t'), x, y);
      RoundsLinear(Xor(Crc(s'), x), Xor(Crc(t'), y), 8);
    }
  }

  // ----- Detection -----

  lemma RoundInjective(x: Byte, y: Byte)
    requires Round(x) == Round(y)
    ensures x == y
  {
    RoundBit(x, 0);
    RoundBit(y, 0);
    forall i: nat | i < 8 ensures On(x, i) <==> On(y, i) {
      if i < 7 {
        RoundBit(x, i + 1);
        RoundBit(y, i + 1);
      }
    }
    Extensional(x, y);
  }

  lemma {:induction false} RoundsInjective(x: Byte, y: Byte, n: nat)
    requires Rounds(x, n) == Rounds(y, n)
    ensures x == y
  {
    if n > 0 {
      RoundInjective(Rounds(x, n - 1), Rounds(y, n - 1));
      RoundsInjective(x, y, n - 1);
    }
  }

  lemma {:induction false} RoundsZero(n: nat)
    ensures Rounds(0, n) == 0
  {
    if n > 0 {
      RoundsZero(n - 1);
    }
  }

  /** A message followed by its CRC leaves no remainder. */
  lemma CrcOfSealed(s: seq<Byte>)
    ensures Crc(s + [Crc(s)]) == 0
  {
    assert (s + [Crc(s)])[..|s|] == s;
    XorLaws(Crc(s), 0, 0, 0);
    RoundsZero(8);
  }

  /** Any change confined to one byte changes the CRC. */
  lemma {:induction false} OneByteDetected(s: seq<Byte>, t: seq<Byte>, k: nat)
    requires |s| == |t| && k < |s| && s[k] != t[k]
    requires forall i :: 0 <= i < |s| && i != k ==> s[i] == t[i]
    ensures Crc(s) != Crc(t)
  {
    if Crc(s) == Crc(t) {
      var s', t', x, y := s[..|s| - 1], t[..|t| - 1], s[|s| - 1], t[|t| - 1];
      RoundsInjective(Xor(Crc(s'), x), Xor(Crc(t'), y), 8);
      if k == |s| - 1 {
        assert s' == t';
        XorLaws(Crc(s'), x, 0, 0);
        XorLaws(Crc(s'), y, 0, 0);
        XorCancel(x, y, Crc(s'));
      } else {
        XorCancel(Crc(s'), Crc(t'), x);
        OneByteDetected(s', t', k);
      }
    }
  }
}
