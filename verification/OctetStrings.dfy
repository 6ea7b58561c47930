/**
 `vli_nativeToBytes` and `vli_bytesToNative`: little-endian words and big-endian octet strings
 (SEC 1, sections 2.3.7 and 2.3.8).
 */
module OctetStrings {
  import opened Bits
  import opened Words

  type Byte = x: int | 0 <= x < 256

  /** The number denoted by a big-endian octet string. */
  function BigEndian(s: seq<Byte>): nat {
    if s == [] then 0 else 256 * BigEndian(s[..|s| - 1]) + s[|s| - 1]
  }

  /** The octets are its digits in base 256, the most significant first. */
  lemma {:induction false} OctetIsDigit(s: seq<Byte>, i: nat)
    requires i < |s|
    ensures s[i] == Prefix(BigEndian(s), 8 * (|s| - 1 - i)) % 256
    ensures Prefix(BigEndian(s), 8 * |s|) == 0
    decreases |s|
  {
    var n := |s| - 1;
    if i < n {
      OctetIsDigit(s[..n], i);
      PrefixPrefix(BigEndian(s), 8, 8 * (n - 1 - i));
    } else if n > 0 {
      OctetIsDigit(s[..n], 0);
    }
    PrefixPrefix(BigEndian(s), 8, 8 * n);
    EightHalves(BigEndian(s));
  }

  lemma EightHalves(x: int)
    ensures Prefix(x, 8) == x / 256
  {
    assert Prefix(x, 2) == Prefix(x, 1) / 2 == x / 4;
    assert Prefix(x, 4) == Prefix(x, 3) / 2 == x / 16;
    assert Prefix(x, 6) == Prefix(x, 5) / 2 == x / 64;
    assert Prefix(x, 8) == Prefix(x, 7) / 2;
  }

  function FourOctets(d0: Byte, d1: Byte, d2: Byte, d3: Byte): Word {
    0x100_0000 * d0 + 0x1_0000 * d1 + 0x100 * d2 + d3
  }

  /** The octets at off stand for the words from i upwards reversed: word i is at off + 4 * (7 - i). */
  predicate HoldsWord(s: seq<Byte>, w: seq<Word>, i: nat)
    requires |s| == 32 && |w| == 8 && i < 8
  {
    var d := 4 * (7 - i);
    w[i] == FourOctets(s[d], s[d + 1], s[d + 2], s[d + 3])
  }

  lemma LastOctet(s: seq<Byte>, n: nat)
    requires 1 <= n <= |s|
    ensures BigEndian(s[..n]) == 256 * BigEndian(s[..n - 1]) + s[n - 1]
  {
    assert s[..n][..n - 1] == s[..n - 1];
  }

  lemma LastFour(s: seq<Byte>, n: nat)
    requires 4 <= n <= |s|
    ensures BigEndian(s[..n]) == W * BigEndian(s[..n - 4]) + FourOctets(s[n - 4], s[n - 3], s[n - 2], s[n - 1])
  {
    LastOctet(s, n);
    LastOctet(s, n - 1);
    LastOctet(s, n - 2);
    LastOctet(s, n - 3);
  }

  lemma {:induction false} OctetsAreWords(s: seq<Byte>, w: seq<Word>, i: nat)
    requires |s| == 32 && |w| == 8 && i <= 8
    requires forall j {:trigger HoldsWord(s, w, j)} :: 0 <= j < 8 ==> HoldsWord(s, w, j)
    ensures BigEndian(s[..4 * (8 - i)]) == High(w, i)
    decreases 8 - i
  {
    if i < 8 {
      var n := 4 * (8 - i);
      OctetsAreWords(s, w, i + 1);
      LastFour(s, n);
      assert HoldsWord(s, w, i) && n - 4 == 4 * (7 - i) == 4 * (8 - (i + 1));
      assert High(w, i) == w[i] + W * High(w, i + 1);
    }
  }

  /** Octets that hold the words denote the same number. */
  lemma SameNumber(s: seq<Byte>, w: seq<Word>)
    requires |s| == 32 && |w| == 8
    requires forall j {:trigger HoldsWord(s, w, j)} :: 0 <= j < 8 ==> HoldsWord(s, w, j)
    ensures BigEndian(s) == Num(w, 8)
  {
    OctetsAreWords(s, w, 0);
    assert s[..32] == s;
    HighIsNum(w);
  }

  /** Octet strings of the same length that denote the same number are the same. */
  lemma {:induction false} OctetsInjective(s: seq<Byte>, t: seq<Byte>)
    requires |s| == |t| && BigEndian(s) == BigEndian(t)
    ensures s == t
  {
    if s != [] {
      var a, b := s[..|s| - 1], t[..|t| - 1];
      var c: int, d: int := s[|s| - 1], t[|t| - 1];
      assert (BigEndian(a) - BigEndian(b)) * 256 == d - c;
      OctetsInjective(a, b);
      assert s == a + [s[|s| - 1]] && t == b + [t[|t| - 1]];
    }
  }

  /** Value preserving, so mutually inverse: each side is determined by the other. */
  lemma RoundTrip(s: seq<Byte>, w: seq<Word>, s': seq<Byte>, w': seq<Word>)
    requires |s| == |s'| == 32 && |w| == |w'| == 8 && BigEndian(s) == Num(w, 8)
    ensures BigEndian(s') == Num(w, 8) ==> s' == s
    ensures BigEndian(s) == Num(w', 8) ==> w' == w
  {
    if BigEndian(s') == Num(w, 8) {
      OctetsInjective(s', s);
    }
    if BigEndian(s) == Num(w', 8) {
      NumInjective(w, w', 8);
    }
  }

  method VliNativeToBytes(bytes: array<Byte>, off: nat, native: array<Word>)
    requires off + 32 <= bytes.Length && native.Length == 8
    modifies bytes
    ensures BigEndian(bytes[off..off + 32]) == V(native)
    ensures forall k :: 0 <= k < bytes.Length && !(off <= k < off + 32) ==> bytes[k] == old(bytes[k])
  {
    var i := 0;
    while i < 8
      invariant 0 <= i <= 8
      invariant forall k :: 0 <= k < bytes.Length && !(off <= k < off + 32) ==> bytes[k] == old(bytes[k])
      invariant forall j {:trigger HoldsWord(bytes[off..off + 32], native[..], j)} :: 0 <= j < i ==>
        HoldsWord(bytes[off..off + 32], native[..], j)
    {
      var digit := off + 4 * (7 - i);
      ghost var before := bytes[off..off + 32];
      bytes[digit] := native[i] / 0x100_0000;
      bytes[digit + 1] := native[i] / 0x1_0000 % 256;
      bytes[digit + 2] := native[i] / 0x100 % 256;
      bytes[digit + 3] := native[i] % 256;
      ghost var after := bytes[off..off + 32];
      WordOfDigits(native[i]);
      forall j | 0 <= j < i ensures HoldsWord(after, native[..], j) {
        assert HoldsWord(before, native[..], j);
      }
      i := i + 1;
    }
    SameNumber(bytes[off..off + 32], native[..]);
  }

  lemma WordOfDigits(w: Word)
    ensures FourOctets(w / 0x100_0000, w / 0x1_0000 % 256, w / 0x100 % 256, w % 256) == w
  {
    var high: int := w / 0x100;
    var higher := high / 0x100;
    assert w / 0x1_0000 == higher && w / 0x100_0000 == higher / 0x100;
  }

  method VliBytesToNative(native: array<Word>, bytes: array<Byte>, off: nat)
    requires off + 32 <= bytes.Length && native.Length == 8
    modifies native
    ensures V(native) == BigEndian(bytes[off..off + 32])
  {
    ghost var s := bytes[off..off + 32];
    var i := 0;
    while i < 8
      invariant 0 <= i <= 8
      invariant forall j {:trigger HoldsWord(s, native[..], j)} :: 0 <= j < i ==> HoldsWord(s, native[..], j)
    {
      var digit := off + 4 * (7 - i);
      ghost var before := native[..];
      native[i] := FourOctets(bytes[digit], bytes[digit + 1], bytes[digit + 2], bytes[digit + 3]);
      forall j | 0 <= j < i ensures HoldsWord(s, native[..], j) {
        assert HoldsWord(s, before, j);
      }
      i := i + 1;
    }
    SameNumber(s, native[..]);
  }
}
