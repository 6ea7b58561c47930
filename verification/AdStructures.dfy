/**
 Advertising data (Bluetooth Core Specification, Vol 3, Part C, section 11): a sequence of
 structures, each a length byte, a type byte and length - 1 bytes of data.
 */
module AdStructures {
  import opened OctetStrings

  datatype Ad = Ad(kind: Byte, data: seq<Byte>)

  /** The first structure of s is complete: what `ad_iterator_has_more` tests. */
  predicate Complete(s: seq<Byte>) {
    |s| >= 2 && s[0] != 0 && 1 + s[0] <= |s|
  }

  /** The structures the iterator visits. */
  function Structures(s: seq<Byte>): seq<Ad> {
    if !Complete(s) then [] else [Ad(s[1], s[2..1 + s[0]])] + Structures(s[1 + s[0]..])
  }

  /** What is left behind the last complete structure. */
  function Rest(s: seq<Byte>): seq<Byte> {
    if !Complete(s) then s else Rest(s[1 + s[0]..])
  }

  predicate Fits(ad: Ad) {
    |ad.data| <= 254
  }

  predicate AllFit(ads: seq<Ad>) {
    forall i :: 0 <= i < |ads| ==> Fits(ads[i])
  }

  function Encode(ad: Ad): seq<Byte>
    requires Fits(ad)
  {
    [|ad.data| + 1, ad.kind] + ad.data
  }

  function EncodeAll(ads: seq<Ad>): seq<Byte>
    requires AllFit(ads)
  {
    if ads == [] then [] else Encode(ads[0]) + EncodeAll(ads[1..])
  }

  lemma {:induction false} StructuresFit(s: seq<Byte>)
    ensures AllFit(Structures(s))
    decreases |s|
  {
    if Complete(s) {
      StructuresFit(s[1 + s[0]..]);
    }
  }

  lemma EncodeCons(ad: Ad, ads: seq<Ad>)
    requires Fits(ad) && AllFit(ads)
    ensures AllFit([ad] + ads) && EncodeAll([ad] + ads) == Encode(ad) + EncodeAll(ads)
  {
    assert ([ad] + ads)[1..] == ads;
  }

  /** The visited structures are a prefix of s, and the longest: behind them no structure is complete. */
  lemma {:induction false} StructuresArePrefix(s: seq<Byte>)
    ensures AllFit(Structures(s)) && s == EncodeAll(Structures(s)) + Rest(s) && !Complete(Rest(s))
    decreases |s|
  {
    StructuresFit(s);
    if Complete(s) {
      var ad, t := Ad(s[1], s[2..1 + s[0]]), s[1 + s[0]..];
      StructuresArePrefix(t);
      FirstEncoded(s);
      assert Structures(s) == [ad] + Structures(t);
      EncodeCons(ad, Structures(t));
      Assemble(s, Encode(ad), t, EncodeAll(Structures(t)), Rest(t));
    }
  }

  lemma Assemble(s: seq<Byte>, first: seq<Byte>, t: seq<Byte>, more: seq<Byte>, rest: seq<Byte>)
    requires first <= s && s[|first|..] == t == more + rest
    ensures s == first + more + rest
  {
  }

  lemma FirstEncoded(s: seq<Byte>)
    requires Complete(s)
    ensures var ad := Ad(s[1], s[2..1 + s[0]]); Fits(ad) && Encode(ad) == s[..1 + s[0]]
  {
  }

  lemma FirstStructure(ad: Ad, t: seq<Byte>)
    requires Fits(ad)
    ensures var s := Encode(ad) + t;
      Complete(s) && s[1 + s[0]..] == t && Ad(s[1], s[2..1 + s[0]]) == ad
  {
    var s := Encode(ad) + t;
    assert s[2..1 + s[0]] == ad.data;
  }

  /** Any split of s into structures and an incomplete rest is the one the iterator finds. */
  lemma {:induction false} StructuresAreUnique(ads: seq<Ad>, t: seq<Byte>)
    requires AllFit(ads) && !Complete(t)
    ensures Structures(EncodeAll(ads) + t) == ads && Rest(EncodeAll(ads) + t) == t
  {
    if ads == [] {
      assert EncodeAll(ads) + t == t;
    } else {
      StructuresAreUnique(ads[1..], t);
      FirstStructure(ads[0], EncodeAll(ads[1..]) + t);
      assert EncodeAll(ads) + t == Encode(ads[0]) + (EncodeAll(ads[1..]) + t);
      assert ads == [ads[0]] + ads[1..];
    }
  }

  /** Every list of structures comes back. */
  lemma {:induction false} RoundTrip(ads: seq<Ad>)
    requires AllFit(ads)
    ensures Structures(EncodeAll(ads)) == ads
  {
    StructuresAreUnique(ads, []);
    assert EncodeAll(ads) + [] == EncodeAll(ads);
  }

  // ----- Service UUIDs -----

  function Reverse(s: seq<Byte>): (r: seq<Byte>)
    ensures |r| == |s|
    ensures forall i :: 0 <= i < |s| ==> r[i] == s[|s| - 1 - i]
  {
    seq(|s|, i requires 0 <= i < |s| => s[|s| - 1 - i])
  }

  type Uuid16 = x: int | 0 <= x < 0x1_0000

  /** A 16-bit UUID on the Bluetooth base UUID, most significant byte first. */
  function Expand(u: Uuid16): (r: seq<Byte>)
    ensures |r| == 16
  {
    var high: int, low: int := u / 256, u % 256;
    [0, 0, high, low, 0, 0, 0x10, 0, 0x80, 0, 0, 0x80, 0x5F, 0x9B, 0x34, 0xFB]
  }

  predicate Is16BitList(ad: Ad) {
    ad.kind == 0x02 || ad.kind == 0x03
  }

  predicate Is128BitList(ad: Ad) {
    ad.kind == 0x06 || ad.kind == 0x07
  }

  function Uuid16At(data: seq<Byte>, i: nat): Uuid16
    requires i + 2 <= |data|
  {
    var low: int, high: int := data[i], data[i + 1];
    low + 256 * high
  }

  /** The n-byte entries of data include x. */
  ghost predicate Has16(data: seq<Byte>, x: Uuid16) {
    exists j: nat :: 2 * j + 2 <= |data| && Uuid16At(data, 2 * j) == x
  }

  ghost predicate Has128(data: seq<Byte>, x: seq<Byte>) {
    exists j: nat :: 16 * j + 16 <= |data| && data[16 * j..16 * j + 16] == x
  }

  /** ad is a UUID list with the service u, short or expanded. */
  ghost predicate Lists(ad: Ad, u: Uuid16) {
    (Is16BitList(ad) && Has16(ad.data, u)) || (Is128BitList(ad) && Has128(ad.data, Reverse(Expand(u))))
  }

  /** In bytes: least significant first, and on the base UUID 00000000-0000-1000-8000-00805F9B34FB. */
  lemma ListsMeans(ad: Ad, u: Uuid16)
    ensures Lists(ad, u) <==>
      || (&& ad.kind in {0x02, 0x03}
          && exists j: nat :: 2 * j + 2 <= |ad.data| && ad.data[2 * j] == u % 256 && ad.data[2 * j + 1] == u / 256)
      || (&& ad.kind in {0x06, 0x07}
          && exists j: nat ::
               && 16 * j + 16 <= |ad.data|
               && ad.data[16 * j..16 * j + 16] ==
                    [0xFB, 0x34, 0x9B, 0x5F, 0x80, 0, 0, 0x80, 0, 0x10, 0, 0, u % 256, u / 256, 0, 0])
  {
    assert Reverse(Expand(u)) == [0xFB, 0x34, 0x9B, 0x5F, 0x80, 0, 0, 0x80, 0, 0x10, 0, 0, u % 256, u / 256, 0, 0];
    forall j: nat | 2 * j + 2 <= |ad.data|
      ensures Uuid16At(ad.data, 2 * j) == u <==> ad.data[2 * j] == u % 256 && ad.data[2 * j + 1] == u / 256
    {
      var low: int, high: int := ad.data[2 * j], ad.data[2 * j + 1];
      assert (low + 256 * high) % 256 == low && (low + 256 * high) / 256 == high;
    }
  }

  ghost predicate AnyLists(ads: seq<Ad>, u: Uuid16) {
    exists i :: 0 <= i < |ads| && Lists(ads[i], u)
  }

  // ----- The search for a 128-bit UUID -----

  /** The comparison the code makes with the entries of a 16-bit list: le is the reversed UUID. */
  ghost predicate HasExpanded(data: seq<Byte>, le: seq<Byte>) {
    exists j: nat :: 2 * j + 2 <= |data| && Expand(Uuid16At(data, 2 * j)) == le
  }

  ghost predicate Matches(ad: Ad, uuid128: seq<Byte>) {
    (Is16BitList(ad) && HasExpanded(ad.data, Reverse(uuid128))) || (Is128BitList(ad) && Has128(ad.data, Reverse(uuid128)))
  }

  /** In bytes: the entries of a 128-bit list read backwards, those of a 16-bit list expanded and compared forwards. */
  lemma MatchesMeans(ad: Ad, u: seq<Byte>)
    requires |u| == 16
    ensures var le := [u[15], u[14], u[13], u[12], u[11], u[10], u[9], u[8], u[7], u[6], u[5], u[4], u[3], u[2], u[1], u[0]];
      Matches(ad, u) <==>
        || (&& ad.kind in {0x02, 0x03}
            && exists j: nat ::
                 && 2 * j + 2 <= |ad.data|
                 && [0, 0, ad.data[2 * j + 1], ad.data[2 * j], 0, 0, 0x10, 0, 0x80, 0, 0, 0x80, 0x5F, 0x9B, 0x34, 0xFB] == le)
        || (&& ad.kind in {0x06, 0x07}
            && exists j: nat :: 16 * j + 16 <= |ad.data| && ad.data[16 * j..16 * j + 16] == le)
  {
    forall j: nat | 2 * j + 2 <= |ad.data|
      ensures Expand(Uuid16At(ad.data, 2 * j)) ==
        [0, 0, ad.data[2 * j + 1], ad.data[2 * j], 0, 0, 0x10, 0, 0x80, 0, 0, 0x80, 0x5F, 0x9B, 0x34, 0xFB]
    {
      var low: int, high: int := ad.data[2 * j], ad.data[2 * j + 1];
      assert (low + 256 * high) % 256 == low && (low + 256 * high) / 256 == high;
    }
    var le := [u[15], u[14], u[13], u[12], u[11], u[10], u[9], u[8], u[7], u[6], u[5], u[4], u[3], u[2], u[1], u[0]];
    assert Reverse(u) == le;
  }

  ghost predicate AnyMatches(ads: seq<Ad>, uuid128: seq<Byte>) {
    exists i :: 0 <= i < |ads| && Matches(ads[i], uuid128)
  }

  ghost predicate AnyListsLong(ads: seq<Ad>, u: Uuid16) {
    exists i :: 0 <= i < |ads| && Is128BitList(ads[i]) && Has128(ads[i].data, Reverse(Expand(u)))
  }

  ghost predicate AnyListsShort(ads: seq<Ad>, u: Uuid16) {
    exists i :: 0 <= i < |ads| && Is16BitList(ads[i]) && Has16(ads[i].data, u)
  }

  lemma ExpansionsNeverMeet(u: Uuid16, v: Uuid16)
    ensures Expand(u) != Reverse(Expand(v))
  {
    assert Expand(u)[0] == 0 && Reverse(Expand(v))[0] == Expand(v)[15] == 0xFB;
  }

  /**
   An expansion is compared with its own reverse, so for a service on the base UUID the entries
   of the 16-bit lists are never found: only the 128-bit lists count.
   */
  lemma ShortListsAreMissed(ads: seq<Ad>, u: Uuid16)
    ensures AnyMatches(ads, Expand(u)) <==> AnyListsLong(ads, u)
  {
    forall i | 0 <= i < |ads| ensures !HasExpanded(ads[i].data, Reverse(Expand(u))) {
      forall j: nat | 2 * j + 2 <= |ads[i].data| ensures Expand(Uuid16At(ads[i].data, 2 * j)) != Reverse(Expand(u)) {
        ExpansionsNeverMeet(Uuid16At(ads[i].data, 2 * j), u);
      }
    }
    if AnyListsLong(ads, u) {
      var i :| 0 <= i < |ads| && Is128BitList(ads[i]) && Has128(ads[i].data, Reverse(Expand(u)));
      assert Matches(ads[i], Expand(u));
    }
  }

  /** The two searches agree on a service exactly when no short entry stands alone. */
  lemma SearchesAgree(ads: seq<Ad>, u: Uuid16)
    ensures (AnyMatches(ads, Expand(u)) <==> AnyLists(ads, u)) <==> (AnyListsShort(ads, u) ==> AnyListsLong(ads, u))
  {
    ShortListsAreMissed(ads, u);
    if AnyListsShort(ads, u) {
      var i :| 0 <= i < |ads| && Is16BitList(ads[i]) && Has16(ads[i].data, u);
      assert Lists(ads[i], u);
    }
    if AnyListsLong(ads, u) {
      var i :| 0 <= i < |ads| && Is128BitList(ads[i]) && Has128(ads[i].data, Reverse(Expand(u)));
      assert Lists(ads[i], u);
    }
  }

  /** The service 0x1812, advertised by its 16-bit UUID alone, is found by the one search and not by the other. */
  lemma MissedService()
    ensures var ads := [Ad(0x03, [0x12, 0x18])]; AnyLists(ads, 0x1812) && !AnyMatches(ads, Expand(0x1812))
  {
    var ads := [Ad(0x03, [0x12, 0x18])];
    assert Uuid16At(ads[0].data, 2 * 0) == 0x1812;
    assert Lists(ads[0], 0x1812);
    ShortListsAreMissed(ads, 0x1812);
  }
}
