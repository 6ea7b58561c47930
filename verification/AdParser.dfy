/**
 `components/btstack/src/ad_parser.c`: the iterator over advertising data and the search for a
 16-bit service UUID. Offsets are 8-bit; that they never wrap is part of the proof.
 */
module AdParser {
  import opened OctetStrings
  import opened AdStructures

  lemma SliceOfSlice(s: seq<Byte>, lo: int, hi: int, i: int, j: int)
    requires 0 <= lo <= hi <= |s| && 0 <= i <= j <= hi - lo
    ensures s[lo..hi][i..j] == s[lo + i..lo + j]
  {
    assert forall k :: 0 <= k < j - i ==> s[lo..hi][i..j][k] == s[lo + i..lo + j][k];
  }

  class Context {
    const data: seq<Byte>
    const length: Byte
    var offset: Byte

    ghost predicate Valid()
      reads this
    {
      offset <= length <= |data|
    }

    /** What the iterator has not visited. */
    ghost function Remaining(): seq<Byte>
      requires Valid()
      reads this
    {
      data[offset..length]
    }

    /** `ad_iterator_init` */
    constructor (adLen: Byte, adData: seq<Byte>)
      requires adLen <= |adData|
      ensures Valid() && Remaining() == adData[..adLen]
    {
      data, length, offset := adData, adLen, 0;
    }

    predicate HasMore()
      requires Valid()
      reads this
      ensures HasMore() <==> Structures(Remaining()) != []
      ensures HasMore() <==> offset + 1 < length && data[offset] > 0 && offset + 1 + data[offset] <= length
    {
      if offset + 1 >= length then false
      else
        var chunkLen := data[offset];
        if chunkLen == 0 then false else !(offset + 1 + chunkLen > length)
    }

    function GetDataLen(): (n: Byte)
      requires Valid() && HasMore()
      reads this
      ensures n == |Structures(Remaining())[0].data| && offset + 2 + n <= length
    {
      data[offset] - 1
    }

    function GetDataType(): (kind: Byte)
      requires Valid() && HasMore()
      reads this
      ensures kind == Structures(Remaining())[0].kind == data[offset + 1]
    {
      data[offset + 1]
    }

    /** The bytes behind the pointer that the C function returns, as far as the structure goes. */
    function GetData(): (d: seq<Byte>)
      requires Valid() && HasMore()
      reads this
      ensures d == Structures(Remaining())[0].data
      ensures |d| == data[offset] - 1 && forall i :: 0 <= i < |d| ==> d[i] == data[offset + 2 + i]
    {
      SliceOfSlice(data, offset, length, 2, 1 + data[offset]);
      data[offset + 2..offset + 1 + data[offset]]
    }

    /** `ad_iterator_next` */
    method Next()
      requires Valid() && HasMore()
      modifies this
      ensures Valid()
      ensures Structures(Remaining()) == old(Structures(Remaining()))[1..]
      ensures offset == old(offset) + 1 + data[old(offset)]
    {
      var chunkLen := data[offset];
      SliceOfSlice(data, offset, length, 1 + chunkLen, length - offset);
      offset := (offset + 1 + chunkLen) % 256;
    }
  }

  /** The loop over a 16-bit list. */
  method SearchList16(data: seq<Byte>, dataLen: Byte, uuid16: Uuid16) returns (found: bool)
    requires dataLen == |data| <= 254
    ensures found <==> Has16(data, uuid16)
  {
    var i: Byte := 0;
    while i + 2 <= dataLen
      invariant i % 2 == 0 && i <= dataLen
      invariant forall j: nat :: 2 * j < i ==> Uuid16At(data, 2 * j) != uuid16
      decreases dataLen - i
    {
      var uuid := Uuid16At(data, i);
      if uuid == uuid16 {
        assert i == 2 * (i / 2);
        return true;
      }
      i := (i + 2) % 256;
    }
    return false;
  }

  /** The loop over a 128-bit list. */
  method SearchList128(data: seq<Byte>, dataLen: Byte, uuid128: seq<Byte>) returns (found: bool)
    requires dataLen == |data| <= 254 && |uuid128| == 16
    ensures found <==> Has128(data, uuid128)
  {
    var i: Byte := 0;
    while i + 16 <= dataLen
      invariant i % 16 == 0 && i <= dataLen
      invariant forall j: nat :: 16 * j < i ==> data[16 * j..16 * j + 16] != uuid128
      decreases dataLen - i
    {
      if uuid128 == data[i..i + 16] {
        assert i == 16 * (i / 16);
        return true;
      }
      i := (i + 16) % 256;
    }
    return false;
  }

  /** The switch on the structure's type. */
  method Search(dataType: Byte, dataLen: Byte, data: seq<Byte>, uuid16: Uuid16) returns (has: bool)
    requires dataLen == |data| <= 254
    ensures has <==> Lists(Ad(dataType, data), uuid16)
  {
    has := false;
    if dataType == 0x02 || dataType == 0x03 {
      has := SearchList16(data, dataLen, uuid16);
    } else if dataType == 0x06 || dataType == 0x07 {
      has := SearchList128(data, dataLen, Reverse(Expand(uuid16)));
    }
  }

  /** `ad_data_contains_uuid16` */
  method ContainsUuid16(adLen: Byte, adData: seq<Byte>, uuid16: Uuid16) returns (found: bool)
    requires adLen <= |adData|
    ensures found <==> AnyLists(Structures(adData[..adLen]), uuid16)
  {
    var context := new Context(adLen, adData);
    ghost var all, k := Structures(adData[..adLen]), 0;
    while context.HasMore()
      invariant context.Valid()
      invariant 0 <= k <= |all| && Structures(context.Remaining()) == all[k..]
      invariant forall i :: 0 <= i < k ==> !Lists(all[i], uuid16)
      decreases context.length - context.offset
    {
      var has := Search(context.GetDataType(), context.GetDataLen(), context.GetData(), uuid16);
      assert all[k] == all[k..][0];
      if has {
        return true;
      }
      context.Next();
      k := k + 1;
    }
    return false;
  }

  /** The loop over a 16-bit list in the search for a 128-bit UUID. */
  method SearchExpanded(data: seq<Byte>, dataLen: Byte, uuid128le: seq<Byte>) returns (found: bool)
    requires dataLen == |data| <= 254
    ensures found <==> HasExpanded(data, uuid128le)
  {
    var i: Byte := 0;
    while i + 2 <= dataLen
      invariant i % 2 == 0 && i <= dataLen
      invariant forall j: nat :: 2 * j < i ==> Expand(Uuid16At(data, 2 * j)) != uuid128le
      decreases dataLen - i
    {
      var uuid16 := Uuid16At(data, i);
      if Expand(uuid16) == uuid128le {
        assert i == 2 * (i / 2);
        return true;
      }
      i := (i + 2) % 256;
    }
    return false;
  }

  method SearchLong(dataType: Byte, dataLen: Byte, data: seq<Byte>, uuid128: seq<Byte>) returns (has: bool)
    requires dataLen == |data| <= 254 && |uuid128| == 16
    ensures has <==> Matches(Ad(dataType, data), uuid128)
  {
    has := false;
    if dataType == 0x02 || dataType == 0x03 {
      has := SearchExpanded(data, dataLen, Reverse(uuid128));
    } else if dataType == 0x06 || dataType == 0x07 {
      has := SearchList128(data, dataLen, Reverse(uuid128));
    }
  }

  /** `ad_data_contains_uuid128` */
  method ContainsUuid128(adLen: Byte, adData: seq<Byte>, uuid128: seq<Byte>) returns (found: bool)
    requires adLen <= |adData| && |uuid128| == 16
    ensures found <==> AnyMatches(Structures(adData[..adLen]), uuid128)
  {
    var context := new Context(adLen, adData);
    ghost var all, k := Structures(adData[..adLen]), 0;
    while context.HasMore()
      invariant context.Valid()
      invariant 0 <= k <= |all| && Structures(context.Remaining()) == all[k..]
      invariant forall i :: 0 <= i < k ==> !Matches(all[i], uuid128)
      decreases context.length - context.offset
    {
      var has := SearchLong(context.GetDataType(), context.GetDataLen(), context.GetData(), uuid128);
      assert all[k] == all[k..][0];
      if has {
        return true;
      }
      context.Next();
      k := k + 1;
    }
    return false;
  }
}
