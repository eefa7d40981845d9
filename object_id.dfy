/**
 * The object-ID codec of the Api class: an ID is a type prefix ('thumb' for
 * photos, 'video-' for videos) followed by the numeric row id as 16 zero-padded
 * hexadecimal digits.
 */
module ObjectId {
  import opened Wrappers
  import opened Hex
  import opened PhpString

  datatype ItemType = Photo | Video {
    /** The class constants TYPE_PHOTO and TYPE_VIDEO. */
    function Name(): string {
      match this
      case Photo => "PHOTO"
      case Video => "VIDEO"
    }
  }

  /** The entries of typeMap, in the order they are declared and tried. */
  const TYPE_MAP: seq<(ItemType, string)> := [(Photo, "thumb"), (Video, "video-")]

  /** Width of the hexadecimal part of an ID. */
  const HEX_WIDTH: nat := 16

  /** $this->typeMap[$type]. */
  function Prefix(t: ItemType): string {
    match t
    case Photo => TYPE_MAP[0].1
    case Video => TYPE_MAP[1].1
  }

  /** substr($objectId, 0, strlen($idPart)) == $idPart. */
  predicate HasPrefix(objectId: string, idPart: string) {
    |idPart| <= |objectId| && objectId[..|idPart|] == idPart
  }

  /** The foreach over typeMap with its break: the first entry whose prefix matches. */
  function FirstMatch(entries: seq<(ItemType, string)>, objectId: string): (r: Option<ItemType>)
    ensures r.Some? ==> exists i :: 0 <= i < |entries| && entries[i].0 == r.value && HasPrefix(objectId, entries[i].1)
    ensures r.None? ==> forall i :: 0 <= i < |entries| ==> !HasPrefix(objectId, entries[i].1)
  {
    if entries == [] then None
    else if HasPrefix(objectId, entries[0].1) then Some(entries[0].0)
    else FirstMatch(entries[1..], objectId)
  }

  /** The entry FirstMatch reports is the first that matches: no earlier entry does, and it
      reports nothing exactly when no entry matches. */
  lemma {:induction false} FirstMatchIsFirst(entries: seq<(ItemType, string)>, objectId: string)
    ensures var r := FirstMatch(entries, objectId);
      (r.None? <==> forall i :: 0 <= i < |entries| ==> !HasPrefix(objectId, entries[i].1)) &&
      (r.Some? ==>
        exists i ::
          0 <= i < |entries| && entries[i].0 == r.value && HasPrefix(objectId, entries[i].1) &&
          forall j :: 0 <= j < i ==> !HasPrefix(objectId, entries[j].1))
    decreases |entries|
  {
    if entries != [] && !HasPrefix(objectId, entries[0].1) {
      FirstMatchIsFirst(entries[1..], objectId);
      if FirstMatch(entries, objectId).Some? {
        var i :| 0 <= i < |entries[1..]| && entries[1..][i].0 == FirstMatch(entries, objectId).value &&
          HasPrefix(objectId, entries[1..][i].1) &&
          forall j :: 0 <= j < i ==> !HasPrefix(objectId, entries[1..][j].1);
        assert forall j :: 1 <= j < i + 1 ==> entries[j] == entries[1..][j - 1];
        assert entries[i + 1] == entries[1..][i];
      }
    }
  }

  /** getTypeByObjectId; None stands for PHP's false. */
  function TypeOf(objectId: string): (r: Option<ItemType>)
    ensures r.Some? ==> HasPrefix(objectId, Prefix(r.value))
    ensures r.None? <==> !HasPrefix(objectId, Prefix(Photo)) && !HasPrefix(objectId, Prefix(Video))
  {
    FirstMatch(TYPE_MAP, objectId)
  }

  function PrefixLookup(entries: seq<(ItemType, string)>, typeName: string): (r: Option<string>)
    ensures r.Some? <==> exists i :: 0 <= i < |entries| && entries[i].0.Name() == typeName
    ensures r.Some? ==> exists i :: 0 <= i < |entries| && entries[i].0.Name() == typeName && r.value == entries[i].1
  {
    if entries == [] then None
    else if entries[0].0.Name() == typeName then Some(entries[0].1)
    else PrefixLookup(entries[1..], typeName)
  }

  /** getObjectIdPartIdByType: the prefix of the type with that constant name, or false. */
  function PrefixOfTypeName(typeName: string): (r: Option<string>)
    ensures r.Some? <==> typeName == Photo.Name() || typeName == Video.Name()
    ensures forall t: ItemType :: t.Name() == typeName ==> r == Some(Prefix(t))
  {
    assert TYPE_MAP[0].0.Name() == Photo.Name() && TYPE_MAP[1].0.Name() == Video.Name();
    PrefixLookup(TYPE_MAP, typeName)
  }

  /** getObjectIdByNumericId for one of the two types. */
  function Encode(t: ItemType, n: PhpInt): string {
    Prefix(t) + PadLeft(DecHex(n), HEX_WIDTH, '0')
  }

  /** getObjectIdByNumericId called with a type name: $this->typeMap[$type] of a name that
      is not a key is null, which concatenates as the empty string. */
  function EncodeByName(typeName: string, n: PhpInt): (r: string)
    ensures forall t: ItemType :: t.Name() == typeName ==> r == Encode(t, n)
  {
    var prefix := PrefixOfTypeName(typeName);
    (if prefix.Some? then prefix.value else "") + PadLeft(DecHex(n), HEX_WIDTH, '0')
  }

  /** getNumericIdByObjectId; None stands for PHP's false. */
  function NumericIdOf(objectId: string): Option<nat> {
    match TypeOf(objectId)
    case None => None
    case Some(t) => Some(HexDec(LTrim(objectId[|Prefix(t)|..], {' ', '0'})))
  }

  /** No prefix is a prefix of another, so at most one type matches any string. */
  lemma PrefixesDisjoint(t: ItemType, u: ItemType)
    requires t != u
    ensures !HasPrefix(Prefix(t), Prefix(u))
  {
    assert Prefix(Photo) == "thumb" && Prefix(Video) == "video-";
    assert Prefix(Video)[0] != Prefix(Photo)[0];
  }

  /** Type detection gives exactly the type whose prefix the ID starts with. */
  lemma TypeOfIsPrefixMatch(objectId: string, t: ItemType)
    ensures TypeOf(objectId) == Some(t) <==> HasPrefix(objectId, Prefix(t))
  {
    assert Prefix(Photo) == "thumb" && Prefix(Video) == "video-";
  }

  lemma Pow16Of16()
    ensures Pow16(16) == TWO_TO_64
  {
    assert Pow16(4) == 0x1_0000;
    assert Pow16(8) == 0x1_0000_0000 by {
      assert Pow16(5) == 0x10_0000 && Pow16(6) == 0x100_0000 && Pow16(7) == 0x1000_0000;
    }
    assert Pow16(12) == 0x1_0000_0000_0000 by {
      assert Pow16(9) == 0x10_0000_0000 && Pow16(10) == 0x100_0000_0000 && Pow16(11) == 0x1000_0000_0000;
    }
    assert Pow16(13) == 0x10_0000_0000_0000 && Pow16(14) == 0x100_0000_0000_0000 && Pow16(15) == 0x1000_0000_0000_0000;
  }

  /** dechex of a 64-bit integer fits the 16 digits of the padding. */
  lemma DecHexFits(n: PhpInt)
    ensures |DecHex(n)| <= HEX_WIDTH
  {
    Pow16Of16();
    HexDigitsLength(if n < 0 then n + TWO_TO_64 else n, 16);
  }

  /** The hexadecimal part of an encoded ID. */
  lemma EncodeParts(t: ItemType, n: PhpInt)
    ensures var id := Encode(t, n);
      HasPrefix(id, Prefix(t)) && id[|Prefix(t)|..] == PadLeft(DecHex(n), HEX_WIDTH, '0')
  {
    var id := Encode(t, n);
    var suffix := PadLeft(DecHex(n), HEX_WIDTH, '0');
    assert id == Prefix(t) + suffix;
    assert id[..|Prefix(t)|] == Prefix(t);
    assert id[|Prefix(t)|..] == suffix;
  }

  /** Every character of the padded digits is a lower-case hexadecimal digit. */
  lemma PaddedDigits(n: PhpInt)
    ensures var suffix := PadLeft(DecHex(n), HEX_WIDTH, '0');
      |suffix| == HEX_WIDTH && forall i :: 0 <= i < |suffix| ==> IsLowerHexChar(suffix[i])
  {
    DecHexFits(n);
    var d := DecHex(n);
    var suffix := PadLeft(d, HEX_WIDTH, '0');
    forall i | 0 <= i < |suffix| ensures IsLowerHexChar(suffix[i]) {
      if i >= |suffix| - |d| {
        assert suffix[i] == d[i - (|suffix| - |d|)];
      }
    }
  }

  /** An encoded ID is the prefix followed by exactly 16 lower-case hexadecimal digits. */
  lemma EncodeShape(t: ItemType, n: PhpInt)
    ensures var id := Encode(t, n);
      |id| == |Prefix(t)| + HEX_WIDTH && id[..|Prefix(t)|] == Prefix(t)
      && forall i :: |Prefix(t)| <= i < |id| ==> IsLowerHexChar(id[i])
  {
    var id := Encode(t, n);
    EncodeParts(t, n);
    PaddedDigits(n);
    var suffix := id[|Prefix(t)|..];
    forall i | |Prefix(t)| <= i < |id| ensures IsLowerHexChar(id[i]) {
      assert id[i] == suffix[i - |Prefix(t)|];
    }
  }

  /** The 16 digits of an encoded ID, read as an exact number, are n as an unsigned 64-bit value. */
  lemma EncodedDigits(t: ItemType, n: PhpInt)
    ensures var id := Encode(t, n);
      HasPrefix(id, Prefix(t)) && HexDec(LTrim(id[|Prefix(t)|..], {' ', '0'})) == if n >= 0 then n else n + TWO_TO_64
  {
    var id := Encode(t, n);
    EncodeParts(t, n);
    var suffix := id[|Prefix(t)|..];
    HexDecOfTrimmed(suffix);
    HexDecOfPadded(DecHex(n), HEX_WIDTH);
    HexDecOfHexDigits(if n < 0 then n + TWO_TO_64 else n);
  }

  /** Decoding an encoded ID gives back its type, and its number when that is not negative.
      A negative number comes back above PHP_INT_MAX (where hexdec returns a float), so it is
      no PHP integer and names no row. */
  lemma DecodeEncode(t: ItemType, n: PhpInt)
    ensures TypeOf(Encode(t, n)) == Some(t)
    ensures n >= 0 ==> NumericIdOf(Encode(t, n)) == Some(n)
    ensures n < 0 ==> NumericIdOf(Encode(t, n)).Some? && NumericIdOf(Encode(t, n)).value >= 0x8000_0000_0000_0000
  {
    var id := Encode(t, n);
    EncodedDigits(t, n);
    TypeOfIsPrefixMatch(id, t);
  }

  /** Distinct (type, number) pairs never share an ID: the ID is collision-free. */
  lemma EncodeInjective(t1: ItemType, n1: PhpInt, t2: ItemType, n2: PhpInt)
    requires Encode(t1, n1) == Encode(t2, n2)
    ensures t1 == t2 && n1 == n2
  {
    DecodeEncode(t1, n1);
    DecodeEncode(t2, n2);
    EncodedDigits(t1, n1);
    EncodedDigits(t2, n2);
  }

  /** With a type name that is not a key of typeMap the result is bare hexadecimal digits,
      which getTypeByObjectId does not recognise. */
  lemma EncodeByUnknownName(typeName: string, n: PhpInt)
    requires PrefixOfTypeName(typeName).None?
    ensures |EncodeByName(typeName, n)| == HEX_WIDTH
    ensures TypeOf(EncodeByName(typeName, n)) == None
  {
    var r := EncodeByName(typeName, n);
    assert r == PadLeft(DecHex(n), HEX_WIDTH, '0');
    PaddedDigits(n);
    assert IsLowerHexChar(r[0]);
    forall t: ItemType
      ensures !HasPrefix(r, Prefix(t))
    {
      assert Prefix(t)[0] == 't' || Prefix(t)[0] == 'v';
    }
  }

  /** The IDs of photo 1 and video 1, and strings that match no prefix. */
  lemma Examples()
    ensures Encode(Photo, 1) == "thumb0000000000000001"
    ensures Encode(Video, 1) == "video-0000000000000001"
    ensures TypeOf("a") == None && NumericIdOf("a") == None
    ensures PrefixOfTypeName("AUDIO") == None
    ensures EncodeByName("AUDIO", 1) == "0000000000000001"
  {
    assert DecHex(1) == "1";
    assert Repeat('0', 15) == "000000000000000";
  }
}
