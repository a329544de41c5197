// Attribute data of the ZigBee Cluster Library (zcl.c): the length of a value, and its form on the air.
module ZclData {
  import opened Bits

  const SEC_KEY_LEN := 16

  const OCTET_STR := 0x41
  const CHAR_STR := 0x42
  const LONG_OCTET_STR := 0x43
  const LONG_CHAR_STR := 0x44

  predicate LongString(dataType: byte) { dataType == LONG_CHAR_STR || dataType == LONG_OCTET_STR }

  predicate ShortString(dataType: byte) { dataType == CHAR_STR || dataType == OCTET_STR }

  // zclGetDataTypeLength: general data and booleans, bitmaps, integers, enumerations, floats, times, ids and keys.
  // The 40 to 64 bit forms of data and bitmap have no case there.
  function DataTypeLength(dataType: byte): (len: nat)
    ensures len <= SEC_KEY_LEN
  {
    match dataType
    case 0x08 | 0x10 | 0x18 | 0x28 | 0x20 | 0x30 => 1
    case 0x09 | 0x19 | 0x21 | 0x29 | 0x31 | 0x38 | 0xe8 | 0xe9 => 2
    case 0x0a | 0x1a | 0x22 | 0x2a => 3
    case 0x0b | 0x1b | 0x23 | 0x2b | 0x39 | 0xe0 | 0xe1 | 0xe2 | 0xea => 4
    case 0x24 | 0x2c => 5
    case 0x25 | 0x2d => 6
    case 0x26 | 0x2e => 7
    case 0x3a | 0xf0 | 0x27 | 0x2f => 8
    case 0xf1 => SEC_KEY_LEN
    case _ => 0
  }

  // The lengths by families: integers of 1 to 8 bytes, general data and bitmaps of 1 to 4, enumerations, floats, times,
  // identifiers and keys. Every other type has none.
  lemma LengthsByFamily(k: nat)
    ensures k < 8 ==> DataTypeLength(0x20 + k) == DataTypeLength(0x28 + k) == k + 1
    ensures k < 4 ==> DataTypeLength(0x08 + k) == DataTypeLength(0x18 + k) == k + 1
    ensures k < 2 ==> DataTypeLength(0x30 + k) == k + 1
    ensures k < 3 ==> DataTypeLength(0x38 + k) == Pow2(k + 1) && DataTypeLength(0xe0 + k) == 4
    ensures k < 3 ==> DataTypeLength(0xe8 + k) == if k < 2 then 2 else 4
    ensures DataTypeLength(0x10) == 1 && DataTypeLength(0xf0) == 8 && DataTypeLength(0xf1) == 16
  {
    assert Pow2(1) == 2 && Pow2(2) == 4 && Pow2(3) == 8;
  }

  lemma OtherLengths(dataType: byte)
    ensures DataTypeLength(dataType) == 0 <==>
      !(0x08 <= dataType <= 0x0b || dataType == 0x10 || 0x18 <= dataType <= 0x1b || 0x20 <= dataType <= 0x31 ||
        0x38 <= dataType <= 0x3a || 0xe0 <= dataType <= 0xe2 || 0xe8 <= dataType <= 0xea || 0xf0 <= dataType <= 0xf1)
  {}

  // zclAnalogDataType: integers, floats and times
  predicate Analog(dataType: byte) {
    0x20 <= dataType <= 0x2f || 0x38 <= dataType <= 0x3a || 0xe0 <= dataType <= 0xe2
  }

  // Those are the sixteen integer types and three each of floats and times.
  lemma AnalogTypes(k: nat)
    ensures k < 16 ==> Analog(0x20 + k) && (Analog(0x30 + k) <==> 8 <= k <= 10) && (Analog(0xe0 + k) <==> k <= 2)
    ensures k < 256 && k / 16 !in [2, 3, 14] ==> !Analog(k)
  {}

  // A byte of memory; nothing is known of what follows the bytes given.
  function At(s: seq<byte>, i: nat): byte { if i < |s| then s[i] else 0 }

  // BUILD_UINT16
  function Word(lo: byte, hi: byte): (w: nat)
    ensures w < 65536
  { lo + 256 * hi }

  // zclGetAttrDataLength: strings carry their length in front
  function DataLength(dataType: byte, s: seq<byte>): (len: nat)
    ensures len < 65536
  {
    if LongString(dataType) then (Word(At(s, 0), At(s, 1)) + 2) % 65536
    else if ShortString(dataType) then At(s, 0) + 1
    else DataTypeLength(dataType)
  }

  // A string has one length byte in front, or two, low byte first; a long one is cut to 16 bits.
  lemma StringLengths(s: seq<byte>, lo: nat, hi: nat)
    requires |s| >= 2 && s[0] == lo && s[1] == hi
    ensures DataLength(0x41, s) == lo + 1 && DataLength(0x42, s) == lo + 1
    ensures DataLength(0x43, s) == (lo + 256 * hi + 2) % 65536 && DataLength(0x44, s) == (lo + 256 * hi + 2) % 65536
  {}

  // One whole value and nothing more.
  predicate Whole(dataType: byte, s: seq<byte>) {
    |s| == DataLength(dataType, s) && (LongString(dataType) ==> |s| >= 2)
  }

  // The length of a value does not depend on what follows it.
  lemma LengthOfPrefix(dataType: byte, s: seq<byte>, t: seq<byte>)
    requires Whole(dataType, s)
    ensures DataLength(dataType, s + t) == |s|
  {
    assert s != [] ==> (s + t)[0] == s[0];
    assert |s| >= 2 ==> (s + t)[1] == s[1];
  }

  // The value at the front of a store, and what a new value written over the front makes of it.
  lemma OverwriteIsWhole(dataType: byte, s: seq<byte>, store: seq<byte>)
    requires Whole(dataType, s) && |s| <= |store|
    ensures var t := s + store[|s|..]; t[..|s|] == s && DataLength(dataType, t) == |s|
  {
    LengthOfPrefix(dataType, s, store[|s|..]);
  }

  // LO_UINT16 and HI_UINT16
  function LittleEndian(w: nat): (s: seq<byte>)
    requires w < 65536
    ensures |s| == 2 && Word(s[0], s[1]) == w
  { [w % 256, w / 256] }

  lemma LittleEndianOfWord(lo: byte, hi: byte)
    ensures LittleEndian(Word(lo, hi)) == [lo, hi]
  {}

  // A little-endian 32-bit integer in memory, and its bytes.
  function Word32(s: seq<byte>): (v: nat)
    ensures v % 65536 == Word(At(s, 0), At(s, 1)) && v / 65536 == Word(At(s, 2), At(s, 3))
  { Word(At(s, 0), At(s, 1)) + 65536 * Word(At(s, 2), At(s, 3)) }

  function Bytes32(v: nat): (s: seq<byte>)
    requires v / 65536 < 65536
    ensures |s| == 4
  { LittleEndian(v % 65536) + LittleEndian(v / 65536) }

  lemma Bytes32OfWord32(s: seq<byte>)
    ensures Bytes32(Word32(s)) == [At(s, 0), At(s, 1), At(s, 2), At(s, 3)]
  {
    LittleEndianOfWord(At(s, 0), At(s, 1));
    LittleEndianOfWord(At(s, 2), At(s, 3));
  }

  // zcl_memcpy, which returns the end of its destination
  method Copy(buf: array<byte>, p: nat, data: seq<byte>, len: nat) returns (p': nat)
    requires len <= |data| && p + len <= buf.Length
    modifies buf
    ensures p' == p + len && buf[..p'] == old(buf[..p]) + data[..len]
  {
    forall i | 0 <= i < len { buf[p + i] := data[i]; }
    p' := p + len;
  }

  // The numbers, times and identifiers of zclSerializeData: up to four bytes are read as an integer and written low
  // byte first (for 24 bits a fourth byte is read), more are copied.
  method SerializeNumber(n: nat, attrData: seq<byte>, buf: array<byte>, p: nat) returns (p': nat)
    requires n <= |attrData| && p + n <= buf.Length
    modifies buf
    ensures p' == p + n && buf[..p'] == old(buf[..p]) + attrData[..n]
  {
    if n == 1 {
      p' := Copy(buf, p, [attrData[0]], 1);
    } else if n == 2 {
      p' := Copy(buf, p, LittleEndian(Word(attrData[0], attrData[1])), 2);
      LittleEndianOfWord(attrData[0], attrData[1]);
    } else if n == 3 || n == 4 {
      Bytes32OfWord32(attrData);
      p' := Copy(buf, p, Bytes32(Word32(attrData)), n);
    } else {
      p' := Copy(buf, p, attrData, n);
    }
  }

  // The number of bytes that are written. For a long string it is not cut to 16 bits, as the length of the value is.
  function SerializedLength(dataType: byte, s: seq<byte>): nat {
    if LongString(dataType) then Word(At(s, 0), At(s, 1)) + 2 else DataLength(dataType, s)
  }

  lemma LengthsAgree(dataType: byte, s: seq<byte>)
    ensures SerializedLength(dataType, s) == DataLength(dataType, s) <==>
            !(LongString(dataType) && Word(At(s, 0), At(s, 1)) >= 65534)
  {
    if LongString(dataType) && Word(At(s, 0), At(s, 1)) >= 65534 { assert DataLength(dataType, s) < 2; }
  }

  // zclSerializeData
  method SerializeData(dataType: byte, attrData: seq<byte>, buf: array<byte>, p: nat) returns (p': nat)
    requires SerializedLength(dataType, attrData) <= |attrData| &&
      p + SerializedLength(dataType, attrData) <= buf.Length
    modifies buf
    ensures p' == p + SerializedLength(dataType, attrData)
    ensures buf[..p'] == old(buf[..p]) + attrData[..SerializedLength(dataType, attrData)]
  {
    if LongString(dataType) {
      var len := Word(attrData[0], attrData[1]);
      p' := Copy(buf, p, attrData, len + 2);
    } else if ShortString(dataType) {
      var len: nat := attrData[0];
      p' := Copy(buf, p, attrData, len + 1);
    } else {
      p' := SerializeNumber(DataTypeLength(dataType), attrData, buf, p);
    }
  }
}
