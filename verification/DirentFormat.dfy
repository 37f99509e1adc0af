// Directory entries and the local and central headers that store them (lib/zip_dirent.c; sections 4.3.7, 4.3.9,
// 4.3.12, 4.5.3 and 4.6.9 of APPNOTE.TXT).
module DirentFormat {
  import opened Bytes
  import opened LittleEndian
  import opened ExtraField
  import opened ZipString

  type Method = m: int | -1 <= m <= UINT16_MAX

  datatype Dirent = Dirent(
    versionMadeBy: uint16, versionNeeded: uint16, bitFlags: uint16, compMethod: Method, time: uint16, date: uint16,
    crc: uint32, compSize: uint64, uncompSize: uint64, filename: Stored, local: seq<Field>, central: seq<Field>,
    comment: Stored, disk: uint32, intAttrib: uint16, extAttrib: uint32, offset: uint64,
    encryption: uint16, crcValid: bool)

  const CM_DEFAULT: Method := -1
  const CM_STORE: Method := 0
  const CM_DEFLATE: Method := 8
  const CM_WINZIP_AES: Method := 99
  const EM_NONE: uint16 := 0
  const EM_TRAD_PKWARE: uint16 := 1
  const EM_AES_128: uint16 := 0x0101
  const EM_AES_192: uint16 := 0x0102
  const EM_AES_256: uint16 := 0x0103
  const EM_UNKNOWN: uint16 := 0xFFFF
  const ENCRYPTED: uint16 := 0x0001
  const DATA_DESCRIPTOR: uint16 := 0x0008
  const STRONG_ENCRYPTION: uint16 := 0x0040
  const ENCODING_UTF_8: uint16 := 0x0800

  const LOCAL_MAGIC: seq<byte> := [0x50, 0x4B, 3, 4]
  const CENTRAL_MAGIC: seq<byte> := [0x50, 0x4B, 1, 2]
  const DATADES_MAGIC: seq<byte> := [0x50, 0x4B, 7, 8]

  type Crc32 = seq<byte> -> uint32

  // (lines 317-343)
  const NEW_DIRENT :=
      Dirent(0x33F, 10, 0, CM_DEFAULT, 0, 0, 0, 0, 0, None, [], [], None, 0, 0, 0x81B6_0000, 0, EM_NONE, true)

  predicate Bit(flags: uint16, mask: uint16)
    requires mask > 0
  {
    flags / mask % 2 == 1
  }

  function WithBit(flags: uint16, mask: uint16, on: bool): uint16
    requires mask == ENCRYPTED || mask == DATA_DESCRIPTOR || mask == ENCODING_UTF_8
  {
    var f: int := flags;
    if Bit(flags, mask) == on then f else if on then f + mask else f - mask
  }

  lemma BitsOf(flags: uint16, encrypted: bool, utf8: bool)
    ensures var f := WithBit(WithBit(flags, ENCODING_UTF_8, utf8), ENCRYPTED, encrypted);
            && Bit(f, ENCRYPTED) == encrypted && Bit(f, ENCODING_UTF_8) == utf8
            && Bit(f, STRONG_ENCRYPTION) == Bit(flags, STRONG_ENCRYPTION)
            && Bit(f, DATA_DESCRIPTOR) == Bit(flags, DATA_DESCRIPTOR)
  {
    hide WithBit, Bit;
    Utf8Bit(flags, utf8);
    EncryptedBit(WithBit(flags, ENCODING_UTF_8, utf8), encrypted);
  }

  lemma Utf8Bit(flags: uint16, on: bool)
    ensures var f := WithBit(flags, ENCODING_UTF_8, on);
            && Bit(f, ENCODING_UTF_8) == on && Bit(f, STRONG_ENCRYPTION) == Bit(flags, STRONG_ENCRYPTION)
            && Bit(f, DATA_DESCRIPTOR) == Bit(flags, DATA_DESCRIPTOR)
  {
    var before: int, after: int := flags, WithBit(flags, ENCODING_UTF_8, on);
    var high, low := before / 0x800, before % 0x800;
    assert before == high * 0x800 + low;
    assert after == (high + if Bit(flags, ENCODING_UTF_8) == on then 0 else if on then 1 else -1) * 0x800 + low;
    hide Bit, WithBit;
    LowBits(before, high, low);
    LowBits(after, high + if Bit(flags, ENCODING_UTF_8) == on then 0 else if on then 1 else -1, low);
    HighBit(before, high, low);
    HighBit(after, high + if Bit(flags, ENCODING_UTF_8) == on then 0 else if on then 1 else -1, low);
  }

  lemma HighBit(f: uint16, high: int, low: nat)
    requires f == high * 0x800 + low && low < 0x800
    ensures Bit(f, ENCODING_UTF_8) == (high % 2 == 1)
  {
  }

  lemma LowBits(f: uint16, high: int, low: nat)
    requires f == high * 0x800 + low && low < 0x800
    ensures Bit(f, STRONG_ENCRYPTION) == (low / 0x40 % 2 == 1)
    ensures Bit(f, DATA_DESCRIPTOR) == (low / 8 % 2 == 1)
  {
    var f: int := f;
    assert f / 0x40 == 2 * (high * 0x10) + low / 0x40;
    assert f / 8 == 2 * (high * 0x80) + low / 8;
  }

  lemma EncryptedBit(flags: uint16, on: bool)
    ensures var f := WithBit(flags, ENCRYPTED, on);
            Bit(f, ENCRYPTED) == on && Bit(f, ENCODING_UTF_8) == Bit(flags, ENCODING_UTF_8)
            && Bit(f, STRONG_ENCRYPTION) == Bit(flags, STRONG_ENCRYPTION)
            && Bit(f, DATA_DESCRIPTOR) == Bit(flags, DATA_DESCRIPTOR)
  {
    var f: int := WithBit(flags, ENCRYPTED, on);
    assert f / 2 == flags / 2;
    assert f / 8 == f / 2 / 4 && flags / 8 == flags / 2 / 4;
    assert f / 0x40 == f / 2 / 0x20 && flags / 0x40 == flags / 2 / 0x20;
    assert f / 0x800 == f / 2 / 0x400 && flags / 0x800 == flags / 2 / 0x400;
  }

  // --- the fixed part of a header ---

  datatype Fixed = Fixed(
    versionMadeBy: uint16, versionNeeded: uint16, bitFlags: uint16, compMethod: uint16, time: uint16, date: uint16,
    crc: uint32, compSize: uint32, uncompSize: uint32, nameLength: uint16, fieldsLength: uint16,
    commentLength: uint16, disk: uint16, intAttrib: uint16, extAttrib: uint32, offset: uint32)

  function Magic(isLocal: bool): (m: seq<byte>)
    ensures |m| == 4
  {
    if isLocal then LOCAL_MAGIC else CENTRAL_MAGIC
  }

  function FixedSize(isLocal: bool): nat {
    if isLocal then 30 else 46
  }

  function Middle(f: Fixed): (b: seq<byte>)
    ensures |b| == 26
  {
    Put16(f.versionNeeded) + Put16(f.bitFlags) + Put16(f.compMethod) + Put16(f.time) + Put16(f.date) +
    Put32(f.crc) + Put32(f.compSize) + Put32(f.uncompSize) + Put16(f.nameLength) + Put16(f.fieldsLength)
  }

  function Tail(f: Fixed): (b: seq<byte>)
    ensures |b| == 14
  {
    Put16(f.commentLength) + Put16(f.disk) + Put16(f.intAttrib) + Put32(f.extAttrib) + Put32(f.offset)
  }

  function EncodeFixed(f: Fixed, isLocal: bool): (b: seq<byte>)
    ensures |b| == FixedSize(isLocal)
  {
    if isLocal then Magic(true) + Middle(f) else Magic(false) + Put16(f.versionMadeBy) + Middle(f) + Tail(f)
  }

  // The fields at their offsets by the tables of sections 4.3.7 and 4.3.12.
  function DecodeFixed(b: seq<byte>, isLocal: bool): Fixed
    requires |b| >= FixedSize(isLocal)
  {
    if isLocal then
      Fixed(0, U16(b, 4), U16(b, 6), U16(b, 8), U16(b, 10), U16(b, 12), U32(b, 14), U32(b, 18), U32(b, 22),
            U16(b, 26), U16(b, 28), 0, 0, 0, 0, 0)
    else
      Fixed(U16(b, 4), U16(b, 6), U16(b, 8), U16(b, 10), U16(b, 12), U16(b, 14), U32(b, 16), U32(b, 20), U32(b, 24),
            U16(b, 28), U16(b, 30), U16(b, 32), U16(b, 34), U16(b, 36), U32(b, 38), U32(b, 42))
  }

  // The local header lacks the fields of the central one.
  function Shown(f: Fixed, isLocal: bool): Fixed {
    if isLocal then f.(versionMadeBy := 0, commentLength := 0, disk := 0, intAttrib := 0, extAttrib := 0, offset := 0)
    else f
  }

  lemma MiddleAt(b: seq<byte>, at: nat, f: Fixed)
    requires Holds(b, at, Middle(f))
    ensures U16(b, at) == f.versionNeeded && U16(b, at + 2) == f.bitFlags && U16(b, at + 4) == f.compMethod
    ensures U16(b, at + 6) == f.time && U16(b, at + 8) == f.date && U32(b, at + 10) == f.crc
    ensures U32(b, at + 14) == f.compSize && U32(b, at + 18) == f.uncompSize
    ensures U16(b, at + 22) == f.nameLength && U16(b, at + 24) == f.fieldsLength
  {
    hide U16, U32, Put16, Put32, Holds;
    var p := Put16(f.versionNeeded) + Put16(f.bitFlags);
    var q := p + Put16(f.compMethod) + Put16(f.time);
    var r := q + Put16(f.date) + Put32(f.crc);
    var s := r + Put32(f.compSize) + Put32(f.uncompSize);
    Take16(b, at, s + Put16(f.nameLength), f.fieldsLength);
    Take16(b, at, s, f.nameLength);
    Take32(b, at, r + Put32(f.compSize), f.uncompSize);
    Take32(b, at, r, f.compSize);
    Take32(b, at, q + Put16(f.date), f.crc);
    Take16(b, at, q, f.date);
    Take16(b, at, p + Put16(f.compMethod), f.time);
    Take16(b, at, p, f.compMethod);
    Take16(b, at, Put16(f.versionNeeded), f.bitFlags);
    Read16(b, at, f.versionNeeded);
  }

  lemma TailAt(b: seq<byte>, at: nat, f: Fixed)
    requires Holds(b, at, Tail(f))
    ensures U16(b, at) == f.commentLength && U16(b, at + 2) == f.disk && U16(b, at + 4) == f.intAttrib
    ensures U32(b, at + 6) == f.extAttrib && U32(b, at + 10) == f.offset
  {
    hide U16, U32, Put16, Put32, Holds;
    var p := Put16(f.commentLength) + Put16(f.disk) + Put16(f.intAttrib);
    Take32(b, at, p + Put32(f.extAttrib), f.offset);
    Take32(b, at, p, f.extAttrib);
    Take16(b, at, Put16(f.commentLength) + Put16(f.disk), f.intAttrib);
    Take16(b, at, Put16(f.commentLength), f.disk);
    Read16(b, at, f.commentLength);
  }

  lemma DecodeOfEncoded(f: Fixed, isLocal: bool, rest: seq<byte>)
    ensures var b := EncodeFixed(f, isLocal) + rest;
            b[..4] == Magic(isLocal) && DecodeFixed(b, isLocal) == Shown(f, isLocal)
  {
    hide U16, U32, Put16, Put32, Middle, Tail;
    var b := EncodeFixed(f, isLocal) + rest;
    if isLocal {
      assert b[4..30] == Middle(f);
      MiddleAt(b, 4, f);
    } else {
      assert b[4..6] == Put16(f.versionMadeBy) && b[6..32] == Middle(f) && b[32..46] == Tail(f);
      Read16(b, 4, f.versionMadeBy);
      MiddleAt(b, 6, f);
      TailAt(b, 32, f);
    }
  }
}
