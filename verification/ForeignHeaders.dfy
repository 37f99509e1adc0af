// What is read from headers that other programs wrote, with any fixed fields and any extra fields (lib/zip_dirent.c).
module ForeignHeaders {
  import opened Bytes
  import opened LittleEndian
  import opened ExtraField
  import opened ZipString
  import opened DirentFormat
  import opened DirentHeader
  import opened DirentRoundTrip
  import StringEncoding
  import Utf8

  // A header as anyone may write it, and what follows it.
  function Block(f: Fixed, isLocal: bool, name: seq<byte>, fields: seq<Field>, comment: seq<byte>,
      rest: seq<byte>): seq<byte> {
    EncodeFixed(f, isLocal) + (name + Write(fields) + comment + rest)
  }

  predicate LengthsFit(f: Fixed, isLocal: bool, name: seq<byte>, fields: seq<Field>, comment: seq<byte>) {
    f.nameLength == |name| && f.fieldsLength == Size(fields)
      && if isLocal then comment == [] else f.commentLength == |comment|
  }

  // Its parts are found by the lengths in it.
  lemma ReadBlock(f: Fixed, isLocal: bool, name: seq<byte>, fields: seq<Field>, comment: seq<byte>, rest: seq<byte>,
      isZip64: bool, check: bool, crc32: Crc32)
    requires LengthsFit(f, isLocal, name, fields, comment)
    ensures var d := Interpret(Shown(f, isLocal), name, Write(fields), comment, isLocal, isZip64, check, crc32);
            ReadPlain(Block(f, isLocal, name, fields, comment, rest), isLocal, isZip64, check, crc32) ==
            if d.None? then None else Some((d.value, FixedSize(isLocal) + |name| + Size(fields) + |comment|))
  {
    hide EncodeFixed, DecodeFixed, Write, Size, Interpret;
    SizeIsLength(fields);
    DecodeOfEncoded(f, isLocal, name + Write(fields) + comment + rest);
    Slices(EncodeFixed(f, isLocal), name, Write(fields), comment, rest);
  }

  lemma FieldsRead(fields: seq<Field>)
    ensures Parse(Write(fields)) == Some(fields)
  {
    ParseOfWrite(fields, []);
    assert Write(fields) + [] == Write(fields);
  }

  // --- names (lines 488-509, 735-774) ---

  // The name in the header itself.
  function PlainName(name: seq<byte>, flagged: bool): Stored {
    if name == [] then None
    else Some(ZipString(name, if flagged then StringEncoding.Utf8Known else StringEncoding.Unknown))
  }

  // Text of an extra field that was made for the name in the header replaces it.
  predicate MadeFor(name: seq<byte>, c: uint32, text: seq<byte>, crc32: Crc32) {
    c == crc32(name) && text != [] && Utf8.WellFormed(text)
  }

  // The name is that of the extra field if it has the checksum of the name in the header and is well formed, and the
  // one in the header otherwise. With checking, text in ASCII that differs is refused, unless there is no name.
  lemma NameOfForeign(f: Fixed, isLocal: bool, name: seq<byte>, fields: seq<Field>, comment: seq<byte>, rest: seq<byte>,
      isZip64: bool, check: bool, crc32: Crc32, c: uint32, text: seq<byte>)
    requires LengthsFit(f, isLocal, name, fields, comment) && |text| + 5 <= UINT16_MAX
    requires GetField(fields, EF_UTF_8_NAME) == Some([1] + Put32(c) + text)
    ensures var r := ReadPlain(Block(f, isLocal, name, fields, comment, rest), isLocal, isZip64, check, crc32);
            var differs := check && text != name && StringEncoding.AllAscii(text);
            && (MadeFor(name, c, text, crc32) && differs && name != [] ==> r.None?)
            && (r.Some? ==>
                  r.value.0.filename ==
                  if !MadeFor(name, c, text, crc32) then PlainName(name, Bit(f.bitFlags, ENCODING_UTF_8))
                  else if differs then None
                  else Some(ZipString(text, StringEncoding.Utf8Known)))
  {
    hide ReadPlain, Interpret, ReadString, ProcessUtf8, GetField, Write, Block, Bit, MadeFor, Size, PlainName;
    ReadBlock(f, isLocal, name, fields, comment, rest, isZip64, check, crc32);
    NameInterpreted(f, isLocal, name, fields, comment, isZip64, check, crc32);
    NameProcessed(name, Bit(f.bitFlags, ENCODING_UTF_8), fields, check, crc32, c, text);
  }

  lemma NameInterpreted(f: Fixed, isLocal: bool, name: seq<byte>, fields: seq<Field>, comment: seq<byte>, isZip64: bool,
      check: bool, crc32: Crc32)
    ensures var d := Interpret(Shown(f, isLocal), name, Write(fields), comment, isLocal, isZip64, check, crc32);
            var stored := ReadString(name, Bit(f.bitFlags, ENCODING_UTF_8));
            && (d.Some? ==>
                stored.Some?
                  && ProcessUtf8(fields, EF_UTF_8_NAME, stored.value, check, crc32) == Some(d.value.filename))
  {
    FieldsRead(fields);
    hide GetField, ReadSizes, ReadProtection, Parse, Write, Bit, WithoutInternal, ReadString, ProcessUtf8;
  }

  lemma NameProcessed(name: seq<byte>, flagged: bool, fields: seq<Field>, check: bool, crc32: Crc32, c: uint32,
      text: seq<byte>)
    requires |text| + 5 <= UINT16_MAX && GetField(fields, EF_UTF_8_NAME) == Some([1] + Put32(c) + text)
    ensures var stored, differs := ReadString(name, flagged), check && text != name && StringEncoding.AllAscii(text);
            stored.Some? ==>
              ProcessUtf8(fields, EF_UTF_8_NAME, stored.value, check, crc32) ==
              if !MadeFor(name, c, text, crc32) then Some(PlainName(name, flagged))
              else if !differs then Some(Some(ZipString(text, StringEncoding.Utf8Known)))
              else if name == [] then Some(None)
              else None
  {
    TextField(c, text);
    hide GetField, Utf8.WellFormed, U32, Put32, StringEncoding.AllAscii;
  }

  // Without such a field, or with one of another version or too short for one, the name is the one in the header.
  lemma NameWithoutField(f: Fixed, isLocal: bool, name: seq<byte>, fields: seq<Field>, comment: seq<byte>,
      rest: seq<byte>,
      isZip64: bool, check: bool, crc32: Crc32)
    requires LengthsFit(f, isLocal, name, fields, comment)
    requires var ef := GetField(fields, EF_UTF_8_NAME); ef.None? || |ef.value| < 5 || ef.value[0] != 1
    ensures var r := ReadPlain(Block(f, isLocal, name, fields, comment, rest), isLocal, isZip64, check, crc32);
            r.Some? ==> r.value.0.filename == PlainName(name, Bit(f.bitFlags, ENCODING_UTF_8))
  {
    hide ReadPlain, Interpret, GetField, Write, Block, Bit, Size;
    ReadBlock(f, isLocal, name, fields, comment, rest, isZip64, check, crc32);
    NameInterpreted(f, isLocal, name, fields, comment, isZip64, check, crc32);
  }

  lemma TextField(c: uint32, text: seq<byte>)
    ensures var data := [1] + Put32(c) + text; data[0] == 1 && U32(data, 1) == c && data[5..] == text
  {
    hide U32, Put32;
    var data := [1] + Put32(c) + text;
    assert data[1..5] == Put32(c);
    Read32(data, 1, c);
  }

  // --- when a header is accepted ---

  // The checks of the strings of a header.
  predicate StringsOk(f: Fixed, isLocal: bool, name: seq<byte>, fields: seq<Field>, comment: seq<byte>, check: bool,
      crc32: Crc32) {
    && (Bit(f.bitFlags, ENCODING_UTF_8) ==> Utf8.WellFormed(name) && Utf8.WellFormed(comment))
    && (check ==>
          && NoConflict(fields, EF_UTF_8_NAME, name, crc32)
            && (!isLocal ==> NoConflict(fields, EF_UTF_8_COMMENT, comment, crc32))
          && 0 !in ShownName(fields, name, crc32))
  }

  // The text of the first field with an id, if that was made for a string.
  function TextFor(fields: seq<Field>, id: uint16, s: seq<byte>, crc32: Crc32): Option<seq<byte>> {
    var ef := GetField(fields, id);
    if ef.None? || |ef.value| < 5 || ef.value[0] != 1 then None
    else if !MadeFor(s, U32(ef.value, 1), ef.value[5..], crc32) then None
    else Some(ef.value[5..])
  }

  predicate NoConflict(fields: seq<Field>, id: uint16, s: seq<byte>, crc32: Crc32) {
    var text := TextFor(fields, id, s, crc32);
    text.Some? && text.value != s && StringEncoding.AllAscii(text.value) ==> s == []
  }

  function ShownName(fields: seq<Field>, name: seq<byte>, crc32: Crc32): seq<byte> {
    var text := TextFor(fields, EF_UTF_8_NAME, name, crc32);
    if text.None? || (text.value != name && StringEncoding.AllAscii(text.value)) then name else text.value
  }

  // The entry has what the fixed fields say, the sizes and the encryption that were made out, and the extra fields that
  // are not libzip's own.
  predicate Tells(d: Dirent, g: Fixed, isLocal: bool, fields: seq<Field>, sizes: Sizes, protection: Protection) {
    && d.versionMadeBy == g.versionMadeBy && d.versionNeeded == g.versionNeeded && d.bitFlags == g.bitFlags
    && d.time == g.time && d.date == g.date && d.crc == g.crc && d.intAttrib == g.intAttrib
      && d.extAttrib == g.extAttrib
    && sizes == Sizes(d.uncompSize, d.compSize, d.offset, d.disk)
    && d.encryption == protection.encryption && d.compMethod == protection.compMethod
    && d.crcValid == protection.crcValid
    && d.local == (if isLocal then WithoutInternal(fields) else [])
    && d.central == (if isLocal then [] else WithoutInternal(fields))
  }

  function SizesIn(g: Fixed, fields: seq<Field>, isLocal: bool, isZip64: bool): Option<Sizes> {
    ReadSizes(Sizes(g.uncompSize, g.compSize, g.offset, g.disk), fields, isLocal, isZip64)
  }

  // A header is accepted if and only if its strings, its sizes and what it says about encryption can be made sense of,
  // and its offset can be sought; all it says is then in the entry.
  lemma ForeignAccepted(f: Fixed, isLocal: bool, name: seq<byte>, fields: seq<Field>, comment: seq<byte>,
      rest: seq<byte>,
      isZip64: bool, check: bool, crc32: Crc32)
    requires LengthsFit(f, isLocal, name, fields, comment)
    ensures var r := ReadPlain(Block(f, isLocal, name, fields, comment, rest), isLocal, isZip64, check, crc32);
            var g := Shown(f, isLocal);
            var sizes, protection := SizesIn(g, fields, isLocal, isZip64), ReadProtection(g, fields);
            && (r.Some? <==>
                  && StringsOk(f, isLocal, name, fields, comment, check, crc32)
                  && sizes.Some? && sizes.value.offset <= INT64_MAX && protection.Some?)
            && (r.Some? ==>
                  && Tells(r.value.0, g, isLocal, fields, sizes.value, protection.value)
                  && r.value.1 == FixedSize(isLocal) + |name| + Size(fields) + |comment|)
  {
    hide Write, Block, Size, ReadPlain, Interpret, StringsOk, SizesIn, ReadProtection, Tells, WithoutInternal;
    ReadBlock(f, isLocal, name, fields, comment, rest, isZip64, check, crc32);
    InterpretForeign(f, isLocal, name, fields, comment, isZip64, check, crc32);
  }

  lemma InterpretForeign(f: Fixed, isLocal: bool, name: seq<byte>, fields: seq<Field>, comment: seq<byte>,
      isZip64: bool,
      check: bool, crc32: Crc32)
    ensures var g := Shown(f, isLocal);
            var d := Interpret(g, name, Write(fields), comment, isLocal, isZip64, check, crc32);
            var sizes, protection := SizesIn(g, fields, isLocal, isZip64), ReadProtection(g, fields);
            && (d.Some? <==>
                  && StringsOk(f, isLocal, name, fields, comment, check, crc32)
                  && sizes.Some? && sizes.value.offset <= INT64_MAX && protection.Some?)
            && (d.Some? ==> Tells(d.value, g, isLocal, fields, sizes.value, protection.value))
  {
    hide GetField, ReadSizes, ReadProtection, Parse, Write, Bit, WithoutInternal, ReadString, ProcessUtf8, StringsOk;
    FieldsRead(fields);
    StringsRead(f, isLocal, name, fields, comment, check, crc32);
  }

  lemma StringsRead(f: Fixed, isLocal: bool, name: seq<byte>, fields: seq<Field>, comment: seq<byte>, check: bool,
      crc32: Crc32)
    ensures var flagged := Bit(f.bitFlags, ENCODING_UTF_8);
            var name1, comment1 := ReadString(name, flagged), ReadString(comment, flagged);
            StringsOk(f, isLocal, name, fields, comment, check, crc32) <==>
              && name1.Some? && comment1.Some?
              && var name2 := ProcessUtf8(fields, EF_UTF_8_NAME, name1.value, check, crc32);
                 && name2.Some? && !(check && 0 in Raw(name2.value))
                 && (!isLocal ==> ProcessUtf8(fields, EF_UTF_8_COMMENT, comment1.value, check, crc32).Some?)
  {
    hide GetField, Bit, U32;
  }

  // --- sizes (lines 590-608, 670-732) ---

  // The 64-bit values of the marked fields, as section 4.5.3 of APPNOTE.TXT has them follow each other.
  function MarkedValues(s: Sizes, v: Sizes): seq<byte> {
    (if s.uncomp == UINT32_MAX then Put64(v.uncomp) else []) + (if s.comp == UINT32_MAX then Put64(v.comp) else []) +
    (if s.offset == UINT32_MAX then Put64(v.offset) else []) + (if s.disk == UINT16_MAX then Put32(v.disk) else [])
  }

  // The values that stand for marks, and the others as they are.
  function Filled(s: Sizes, v: Sizes): Sizes {
    Sizes(if s.uncomp == UINT32_MAX then v.uncomp else s.uncomp, if s.comp == UINT32_MAX then v.comp else s.comp,
          if s.offset == UINT32_MAX then v.offset else s.offset, if s.disk == UINT16_MAX then v.disk else s.disk)
  }

  lemma CentralSizes(s: Sizes, v: Sizes, fields: seq<Field>, isZip64: bool)
    requires AnyMarked(s) && GetField(fields, EF_ZIP64) == Some(MarkedValues(s, v))
    ensures ReadSizes(s, fields, false, isZip64) == Some(Filled(s, v))
  {
    var a := if s.uncomp == UINT32_MAX then Put64(v.uncomp) else [];
    var b := if s.comp == UINT32_MAX then Put64(v.comp) else [];
    var c := if s.offset == UINT32_MAX then Put64(v.offset) else [];
    var d := if s.disk == UINT16_MAX then Put32(v.disk) else [];
    var data := MarkedValues(s, v);
    hide GetField, U64, U32, Put64, Put32, MatchesAll;
    assert data[..|a|] == a && data[|a|..|a| + |b|] == b;
    assert data[|a| + |b|..|a| + |b| + |c|] == c && data[|a| + |b| + |c|..] == d;
    if |a| == 8 {
      Read64(data, 0, v.uncomp);
    }
    if |b| == 8 {
      Read64(data, |a|, v.comp);
    }
    if |c| == 8 {
      Read64(data, |a| + |b|, v.offset);
    }
    if |d| == 4 {
      Read32(data, |a| + |b| + |c|, v.disk);
    }
  }

  // In a local header the field has both sizes; one that is not marked there is ignored.
  lemma LocalSizes(s: Sizes, v: Sizes, fields: seq<Field>, isZip64: bool)
    requires s.offset == s.disk == 0 && AnyMarked(s)
    requires GetField(fields, EF_ZIP64) == Some(Put64(v.uncomp) + Put64(v.comp))
    ensures ReadSizes(s, fields, true, isZip64) == Some(Filled(s, v))
  {
    hide GetField, U64, Put64, MatchesAll;
    var data := Put64(v.uncomp) + Put64(v.comp);
    assert data[..8] == Put64(v.uncomp) && data[8..] == Put64(v.comp);
    Read64(data, 0, v.uncomp);
    Read64(data, 8, v.comp);
  }

  // A field with all values, of which only the first was asked for, has to repeat the others.
  lemma AllSizes(s: Sizes, v: Sizes, withDisk: bool, fields: seq<Field>, isZip64: bool)
    requires s.uncomp == UINT32_MAX && s.comp < UINT32_MAX && s.offset < UINT32_MAX && s.disk < UINT16_MAX
    requires GetField(fields, EF_ZIP64) ==
             Some(Put64(v.uncomp) + Put64(v.comp) + Put64(v.offset) + if withDisk then Put32(v.disk) else [])
    ensures ReadSizes(s, fields, false, isZip64) ==
            if v.comp == s.comp && v.offset == s.offset
              && (withDisk ==> v.disk == s.disk) then Some(s.(uncomp := v.uncomp)) else None
  {
    hide GetField, U64, U32, Put64, Put32;
    var tail := if withDisk then Put32(v.disk) else [];
    var data := Put64(v.uncomp) + Put64(v.comp) + Put64(v.offset) + tail;
    assert data[..8] == Put64(v.uncomp) && data[8..16] == Put64(v.comp) && data[16..24] == Put64(v.offset)
           && data[24..] == tail;
    Read64(data, 0, v.uncomp);
    Read64(data, 8, v.comp);
    Read64(data, 16, v.offset);
    if withDisk {
      Read32(data, 24, v.disk);
    }
  }

  // Without a field the marks are taken as they are, but not in an archive with Zip64 end records; without marks the
  // field is ignored.
  lemma SizesWithoutField(s: Sizes, fields: seq<Field>, isLocal: bool, isZip64: bool)
    ensures !AnyMarked(s) ==> ReadSizes(s, fields, isLocal, isZip64) == Some(s)
    ensures AnyMarked(s) && GetField(fields, EF_ZIP64).None? ==>
              ReadSizes(s, fields, isLocal, isZip64) == if isZip64 then None else Some(s)
  {
    hide GetField;
  }

  // --- encryption (lines 777-855) ---

  // The extra field for AES has a version, the vendor, the strength and the method (section 7 of the AES specification
  // of WinZip); one with other values, or none at all, is refused.
  lemma AesOfForeign(f: Fixed, fields: seq<Field>, version: uint16, vendor: seq<byte>, mode: byte, compMethod: uint16)
    requires f.compMethod == CM_WINZIP_AES && |vendor| == 2
    requires GetField(fields, EF_WINZIP_AES) == Some(Put16(version) + vendor + [mode] + Put16(compMethod))
    ensures ReadProtection(f, fields) ==
            if (version == 1 || version == 2) && vendor == [0x41, 0x45] && 1 <= mode <= 3 then
              Some(Protection(if mode == 1 then EM_AES_128 else if mode ==
                              2 then EM_AES_192 else EM_AES_256, compMethod, version == 1))
            else None
  {
    hide GetField, U16, Put16;
    var data := Put16(version) + vendor + [mode] + Put16(compMethod);
    assert data[..2] == Put16(version) && data[2..4] == vendor && data[4] == mode && data[5..7] == Put16(compMethod);
    Read16(data, 0, version);
    Read16(data, 5, compMethod);
  }

  lemma ProtectionWithoutField(f: Fixed, fields: seq<Field>)
    ensures f.compMethod == CM_WINZIP_AES && GetField(fields, EF_WINZIP_AES).None? ==> ReadProtection(f, fields).None?
    ensures f.compMethod != CM_WINZIP_AES ==>
              ReadProtection(f, fields) ==
              Some(Protection(if !Bit(f.bitFlags, ENCRYPTED) then EM_NONE
                              else if Bit(f.bitFlags, STRONG_ENCRYPTION) then EM_UNKNOWN else EM_TRAD_PKWARE,
                              f.compMethod, true))
  {
    hide GetField, Bit;
  }

  // --- descriptors (lines 627-652) ---

  // A descriptor without a signature is read as well, if its checksum does not look like one.
  lemma UnsignedDescriptor(crc: uint32, compSize: uint64, uncompSize: uint64, isZip64: bool, rest: seq<byte>)
    requires Put32(crc) != DATADES_MAGIC && (isZip64 || (compSize <= UINT32_MAX && uncompSize <= UINT32_MAX))
    requires |rest| >= 24
    ensures var sizes := if isZip64 then Put64(compSize) + Put64(uncompSize) else Put32(compSize) + Put32(uncompSize);
            ReadDescriptor(Put32(crc) + sizes + rest, isZip64) == Some(Descriptor(crc, compSize, uncompSize))
  {
    hide U32, U64, Put32, Put64;
    var sizes := if isZip64 then Put64(compSize) + Put64(uncompSize) else Put32(compSize) + Put32(uncompSize);
    var b := Put32(crc) + sizes + rest;
    assert b[..4] == Put32(crc);
    Read32(b, 0, crc);
    if isZip64 {
      assert b[0..20] == Put32(crc) + Put64(compSize) + Put64(uncompSize);
      Take64(b, 0, Put32(crc) + Put64(compSize), uncompSize);
      Take64(b, 0, Put32(crc), compSize);
    } else {
      assert b[0..12] == Put32(crc) + Put32(compSize) + Put32(uncompSize);
      Take32(b, 0, Put32(crc) + Put32(compSize), uncompSize);
      Take32(b, 0, Put32(crc), compSize);
    }
  }

  // Numbers in the header have to be zero or the same as in the descriptor, which are taken over.
  lemma DescriptorDecides(d: Dirent, crc: uint32, compSize: uint64, uncompSize: uint64, isZip64: bool, b: seq<byte>)
    requires ReadDescriptor(b, isZip64) == Some(Descriptor(crc, compSize, uncompSize))
    ensures ApplyDescriptor(d, b, isZip64) ==
            if (d.crc == 0 || d.crc == crc) && (d.compSize == 0 || d.compSize == compSize)
              && (d.uncompSize == 0 || d.uncompSize == uncompSize) then
              Some(d.(crc := crc, compSize := compSize, uncompSize := uncompSize))
            else None
  {
    hide ReadDescriptor;
  }

  // --- a stale name field ---

  const STALE: Data := [1, 0x43, 0xBE, 0xB7, 0xE8, 0x61]

  // An entry that was renamed from "a" to "b" by a program that left the field with the name in UTF-8 alone is "b".
  lemma StaleNameIsIgnored(f: Fixed, rest: seq<byte>, check: bool, crc32: Crc32)
    requires f == Fixed(0, 10, 0, 0, 0, 0, 0, 5, 5, 1, 10, 0, 0, 0, 0, 0)
    requires crc32([0x61]) == 0xE8B7BE43 && crc32([0x62]) == 0x71BEEFF9
    ensures var r :=
              ReadPlain(Block(f, false, [0x62], [Field(EF_UTF_8_NAME, STALE)], [], rest), false, false, check, crc32);
            r.Some? && r.value.0.filename == Some(ZipString([0x62], StringEncoding.Unknown))
  {
    var fields := [Field(EF_UTF_8_NAME, STALE)];
    hide ReadPlain, Block, Select, Size, GetField, Bit, Tells, StringsOk, SizesIn, ReadProtection;
    StaleField();
    NoFlags();
    StaleAccepted(f, fields, check, crc32);
    NameOfForeign(f, false, [0x62], fields, [], rest, false, check, crc32, 0xE8B7BE43, [0x61]);
    ForeignAccepted(f, false, [0x62], fields, [], rest, false, check, crc32);
  }

  lemma StaleAccepted(f: Fixed, fields: seq<Field>, check: bool, crc32: Crc32)
    requires f == Fixed(0, 10, 0, 0, 0, 0, 0, 5, 5, 1, 10, 0, 0, 0, 0, 0) && fields == [Field(EF_UTF_8_NAME, STALE)]
    requires crc32([0x61]) == 0xE8B7BE43 && crc32([0x62]) == 0x71BEEFF9
    ensures LengthsFit(f, false, [0x62], fields, []) && GetField(fields, EF_UTF_8_NAME) == Some(STALE)
    ensures StringsOk(f, false, [0x62], fields, [], check, crc32) && ReadProtection(f, fields).Some?
    ensures SizesIn(f, fields, false, false) == Some(Sizes(5, 5, 0, 0))
  {
    assert fields[1..] == [] && Size(fields) == 10;
    OnlyField(Field(EF_UTF_8_NAME, STALE));
    assert GetField(fields, EF_UTF_8_NAME) == Some(STALE) && GetField(fields, EF_UTF_8_COMMENT) == None;
    hide Select, Size, Put32, U32, GetField, Bit;
    NoFlags();
    StaleField();
    TextField(0xE8B7BE43, [0x61]);
    SizesWithoutField(Sizes(5, 5, 0, 0), fields, false, false);
    ProtectionWithoutField(f, fields);
  }

  lemma StaleField()
    ensures STALE == [1] + Put32(0xE8B7BE43) + [0x61]
  {
  }

  lemma NoFlags()
    ensures !Bit(0, ENCODING_UTF_8) && !Bit(0, ENCRYPTED)
  {
  }

  lemma OnlyField(f: Field)
    ensures forall id :: GetField([f], id) == if f.id == id then Some(f.data) else None
  {
    forall id
      ensures Select([f], id) == if f.id == id then [f.data] else []
    {
      SelectOne(f, id);
    }
  }
}
