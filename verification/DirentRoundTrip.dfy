// Reading a header gives back the entry it was written for.
module DirentRoundTrip {
  import opened Bytes
  import opened LittleEndian
  import opened ExtraField
  import opened ZipString
  import opened DirentFormat
  import opened DirentHeader
  import StringEncoding
  import Utf8
  import Cp437

  predicate ValidString(s: Stored) {
    s.Some? ==>
      && s.value.raw != [] && s.value.encoding != StringEncoding.Error
      && (s.value.encoding.Utf8Known? || s.value.encoding.Utf8Guessed? ==> Utf8.WellFormed(s.value.raw))
      && (s.value.encoding.Ascii? ==> StringEncoding.PlainAscii(s.value.raw))
  }

  predicate NoInternal(fields: seq<Field>) {
    forall k :: 0 <= k < |fields| ==> !IsInternal(fields[k].id)
  }

  predicate ValidEncryption(d: Dirent) {
    || IsAes(d.encryption)
    || (d.compMethod != CM_WINZIP_AES &&
        (d.encryption == EM_NONE ||
         (d.encryption == EM_TRAD_PKWARE && !Bit(d.bitFlags, STRONG_ENCRYPTION)) ||
         (d.encryption == EM_UNKNOWN && Bit(d.bitFlags, STRONG_ENCRYPTION))))
  }

  // Entries as libzip keeps them: strings fit their encoding, the user's extra fields are none of libzip's own.
  predicate Valid(d: Dirent)
    ensures Valid(d) ==> Storable(d)
  {
    && Storable(d) && ValidString(d.filename) && ValidString(d.comment)
    && NoInternal(d.local) && NoInternal(d.central) && ValidEncryption(d) && d.disk < UINT16_MAX
  }

  // The sizes can be read back, unless one is exactly 0xFFFFFFFF and none is larger: the writer then makes an empty
  // Zip64 field (lines 346-352, 975-993).
  predicate SizesReadable(d: Dirent, isLocal: bool, force: bool) {
    (isLocal && force) || OverLimit(d, isLocal) || !NeedsZip64(d, isLocal)
  }

  function ReadBack(d: Dirent, s: Stored): Stored {
    if s.None? then None
    else
      Some(ZipString(s.value.raw,
                     if IsUtf8(s) || UseUtf8Flag(d) then StringEncoding.Utf8Known else StringEncoding.Unknown))
  }

  function Recovered(d: Dirent, isLocal: bool): Dirent {
    Dirent(if isLocal then 0 else d.versionMadeBy, Max(if NeedsZip64(d, isLocal) then 45 else 0, d.versionNeeded),
           FlagsOf(d),
           if IsAes(d.encryption) then d.compMethod % 0x1_0000 else ActualMethod(d.compMethod), d.time, d.date,
           if AesVersion(d) == 2 then 0 else d.crc, d.compSize, d.uncompSize, ReadBack(d, d.filename),
           if isLocal then d.local else [], if isLocal then [] else d.central,
           if isLocal then None else ReadBack(d, d.comment),
           if isLocal then 0 else d.disk, if isLocal then 0 else d.intAttrib, if isLocal then 0 else d.extAttrib,
           if isLocal then 0 else d.offset, d.encryption, AesVersion(d) != 2)
  }

  // --- the extra fields of a header ---

  lemma {:induction false} WriteOfBoth(a: seq<Field>, b: seq<Field>)
    ensures Write(a + b) == Write(a) + Write(b)
  {
    if a == [] {
      assert a + b == b;
    } else {
      assert (a + b)[1..] == a[1..] + b;
      WriteOfBoth(a[1..], b);
    }
  }

  lemma ParseOfBoth(own: seq<Field>, user: seq<Field>)
    ensures Parse(Write(own) + Write(user)) == Some(own + user)
  {
    WriteOfBoth(own, user);
    ParseOfWrite(own + user, []);
    assert Write(own + user) + [] == Write(own + user);
  }

  lemma {:induction false} UserSelect(user: seq<Field>, id: uint16)
    requires NoInternal(user) && IsInternal(id)
    ensures Select(user, id) == [] && WithoutInternal(user) == user
  {
    if user != [] {
      UserSelect(user[1..], id);
    }
  }

  lemma {:induction false} WithoutOwn(own: seq<Field>, user: seq<Field>)
    requires (forall k :: 0 <= k < |own| ==> IsInternal(own[k].id)) && NoInternal(user)
    ensures WithoutInternal(own + user) == user
  {
    UserSelect(user, EF_ZIP64);
    if own == [] {
      assert own + user == user;
    } else {
      assert (own + user)[1..] == own[1..] + user;
      WithoutOwn(own[1..], user);
    }
  }

  // Of the fields that are there, each has its own id.
  function OwnData(d: Dirent, isLocal: bool, force: bool, crc32: Crc32, id: uint16): Option<Data>
    requires NamesFit(d, isLocal)
  {
    if id == EF_WINZIP_AES && IsAes(d.encryption) then Some(AesField(d).data)
    else if id == EF_ZIP64 && ((isLocal && force) || NeedsZip64(d, isLocal)) then Some(Zip64Data(d, isLocal, force))
    else if id == EF_UTF_8_COMMENT && NeedsCommentField(d, isLocal) then
      Some(Utf8Field(EF_UTF_8_COMMENT, Raw(d.comment), crc32).data)
    else if id == EF_UTF_8_NAME && NeedsNameField(d) then Some(Utf8Field(EF_UTF_8_NAME, Raw(d.filename), crc32).data)
    else None
  }

  lemma FieldIfSelect(on: bool, f: Field, id: uint16)
    ensures Select(FieldIf(on, f), id) == if on && f.id == id then [f.data] else []
  {
    SelectOne(f, id);
  }

  lemma OwnSelect(d: Dirent, isLocal: bool, force: bool, crc32: Crc32, user: seq<Field>, id: uint16)
    requires NamesFit(d, isLocal) && NoInternal(user) && IsInternal(id)
    ensures GetField(OwnFields(d, isLocal, force, crc32) + user, id) == OwnData(d, isLocal, force, crc32, id)
  {
    hide Select, FieldIf, AesField, Zip64Data, Utf8Field, NeedsNameField, NeedsCommentField, NeedsZip64, IsAes;
    var aes := FieldIf(IsAes(d.encryption), AesField(d));
    var zip64 := FieldIf((isLocal && force) || NeedsZip64(d, isLocal), Field(EF_ZIP64, Zip64Data(d, isLocal, force)));
    var comment := if NeedsCommentField(d, isLocal) then [Utf8Field(EF_UTF_8_COMMENT, Raw(d.comment), crc32)] else [];
    var name := if NeedsNameField(d) then [Utf8Field(EF_UTF_8_NAME, Raw(d.filename), crc32)] else [];
    SelectSplit(aes + (zip64 + (comment + name)), user, id);
    SelectSplit(aes, zip64 + (comment + name), id);
    SelectSplit(zip64, comment + name, id);
    SelectSplit(comment, name, id);
    UserSelect(user, id);
    FieldIfSelect(IsAes(d.encryption), AesField(d), id);
    FieldIfSelect((isLocal && force) || NeedsZip64(d, isLocal), Field(EF_ZIP64, Zip64Data(d, isLocal, force)), id);
    if NeedsCommentField(d, isLocal) {
      SelectOne(Utf8Field(EF_UTF_8_COMMENT, Raw(d.comment), crc32), id);
    }
    if NeedsNameField(d) {
      SelectOne(Utf8Field(EF_UTF_8_NAME, Raw(d.filename), crc32), id);
    }
    NothingSelected(id);
  }

  lemma NothingSelected(id: uint16)
    ensures Select([], id) == []
  {
  }

  // --- names ---

  // A string that is known to be UTF-8, or ASCII, can be flagged as UTF-8.
  lemma KnownIsWellFormed(s: Stored)
    requires ValidString(s) && (IsUtf8(s) || IsAscii(s))
    ensures Utf8.WellFormed(Raw(s))
  {
    if s.Some? && IsAscii(s) {
      AsciiIsWellFormed(s.value.raw);
    }
  }

  lemma {:induction false} AsciiIsWellFormed(raw: seq<byte>)
    requires StringEncoding.AllAscii(raw)
    ensures Utf8.WellFormed(raw)
  {
    if raw != [] {
      AsciiIsWellFormed(raw[1..]);
    }
  }

  lemma ReadStringBack(d: Dirent, s: Stored)
    requires s == d.filename || s == d.comment
    requires Valid(d)
    ensures ReadString(Raw(s), UseUtf8Flag(d)) ==
            var encoding := if UseUtf8Flag(d) then StringEncoding.Utf8Known else StringEncoding.Unknown;
            Some(if s.None? then None else Some(ZipString(s.value.raw, encoding)))
  {
    hide Known, Utf8.WellFormed;
    if UseUtf8Flag(d) {
      KnownIsWellFormed(s);
    }
  }

  lemma Utf8FieldIsRead(id: uint16, raw: seq<byte>, crc32: Crc32)
    requires |raw| + 5 <= UINT16_MAX
    ensures var data := Utf8Field(id, raw, crc32).data;
            |data| >= 5 && data[0] == 1 && U32(data, 1) == crc32(raw) && data[5..] == raw
  {
    hide U32, Put32;
    var data := Utf8Field(id, raw, crc32).data;
    assert data[1..5] == Put32(crc32(raw));
    Read32(data, 1, crc32(raw));
  }

  // The extra field for a string gives it back as UTF-8; without one it stays as it was read.
  lemma ProcessUtf8Back(fields: seq<Field>, id: uint16, s: Stored, encoding: StringEncoding.Encoding, field: bool,
      check: bool, crc32: Crc32)
    requires field ==> |Raw(s)| + 5 <= UINT16_MAX && IsUtf8(s)
    requires GetField(fields, id) == if field then Some(Utf8Field(id, Raw(s), crc32).data) else None
    requires ValidString(s)
    ensures var read := if s.None? then None else Some(ZipString(s.value.raw, encoding));
            ProcessUtf8(fields, id, read, check, crc32) ==
              Some(if field then Some(ZipString(s.value.raw, StringEncoding.Utf8Known)) else read)
  {
    hide Utf8Field, GetField, U32;
    if field {
      Utf8FieldIsRead(id, Raw(s), crc32);
      KnownIsWellFormed(s);
    }
  }

  // --- sizes ---

  lemma LargeIsRead(d: Dirent)
    ensures var data := Zip64Data(d, false, false);
            OverLimit(d, false) ==>
              var at1 := if d.uncompSize >= UINT32_MAX then 8 else 0;
              var at2 := at1 + if d.compSize >= UINT32_MAX then 8 else 0;
              var at3 := at2 + if d.offset >= UINT32_MAX then 8 else 0;
              && |data| == at3
              && (d.uncompSize >= UINT32_MAX ==> Get64(data, 0) == d.uncompSize)
              && (d.compSize >= UINT32_MAX ==> Get64(data, at1) == d.compSize)
              && (d.offset >= UINT32_MAX ==> Get64(data, at2) == d.offset)
  {
    hide U64, Put64;
    var a, b, c := Large(d.uncompSize), Large(d.compSize), Large(d.offset);
    var data := a + b + c;
    assert data[..|a|] == a && data[|a|..|a| + |b|] == b && data[|a| + |b|..] == c;
    if |a| == 8 {
      Read64(data, 0, d.uncompSize);
    }
    if |b| == 8 {
      Read64(data, |a|, d.compSize);
    }
    if |c| == 8 {
      Read64(data, |a| + |b|, d.offset);
    }
  }

  lemma BothAreRead(d: Dirent)
    ensures var data := Put64(d.uncompSize) + Put64(d.compSize);
            Get64(data, 0) == d.uncompSize && Get64(data, 8) == d.compSize
  {
    hide U64, Put64;
    var data := Put64(d.uncompSize) + Put64(d.compSize);
    assert data[..8] == Put64(d.uncompSize) && data[8..] == Put64(d.compSize);
    Read64(data, 0, d.uncompSize);
    Read64(data, 8, d.compSize);
  }

  function HeaderSizes(d: Dirent, isLocal: bool): Sizes {
    Sizes(Low32Size(d.uncompSize, d.compSize, isLocal), Low32Size(d.compSize, d.uncompSize, isLocal),
          if isLocal then 0 else Low32(d.offset), if isLocal then 0 else d.disk)
  }

  // The sizes are read back exactly when they are readable.
  lemma SizesBack(d: Dirent, isLocal: bool, force: bool, fields: seq<Field>, isZip64: bool)
    requires d.disk < UINT16_MAX
    requires GetField(fields, EF_ZIP64) ==
             if (isLocal && force) || NeedsZip64(d, isLocal) then Some(Zip64Data(d, isLocal, force)) else None
    ensures ReadSizes(HeaderSizes(d, isLocal), fields, isLocal, isZip64) ==
            if !SizesReadable(d, isLocal, force) then None
            else Some(Sizes(d.uncompSize, d.compSize, if isLocal then 0 else d.offset, if isLocal then 0 else d.disk))
  {
    hide GetField, U64, Put64, U32;
    if isLocal {
      BothAreRead(d);
    } else {
      LargeIsRead(d);
    }
  }

  // --- encryption ---

  lemma ProtectionBack(d: Dirent, isLocal: bool, fieldsLength: uint16, fields: seq<Field>)
    requires Valid(d)
    requires GetField(fields, EF_WINZIP_AES) == if IsAes(d.encryption) then Some(AesField(d).data) else None
    ensures ReadProtection(Shown(FixedOf(d, isLocal, fieldsLength), isLocal), fields) ==
            var compMethod := if IsAes(d.encryption) then d.compMethod % 0x1_0000 else ActualMethod(d.compMethod);
            Some(Protection(d.encryption, compMethod, AesVersion(d) != 2))
  {
    hide GetField, Bit, WithBit, U16, Put16, UseUtf8Flag;
    BitsOf(d.bitFlags, d.encryption != EM_NONE, UseUtf8Flag(d));
    if IsAes(d.encryption) {
      var data := AesField(d).data;
      assert data[..2] == Put16(AesVersion(d)) && data[2..4] == [0x41, 0x45]
             && data[5..7] == Put16(d.compMethod % 0x1_0000);
      Read16(data, 0, AesVersion(d));
      Read16(data, 5, d.compMethod % 0x1_0000);
    }
  }

  // --- the header ---

  predicate Readable(d: Dirent, isLocal: bool, force: bool, check: bool) {
    SizesReadable(d, isLocal, force) && (isLocal || d.offset <= INT64_MAX) && (check ==> 0 !in Raw(d.filename))
  }

  lemma OwnAreInternal(d: Dirent, isLocal: bool, force: bool, crc32: Crc32)
    requires NamesFit(d, isLocal)
    ensures var own := OwnFields(d, isLocal, force, crc32); forall k :: 0 <= k < |own| ==> IsInternal(own[k].id)
  {
    hide Zip64Data, NeedsNameField, NeedsCommentField, NeedsZip64, IsAes;
  }

  lemma NamesBack(d: Dirent, isLocal: bool, force: bool, check: bool, crc32: Crc32)
    requires Valid(d) && NamesFit(d, isLocal)
    ensures var fields, flagged := OwnFields(d, isLocal, force, crc32) + UserFields(d, isLocal), UseUtf8Flag(d);
            var name, comment := ReadString(Raw(d.filename), flagged), ReadString(Raw(d.comment), flagged);
            && name.Some?
            && ProcessUtf8(fields, EF_UTF_8_NAME, name.value, check, crc32) == Some(ReadBack(d, d.filename))
            && comment.Some?
            && (!isLocal ==>
                  ProcessUtf8(fields, EF_UTF_8_COMMENT, comment.value, check, crc32) == Some(ReadBack(d, d.comment)))
  {
    hide OwnFields, ReadString, ProcessUtf8, GetField, Known, UseUtf8Flag, Utf8Field, IsAes, NeedsZip64, NoInternal,
         ValidString, IsInternal;
    var fields := OwnFields(d, isLocal, force, crc32) + UserFields(d, isLocal);
    var encoding := if UseUtf8Flag(d) then StringEncoding.Utf8Known else StringEncoding.Unknown;
    ReadStringBack(d, d.filename);
    ReadStringBack(d, d.comment);
    InternalIds();
    OnlySomeIsUtf8(d.filename);
    OnlySomeIsUtf8(d.comment);
    OwnSelect(d, isLocal, force, crc32, UserFields(d, isLocal), EF_UTF_8_NAME);
    OwnSelect(d, isLocal, force, crc32, UserFields(d, isLocal), EF_UTF_8_COMMENT);
    ProcessUtf8Back(fields, EF_UTF_8_NAME, d.filename, encoding, NeedsNameField(d), check, crc32);
    if !isLocal {
      ProcessUtf8Back(fields, EF_UTF_8_COMMENT, d.comment, encoding, NeedsCommentField(d, isLocal), check, crc32);
    }
  }

  lemma InterpretBack(d: Dirent, isLocal: bool, force: bool, isZip64: bool, check: bool, crc32: Crc32)
    requires Valid(d) && NamesFit(d, isLocal)
    requires Size(OwnFields(d, isLocal, force, crc32)) + Size(UserFields(d, isLocal)) <= UINT16_MAX
    ensures var own, user := OwnFields(d, isLocal, force, crc32), UserFields(d, isLocal);
            var f := Shown(FixedOf(d, isLocal, Size(own) + Size(user)), isLocal);
            var comment := if isLocal then [] else Raw(d.comment);
            Interpret(f, Raw(d.filename), Write(own) + Write(user), comment, isLocal, isZip64, check, crc32) ==
              if Readable(d, isLocal, force, check) then Some(Recovered(d, isLocal)) else None
  {
    hide OwnFields, Write, Size, Parse, ReadString, ProcessUtf8, ReadSizes, ReadProtection, GetField, SizesReadable,
         Known, UseUtf8Flag, WithBit, Bit, Zip64Data, Utf8Field, AesField, IsAes, WithoutInternal, NeedsZip64,
         NoInternal, ValidString, IsInternal;
    var own, user := OwnFields(d, isLocal, force, crc32), UserFields(d, isLocal);
    BitsOf(d.bitFlags, d.encryption != EM_NONE, UseUtf8Flag(d));
    ReadNothing(UseUtf8Flag(d));
    ParseOfBoth(own, user);
    NamesBack(d, isLocal, force, check, crc32);
    InternalIds();
    OwnSelect(d, isLocal, force, crc32, user, EF_ZIP64);
    OwnSelect(d, isLocal, force, crc32, user, EF_WINZIP_AES);
    SizesBack(d, isLocal, force, own + user, isZip64);
    ProtectionBack(d, isLocal, Size(own) + Size(user), own + user);
    OwnAreInternal(d, isLocal, force, crc32);
    WithoutOwn(own, user);
  }

  lemma OnlySomeIsUtf8(s: Stored)
    ensures IsUtf8(s) ==> s.Some?
  {
  }

  lemma ReadNothing(flagged: bool)
    ensures ReadString([], flagged) == Some(None)
  {
  }

  lemma InternalIds()
    ensures IsInternal(EF_UTF_8_NAME) && IsInternal(EF_UTF_8_COMMENT) && IsInternal(EF_ZIP64)
    ensures IsInternal(EF_WINZIP_AES)
  {
  }

  // The parts of a header that was written.
  lemma HeaderParts(d: Dirent, isLocal: bool, force: bool, rest: seq<byte>, crc32: Crc32)
    requires Storable(d) && WriteHeader(d, isLocal, force, crc32).Some?
    ensures var own, user := OwnFields(d, isLocal, force, crc32), UserFields(d, isLocal);
            var comment := if isLocal then [] else Raw(d.comment);
            var f := FixedOf(d, isLocal, Size(own) + Size(user));
            var b, i := WriteHeader(d, isLocal, force, crc32).value + rest, FixedSize(isLocal);
            var j := i + |Raw(d.filename)|;
            var k := j + Size(own) + Size(user);
            var l := k + |comment|;
            && l == |b| - |rest| && b[..4] == Magic(isLocal) && DecodeFixed(b, isLocal) == Shown(f, isLocal)
            && b[i..j] == Raw(d.filename) && b[j..k] == Write(own) + Write(user) && b[k..l] == comment
  {
    hide OwnFields, Write, Size, FixedOf, EncodeFixed, DecodeFixed, Shown;
    var own, user := OwnFields(d, isLocal, force, crc32), UserFields(d, isLocal);
    var f := FixedOf(d, isLocal, Size(own) + Size(user));
    var fields, comment := Write(own) + Write(user), if isLocal then [] else Raw(d.comment);
    var tail := Raw(d.filename) + fields + comment + rest;
    assert WriteHeader(d, isLocal, force, crc32).value + rest == EncodeFixed(f, isLocal) + tail;
    DecodeOfEncoded(f, isLocal, tail);
    SizeIsLength(own);
    SizeIsLength(user);
    Slices(EncodeFixed(f, isLocal), Raw(d.filename), fields, comment, rest);
  }

  // A written header, wherever it stands, is read as the entry it was written for if and only if it is readable; the
  // size returned, the bytes written and the size computed from the length fields are the same.
  lemma PlainRoundTrip(d: Dirent, isLocal: bool, force: bool, rest: seq<byte>, isZip64: bool, check: bool, crc32: Crc32)
    requires Valid(d) && WriteHeader(d, isLocal, force, crc32).Some?
    ensures var b := WriteHeader(d, isLocal, force, crc32).value;
            && HeaderSize(b + rest, isLocal) == Some(|b|)
            && ReadPlain(b + rest, isLocal, isZip64, check, crc32) ==
               if Readable(d, isLocal, force, check) then Some((Recovered(d, isLocal), |b|)) else None
  {
    hide OwnFields, Write, Size, Interpret, Readable, Recovered, DecodeFixed, WriteHeader, HeaderSize, FlagsOf,
         ValidString, NoInternal, ValidEncryption, NeedsZip64, IsAes;
    HeaderSizeBack(d, isLocal, force, rest, crc32);
    HeaderParts(d, isLocal, force, rest, crc32);
    WrittenFits(d, isLocal, force, crc32);
    InterpretBack(d, isLocal, force, isZip64, check, crc32);
  }

  lemma WrittenFits(d: Dirent, isLocal: bool, force: bool, crc32: Crc32)
    requires Storable(d) && WriteHeader(d, isLocal, force, crc32).Some?
    ensures NamesFit(d, isLocal)
    ensures Size(OwnFields(d, isLocal, force, crc32)) + Size(UserFields(d, isLocal)) <= UINT16_MAX
  {
    hide OwnFields, FixedOf, EncodeFixed;
  }

  // --- data descriptors (lib/zip_close.c:766-797) ---

  function WriteDescriptor(d: Dirent, isZip64: bool): seq<byte> {
    DATADES_MAGIC + Put32(d.crc) +
    if isZip64 then Put64(d.compSize) + Put64(d.uncompSize)
    else Put32(d.compSize % 0x1_0000_0000) + Put32(d.uncompSize % 0x1_0000_0000)
  }

  // The data descriptor that follows the data, if any.
  function Trailer(d: Dirent, isZip64: bool): seq<byte> {
    if Bit(d.bitFlags, DATA_DESCRIPTOR) then WriteDescriptor(d, isZip64) else []
  }

  // What a descriptor written with wide or narrow sizes is taken for. The writer goes by the entry, the reader by the
  // archive (lib/zip_close.c:281, 627; lib/zip_open.c:559-568): two narrow sizes look like one wide one, and the other
  // comes from behind the descriptor; of two wide sizes only the first is seen, in halves.
  function SeenAs(d: Dirent, wide: bool, isZip64: bool, rest: seq<byte>): Option<Descriptor> {
    if |WriteDescriptor(d, wide)| + |rest| < 24 then None
    else if wide == isZip64 then Some(Descriptor(d.crc, d.compSize, d.uncompSize))
    else if wide then Some(Descriptor(d.crc, d.compSize % 0x1_0000_0000, d.compSize / 0x1_0000_0000))
    else
      var uncompSize: int := d.uncompSize;
      Some(Descriptor(d.crc, d.compSize % 0x1_0000_0000 + uncompSize % 0x1_0000_0000 * 0x1_0000_0000, U64(rest, 0)))
  }

  lemma DescriptorRoundTrip(d: Dirent, wide: bool, isZip64: bool, rest: seq<byte>)
    requires wide || (d.compSize <= UINT32_MAX && d.uncompSize <= UINT32_MAX)
    ensures ReadDescriptor(WriteDescriptor(d, wide) + rest, isZip64) == SeenAs(d, wide, isZip64, rest)
  {
    hide U32, U64, Put32, Put64;
    var b, head := WriteDescriptor(d, wide) + rest, DATADES_MAGIC + Put32(d.crc);
    assert b[..4] == DATADES_MAGIC;
    if |b| >= 24 {
      if wide {
        WideDescriptor(b, d);
      } else {
        NarrowDescriptor(b, d);
        NextSize(b, rest);
      }
    }
  }

  lemma WideDescriptor(b: seq<byte>, d: Dirent)
    requires Holds(b, 0, WriteDescriptor(d, true))
    ensures U32(b, 4) == d.crc && U64(b, 8) == d.compSize && U64(b, 16) == d.uncompSize
    ensures U32(b, 8) == d.compSize % 0x1_0000_0000 && U32(b, 12) == d.compSize / 0x1_0000_0000
  {
    hide U32, U64, Put32;
    var head := DATADES_MAGIC + Put32(d.crc);
    var low, high := Put32(d.compSize % 0x1_0000_0000), Put32(d.compSize / 0x1_0000_0000);
    assert WriteDescriptor(d, true) == head + Put64(d.compSize) + Put64(d.uncompSize);
    Take64(b, 0, head + Put64(d.compSize), d.uncompSize);
    Take64(b, 0, head, d.compSize);
    Take32(b, 0, DATADES_MAGIC, d.crc);
    Parts(b, 0, head + Put64(d.compSize), Put64(d.uncompSize));
    assert head + Put64(d.compSize) == head + low + high;
    Take32(b, 0, head + low, d.compSize / 0x1_0000_0000);
    Take32(b, 0, head, d.compSize % 0x1_0000_0000);
  }

  lemma NarrowDescriptor(b: seq<byte>, d: Dirent)
    requires Holds(b, 0, WriteDescriptor(d, false))
    ensures U32(b, 4) == d.crc
    ensures U32(b, 8) == d.compSize % 0x1_0000_0000 && U32(b, 12) == d.uncompSize % 0x1_0000_0000
    ensures var c: int, u: int := d.compSize, d.uncompSize;
            U64(b, 8) == c % 0x1_0000_0000 + u % 0x1_0000_0000 * 0x1_0000_0000
  {
    hide U32, Put32;
    var head, low := DATADES_MAGIC + Put32(d.crc), Put32(d.compSize % 0x1_0000_0000);
    Take32(b, 0, head + low, d.uncompSize % 0x1_0000_0000);
    Take32(b, 0, head, d.compSize % 0x1_0000_0000);
    Take32(b, 0, DATADES_MAGIC, d.crc);
  }

  // The number behind a narrow descriptor.
  lemma NextSize(b: seq<byte>, rest: seq<byte>)
    requires |b| == 16 + |rest| && |rest| >= 8 && b[16..] == rest
    ensures U64(b, 16) == U64(rest, 0)
  {
    assert forall k :: 0 <= k < 8 ==> b[16 + k] == rest[k];
  }

  // The width of the sizes in the descriptor of an entry (lib/zip_close.c:281, 627).
  predicate IsWide(d: Dirent, force: bool) {
    force || NeedsZip64(d, true)
  }

  // What a header with its data and its descriptor, if it announces one, is read as. The checksum that the header of a
  // short encrypted entry leaves out comes from the descriptor.
  function ReadBackAs(d: Dirent, isLocal: bool, force: bool, rest: seq<byte>, isZip64: bool,
      check: bool): Option<Dirent> {
    if !Readable(d, isLocal, force, check) then None
    else if !isLocal || !Bit(d.bitFlags, DATA_DESCRIPTOR) then Some(Recovered(d, isLocal))
    else DescribedAs(d, IsWide(d, force), isZip64, rest)
  }

  function DescribedAs(d: Dirent, wide: bool, isZip64: bool, rest: seq<byte>): Option<Dirent> {
    var seen := SeenAs(d, wide, isZip64, rest);
    if seen.None? || !Agrees(d.compSize, seen.value.compSize) || !Agrees(d.uncompSize, seen.value.uncompSize) then None
    else
      Some(Recovered(d, true).(crc := d.crc, compSize := seen.value.compSize, uncompSize := seen.value.uncompSize))
  }

  // What follows the data of an entry.
  function Behind(d: Dirent, isLocal: bool, force: bool, rest: seq<byte>): seq<byte> {
    if isLocal then Trailer(d, IsWide(d, force)) + rest else rest
  }

  lemma DescriptorApplied(d: Dirent, isLocal: bool, force: bool, isZip64: bool, rest: seq<byte>)
    ensures isLocal && Bit(d.bitFlags, DATA_DESCRIPTOR) ==>
              ApplyDescriptor(Recovered(d, true), Behind(d, isLocal, force, rest), isZip64) ==
              DescribedAs(d, IsWide(d, force), isZip64, rest)
  {
    assert IsWide(d, force) || (d.compSize <= UINT32_MAX && d.uncompSize <= UINT32_MAX);
    hide WriteDescriptor, ReadDescriptor, FlagsOf, ReadBack, SeenAs, NeedsZip64, IsAes, Bit, IsWide;
    DescriptorRoundTrip(d, IsWide(d, force), isZip64, rest);
    SeenChecksum(d, IsWide(d, force), isZip64, rest);
  }

  lemma SeenChecksum(d: Dirent, wide: bool, isZip64: bool, rest: seq<byte>)
    ensures SeenAs(d, wide, isZip64, rest).Some? ==> SeenAs(d, wide, isZip64, rest).value.crc == d.crc
  {
  }

  lemma HeaderRoundTrip(d: Dirent, isLocal: bool, force: bool, data: seq<byte>, rest: seq<byte>, isZip64: bool,
      check: bool, crc32: Crc32)
    requires Valid(d) && WriteHeader(d, isLocal, force, crc32).Some?
    ensures var b := WriteHeader(d, isLocal, force, crc32).value;
            var file, r := b + (data + Behind(d, isLocal, force, rest)),
                ReadBackAs(d, isLocal, force, rest, isZip64, check);
            && HeaderSize(file, isLocal) == Some(|b|)
            && ReadHeader(file, isLocal, isZip64, |data|, check, crc32) ==
              if r.None? then None else Some((r.value, |b|))
  {
    hide Readable, WriteHeader, ReadPlain, ReadHeader, HeaderSize, ApplyDescriptor, Bit, Recovered, DescribedAs, IsWide,
         Valid, Behind;
    var b, tail := WriteHeader(d, isLocal, force, crc32).value, Behind(d, isLocal, force, rest);
    PlainRoundTrip(d, isLocal, force, data + tail, isZip64, check, crc32);
    FlagsKeepDescriptor(d, isLocal);
    DescriptorApplied(d, isLocal, force, isZip64, rest);
    ReadBehind(b, data, tail, isLocal, isZip64, check, crc32);
  }

  // Behind a header and its data the descriptor is read, if there is one.
  lemma ReadBehind(b: seq<byte>, data: seq<byte>, tail: seq<byte>, isLocal: bool, isZip64: bool, check: bool,
      crc32: Crc32)
    ensures var plain := ReadPlain(b + (data + tail), isLocal, isZip64, check, crc32);
            var r := ReadHeader(b + (data + tail), isLocal, isZip64, |data|, check, crc32);
            && (plain.None? ==> r == None)
            && (plain.Some? && plain.value.1 == |b| ==>
                  var d := plain.value.0;
                  if !isLocal || !Bit(d.bitFlags, DATA_DESCRIPTOR) then r == plain
                  else
                    var full := ApplyDescriptor(d, tail, isZip64);
                    r == if full.None? then None else Some((full.value, |b|)))
  {
    hide ReadPlain, ApplyDescriptor, Bit;
    assert (b + (data + tail))[|b| + |data|..] == tail;
  }

  // A readable entry with a descriptor is read back if and only if its width is that of the archive, or its data is
  // empty and what is seen happens to be the same; otherwise it is refused, unless it is empty.
  lemma DescriptorWidths(d: Dirent, force: bool, rest: seq<byte>, isZip64: bool, check: bool)
    requires Readable(d, true, force, check) && Bit(d.bitFlags, DATA_DESCRIPTOR) && |rest| >= 8
    ensures ReadBackAs(d, true, force, rest, isZip64, check) == Some(Recovered(d, true).(crc := d.crc)) <==>
              || isZip64 == IsWide(d, force)
              || (d.uncompSize == 0 && if IsWide(d, force) then d.compSize <= UINT32_MAX else U64(rest, 0) == 0)
    ensures isZip64 != IsWide(d, force) && d.compSize > 0 && d.uncompSize > 0 ==>
              ReadBackAs(d, true, force, rest, isZip64, check) == None
  {
    hide Readable, Bit, U64, FlagsOf, ReadBack;
  }

  const DESCRIBED := NEW_DIRENT.(compMethod := CM_STORE, encryption := EM_TRAD_PKWARE, bitFlags := DATA_DESCRIPTOR,
                                 compSize := 17, uncompSize := 5)

  // Five bytes with PKWARE encryption: from a source of unknown size in an archive without Zip64 end records, or of
  // known size in one with them, the local header is not accepted.
  lemma DescriptorCounterexample(data: seq<byte>, rest: seq<byte>, force: bool, crc32: Crc32)
    requires |data| == 17 && |rest| >= 8
    ensures Valid(DESCRIBED) && Readable(DESCRIBED, true, force, true)
    ensures WriteHeader(DESCRIBED, true, force, crc32).Some?
    ensures ReadHeader(WriteHeader(DESCRIBED, true, force, crc32).value
                       + (data + (WriteDescriptor(DESCRIBED, force) + rest)),
                       true, !force, 17, true, crc32) == None
  {
    DescribedIsWritten(force, crc32);
    assert Bit(DESCRIBED.bitFlags, DATA_DESCRIPTOR) && IsWide(DESCRIBED, force) == force;
    DescriptorWidths(DESCRIBED, force, rest, !force, true);
    assert Behind(DESCRIBED, true, force, rest) == WriteDescriptor(DESCRIBED, force) + rest;
    hide ReadHeader, WriteHeader, HeaderSize, WriteDescriptor, ReadBackAs, Behind, Valid, Readable;
    HeaderRoundTrip(DESCRIBED, true, force, data, rest, !force, true, crc32);
  }

  lemma DescribedIsWritten(force: bool, crc32: Crc32)
    ensures Valid(DESCRIBED) && WriteHeader(DESCRIBED, true, force, crc32).Some?
  {
    hide EncodeFixed, FixedOf;
    var own := OwnFields(DESCRIBED, true, force, crc32);
    assert force ==> own == [Field(EF_ZIP64, Zip64Data(DESCRIBED, true, true))] && own[1..] == [] && Size(own) == 20;
    assert !force ==> own == [];
  }

  lemma FlagsKeepDescriptor(d: Dirent, isLocal: bool)
    ensures Bit(Recovered(d, isLocal).bitFlags, DATA_DESCRIPTOR) == Bit(d.bitFlags, DATA_DESCRIPTOR)
  {
    hide UseUtf8Flag;
    BitsOf(d.bitFlags, d.encryption != EM_NONE, UseUtf8Flag(d));
  }

  const EDGE_DIRENT := NEW_DIRENT.(compSize := UINT32_MAX, uncompSize := UINT32_MAX)

  lemma EdgeIsWritten(isLocal: bool, crc32: Crc32)
    ensures Valid(EDGE_DIRENT) && WriteHeader(EDGE_DIRENT, isLocal, false, crc32).Some?
  {
    hide EncodeFixed, FixedOf;
    var own := OwnFields(EDGE_DIRENT, isLocal, false, crc32);
    assert own == [Field(EF_ZIP64, [])] && own[1..] == [] && Size(own) == 4;
  }

  // Data of 0xFFFFFFFF bytes: both headers are written, with an empty Zip64 field, and neither is accepted.
  lemma EdgeHeaderCounterexample(rest: seq<byte>, isLocal: bool, isZip64: bool, check: bool, crc32: Crc32)
    ensures Valid(EDGE_DIRENT) && WriteHeader(EDGE_DIRENT, isLocal, false, crc32).Some?
    ensures ReadHeader(WriteHeader(EDGE_DIRENT, isLocal, false, crc32).value + rest, isLocal, isZip64, 0, check,
                       crc32) == None
  {
    EdgeIsWritten(isLocal, crc32);
    assert !Bit(EDGE_DIRENT.bitFlags, DATA_DESCRIPTOR) && !SizesReadable(EDGE_DIRENT, isLocal, false);
    hide ReadHeader, WriteHeader, SizesReadable, Bit;
    HeaderRoundTrip(EDGE_DIRENT, isLocal, false, [], rest, isZip64, check, crc32);
    assert [] + rest == rest;
  }

  // The size of a written header, computed from its length fields (lines 858-892), is that of its bytes.
  lemma HeaderSizeBack(d: Dirent, isLocal: bool, force: bool, rest: seq<byte>, crc32: Crc32)
    requires Storable(d) && WriteHeader(d, isLocal, force, crc32).Some?
    ensures HeaderSize(WriteHeader(d, isLocal, force, crc32).value + rest, isLocal) ==
            Some(|WriteHeader(d, isLocal, force, crc32).value|)
  {
    hide OwnFields, Write, Size, EncodeFixed, DecodeFixed, HeaderSize, FixedOf;
    var own, user := OwnFields(d, isLocal, force, crc32), UserFields(d, isLocal);
    var f := FixedOf(d, isLocal, Size(own) + Size(user));
    var tail := Raw(d.filename) + (Write(own) + Write(user)) + (if isLocal then [] else Raw(d.comment)) + rest;
    assert WriteHeader(d, isLocal, force, crc32).value + rest == EncodeFixed(f, isLocal) + tail;
    SizeIsLength(own);
    SizeIsLength(user);
    LengthFields(f, isLocal, tail);
    FixedLengths(d, isLocal, Size(own) + Size(user));
  }

  lemma FixedLengths(d: Dirent, isLocal: bool, fieldsLength: uint16)
    requires Storable(d)
    ensures var f := FixedOf(d, isLocal, fieldsLength);
            f.nameLength == |Raw(d.filename)| && f.fieldsLength == fieldsLength && f.commentLength == |Raw(d.comment)|
  {
  }

  lemma Slices(a: seq<byte>, b: seq<byte>, c: seq<byte>, d: seq<byte>, rest: seq<byte>)
    ensures var s := a + (b + c + d + rest);
            var i := |a| + |b|;
            var j := i + |c|;
            var k := j + |d|;
            s[|a|..i] == b && s[i..j] == c && s[j..k] == d && k <= |s|
  {
  }

  lemma LengthFields(f: Fixed, isLocal: bool, tail: seq<byte>)
    ensures var b := EncodeFixed(f, isLocal) + tail;
            HeaderSize(b, isLocal) ==
              Some(FixedSize(isLocal) + f.nameLength + f.fieldsLength + if isLocal then 0 else f.commentLength)
  {
    hide EncodeFixed, U16, U32;
    DecodeOfEncoded(f, isLocal, tail);
  }

  // --- what is shown after a round trip ---

  // A name is shown as before after saving and reopening if it is known to be UTF-8 or its encoding was guessed; one
  // that was announced as code page 437 is, exactly if the guess agrees or does not matter.
  lemma TextSurvives(d: Dirent, s: Stored)
    requires Valid(d) && (s == d.filename || s == d.comment)
    requires s.Some? && (s.value.encoding.Ascii? || s.value.encoding.Utf8Guessed? ==>
               s.value.encoding == StringEncoding.Classify(s.value.raw, StringEncoding.Unknown))
    ensures Text(ReadBack(d, s)) == Text(s) <==>
            (s.value.encoding.Cp437? ==>
               StringEncoding.Classify(s.value.raw, StringEncoding.Unknown).Cp437? || Text(s) == s.value.raw)
  {
    hide StringEncoding.Classify, Utf8.Encode, Utf8.WellFormed;
    NoGuessIsUtf8Known(s.value.raw);
  }

  const TWO_CHARACTERS: seq<byte> := [0xC3, 0xA9]

  lemma TwoCharacters()
    ensures Utf8.Encode(Cp437.Characters(TWO_CHARACTERS)) == [0xE2, 0x94, 0x9C, 0xE2, 0x8C, 0x90]
  {
    var c := Cp437.Characters(TWO_CHARACTERS);
    assert c == [0x251C, 0x2310] && c[1..] == [0x2310] && c[1..][1..] == [];
    assert Utf8.Encode(c) == Utf8.EncodeOne(0x251C) + (Utf8.EncodeOne(0x2310) + Utf8.Encode([]));
  }

  lemma GuessedAsOne()
    ensures StringEncoding.Classify(TWO_CHARACTERS, StringEncoding.Unknown) == StringEncoding.Utf8Guessed
  {
    assert Utf8.CharLength(TWO_CHARACTERS) == 2 && TWO_CHARACTERS[2..] == [] && Utf8.WellFormed(TWO_CHARACTERS);
    assert TWO_CHARACTERS[0] >= 128;
  }

  // Two characters of code page 437 that look like one of UTF-8 afterwards.
  lemma TextCounterexample()
    ensures var s := Some(ZipString(TWO_CHARACTERS, StringEncoding.Cp437));
            var d := NEW_DIRENT.(filename := s);
            Valid(d) && Text(s) == [0xE2, 0x94, 0x9C, 0xE2, 0x8C, 0x90] && Text(ReadBack(d, s)) == [0xC3, 0xA9]
  {
    hide StringEncoding.Classify, Utf8.Encode, Utf8.WellFormed, Cp437.Characters, StringEncoding.PlainAscii;
    TwoCharacters();
    GuessedAsOne();
  }

  lemma NoGuessIsUtf8Known(raw: seq<byte>)
    ensures !StringEncoding.Classify(raw, StringEncoding.Unknown).Utf8Known?
    ensures !StringEncoding.Classify(raw, StringEncoding.Unknown).Error?
    ensures !StringEncoding.Classify(raw, StringEncoding.Unknown).Unknown?
  {
  }

  // --- the flag for UTF-8 (lines 919-942) ---

  // A header is flagged if and only if one of its two strings is known to be UTF-8 and the other is as well, or is
  // plain ASCII; then no extra fields are needed for them, and otherwise each string known to be UTF-8 has one.
  lemma FlagMeans(d: Dirent)
    ensures var name, comment := Known(d.filename), Known(d.comment);
            && (Bit(FlagsOf(d), ENCODING_UTF_8) <==>
                  && (name.Utf8Known? || comment.Utf8Known?)
                  && (name.Utf8Known? || name.Ascii?) && (comment.Utf8Known? || comment.Ascii?))
            && (NeedsNameField(d) <==> name.Utf8Known? && !Bit(FlagsOf(d), ENCODING_UTF_8))
            && (NeedsCommentField(d, false) <==> comment.Utf8Known? && !Bit(FlagsOf(d), ENCODING_UTF_8))
            && (Bit(FlagsOf(d), ENCRYPTED) <==> d.encryption != EM_NONE)
  {
    BitsOf(d.bitFlags, d.encryption != EM_NONE, UseUtf8Flag(d));
    hide Bit, WithBit, Known;
  }
}
