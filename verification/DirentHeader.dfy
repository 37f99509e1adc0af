// What a directory entry is written as, and what is read back (lib/zip_dirent.c).
module DirentHeader {
  import opened Bytes
  import opened LittleEndian
  import opened ExtraField
  import opened ZipString
  import opened DirentFormat
  import StringEncoding
  import Utf8

  // --- writing (lines 905-1184) ---

  function Known(s: Stored): StringEncoding.Encoding {
    match s
    case None => StringEncoding.Ascii
    case Some(z) =>
      if z.encoding != StringEncoding.Unknown then z.encoding
      else StringEncoding.Classify(z.raw, StringEncoding.Unknown)
  }

  predicate IsUtf8(s: Stored) {
    Known(s) == StringEncoding.Utf8Known
  }

  predicate IsAscii(s: Stored) {
    Known(s) == StringEncoding.Ascii
  }

  // Both name and comment can be declared as UTF-8 (line 922).
  predicate UseUtf8Flag(d: Dirent) {
    (IsUtf8(d.filename) && IsAscii(d.comment)) || (IsAscii(d.filename) && IsUtf8(d.comment))
    || (IsUtf8(d.filename) && IsUtf8(d.comment))
  }

  function Raw(s: Stored): seq<byte> {
    if s.None? then [] else s.value.raw
  }

  predicate IsAes(encryption: uint16) {
    encryption == EM_AES_128 || encryption == EM_AES_192 || encryption == EM_AES_256
  }

  // (lines 953-964)
  function AesVersion(d: Dirent): uint16 {
    if !IsAes(d.encryption) then 0 else if d.uncompSize < 20 then 2 else 1
  }

  // (lines 346-352)
  predicate NeedsZip64(d: Dirent, isLocal: bool) {
    d.uncompSize >= UINT32_MAX || d.compSize >= UINT32_MAX || (!isLocal && d.offset >= UINT32_MAX)
  }

  predicate OverLimit(d: Dirent, isLocal: bool) {
    d.compSize > UINT32_MAX || d.uncompSize > UINT32_MAX || (!isLocal && d.offset > UINT32_MAX)
  }

  function Large(v: uint64): (b: seq<byte>)
    ensures |b| <= 8
  {
    if v >= UINT32_MAX then Put64(v) else []
  }

  // (lines 975-993)
  function Zip64Data(d: Dirent, isLocal: bool, force: bool): (b: seq<byte>)
    ensures |b| <= 24
  {
    if isLocal then if force || OverLimit(d, true) then Put64(d.uncompSize) + Put64(d.compSize) else []
    else if OverLimit(d, false) then Large(d.uncompSize) + Large(d.compSize) + Large(d.offset) else []
  }

  // (lines 1207-1242)
  function Utf8Field(id: uint16, raw: seq<byte>, crc32: Crc32): (f: Field)
    requires |raw| + 5 <= UINT16_MAX
    ensures f.id == id
  {
    Field(id, [1] + Put32(crc32(raw)) + raw)
  }

  function FieldIf(on: bool, f: Field): seq<Field> {
    if on then [f] else []
  }

  function AesField(d: Dirent): (f: Field)
    ensures f.id == EF_WINZIP_AES
  {
    Field(EF_WINZIP_AES, Put16(AesVersion(d)) + [0x41, 0x45] + [d.encryption % 0x100] + Put16(d.compMethod % 0x1_0000))
  }

  predicate NeedsNameField(d: Dirent) {
    IsUtf8(d.filename) && !UseUtf8Flag(d)
  }

  predicate NeedsCommentField(d: Dirent, isLocal: bool) {
    !isLocal && IsUtf8(d.comment) && !UseUtf8Flag(d)
  }

  predicate NamesFit(d: Dirent, isLocal: bool) {
    && (NeedsNameField(d) ==> |Raw(d.filename)| + 5 <= UINT16_MAX)
    && (NeedsCommentField(d, isLocal) ==> |Raw(d.comment)| + 5 <= UINT16_MAX)
  }

  function NameFields(d: Dirent, isLocal: bool, crc32: Crc32): seq<Field>
    requires NamesFit(d, isLocal)
  {
    (if NeedsCommentField(d, isLocal) then [Utf8Field(EF_UTF_8_COMMENT, Raw(d.comment), crc32)] else []) +
    (if NeedsNameField(d) then [Utf8Field(EF_UTF_8_NAME, Raw(d.filename), crc32)] else [])
  }

  // The extra fields that the writer adds, in their order in the header.
  function OwnFields(d: Dirent, isLocal: bool, force: bool, crc32: Crc32): seq<Field>
    requires NamesFit(d, isLocal)
  {
    FieldIf(IsAes(d.encryption), AesField(d)) +
    (FieldIf((isLocal && force) || NeedsZip64(d, isLocal), Field(EF_ZIP64, Zip64Data(d, isLocal, force))) +
     NameFields(d, isLocal, crc32))
  }

  function UserFields(d: Dirent, isLocal: bool): seq<Field> {
    if isLocal then d.local else d.central
  }

  function ActualMethod(compMethod: Method): uint16 {
    if compMethod == CM_DEFAULT then CM_DEFLATE else compMethod
  }

  function Low32(v: uint64): uint32 {
    if v < UINT32_MAX then v else UINT32_MAX
  }

  // In a local header both sizes are marked as large or none is (lines 1084-1106).
  function Low32Size(v: uint64, other: uint64, isLocal: bool): uint32 {
    if isLocal && other >= UINT32_MAX then UINT32_MAX else Low32(v)
  }

  function FlagsOf(d: Dirent): uint16 {
    WithBit(WithBit(d.bitFlags, ENCODING_UTF_8, UseUtf8Flag(d)), ENCRYPTED, d.encryption != EM_NONE)
  }

  // A string of a header is at most 65535 bytes long.
  predicate Storable(d: Dirent) {
    |Raw(d.filename)| <= UINT16_MAX && |Raw(d.comment)| <= UINT16_MAX
  }

  function FixedOf(d: Dirent, isLocal: bool, fieldsLength: uint16): Fixed
    requires Storable(d)
  {
    Fixed(d.versionMadeBy, Max(if NeedsZip64(d, isLocal) then 45 else 0, d.versionNeeded), FlagsOf(d),
          if IsAes(d.encryption) then CM_WINZIP_AES else ActualMethod(d.compMethod), d.time, d.date,
          if AesVersion(d) == 2 then 0 else d.crc,
          Low32Size(d.compSize, d.uncompSize, isLocal), Low32Size(d.uncompSize, d.compSize, isLocal),
          |Raw(d.filename)|, fieldsLength, |Raw(d.comment)|, d.disk % 0x1_0000, d.intAttrib, d.extAttrib,
          Low32(d.offset))
  }

  // The header, unless the extra fields are too large.
  function WriteHeader(d: Dirent, isLocal: bool, force: bool, crc32: Crc32): Option<seq<byte>>
    requires Storable(d)
  {
    if !NamesFit(d, isLocal) then None
    else
      var own, user := OwnFields(d, isLocal, force, crc32), UserFields(d, isLocal);
      if Size(own) + Size(user) > UINT16_MAX then None
      else
        Some(EncodeFixed(FixedOf(d, isLocal, Size(own) + Size(user)), isLocal) + Raw(d.filename) +
             (Write(own) + Write(user)) + if isLocal then [] else Raw(d.comment))
  }

  // --- reading (lines 377-668) ---

  // A string whose encoding is declared by a flag, or to be guessed (lines 488-509, 533-550).
  function ReadString(raw: seq<byte>, flagged: bool): Option<Stored> {
    if raw == [] then Some(None)
    else if !flagged then Some(Some(ZipString(raw, StringEncoding.Unknown)))
    else if Utf8.WellFormed(raw) then Some(Some(ZipString(raw, StringEncoding.Utf8Known)))
    else None
  }

  // The data of the first field with an id.
  function GetField(fields: seq<Field>, id: uint16): Option<Data> {
    var found := Select(fields, id);
    if found == [] then None else Some(found[0])
  }

  // The UTF-8 text of a string from an extra field, if that was made for this string (lines 735-774).
  function ProcessUtf8(fields: seq<Field>, id: uint16, s: Stored, check: bool, crc32: Crc32): Option<Stored> {
    var ef := GetField(fields, id);
    if ef.None? || |ef.value| < 5 || ef.value[0] != 1 || crc32(Raw(s)) != U32(ef.value, 1) then Some(s)
    else
      var text := ef.value[5..];
      if text == [] || !Utf8.WellFormed(text) then Some(s)
      else if check && text != Raw(s) && StringEncoding.AllAscii(text) then if s.None? then Some(None) else None
      else Some(Some(ZipString(text, StringEncoding.Utf8Known)))
  }

  datatype Sizes = Sizes(uncomp: uint64, comp: uint64, offset: uint64, disk: uint32)

  // Reads past the end give 0.
  function Get64(b: seq<byte>, at: nat): uint64 {
    if at + 8 <= |b| then U64(b, at) else 0
  }

  function Get32(b: seq<byte>, at: nat): uint32 {
    if at + 4 <= |b| then U32(b, at) else 0
  }

  // The values that are too large for the header follow each other in the Zip64 field; where they end.
  function TakeMarked(s: Sizes, data: Data, isLocal: bool): (Sizes, nat) {
    var at1 := if s.uncomp == UINT32_MAX || isLocal then 8 else 0;
    var at2 := at1 + if s.comp == UINT32_MAX || isLocal then 8 else 0;
    var at3 := at2 + if !isLocal && s.offset == UINT32_MAX then 8 else 0;
    var end := at3 + if !isLocal && s.disk == UINT16_MAX then 4 else 0;
    (Sizes(if s.uncomp == UINT32_MAX then Get64(data, 0) else s.uncomp,
           if s.comp == UINT32_MAX then Get64(data, at1) else s.comp,
           if !isLocal && s.offset == UINT32_MAX then Get64(data, at2) else s.offset,
           if !isLocal && s.disk == UINT16_MAX then Get32(data, at3) else s.disk), end)
  }

  // A field with all values has to match them.
  predicate MatchesAll(s: Sizes, data: Data) {
    && ((|data| == 28 && s.disk == U32(data, 24)) || |data| == 24)
    && s.uncomp == U64(data, 0) && s.comp == U64(data, 8) && s.offset == U64(data, 16)
  }

  // (lines 670-732)
  function ProcessZip64(s: Sizes, data: Data, isLocal: bool): Option<Sizes> {
    var (t, end) := TakeMarked(s, data, isLocal);
    if end == |data| || MatchesAll(t, data) then Some(t) else None
  }

  predicate AnyMarked(s: Sizes) {
    s.uncomp == UINT32_MAX || s.comp == UINT32_MAX || s.offset == UINT32_MAX
  }

  // (lines 590-608)
  function ReadSizes(s: Sizes, fields: seq<Field>, isLocal: bool, isZip64: bool): Option<Sizes> {
    if !AnyMarked(s) then Some(s)
    else
      var ef := GetField(fields, EF_ZIP64);
      if ef.Some? then ProcessZip64(s, ef.value, isLocal) else if isZip64 then None else Some(s)
  }

  datatype Protection = Protection(encryption: uint16, compMethod: uint16, crcValid: bool)

  function FlaggedEncryption(flags: uint16): uint16 {
    if !Bit(flags, ENCRYPTED) then EM_NONE else if Bit(flags, STRONG_ENCRYPTION) then EM_UNKNOWN else EM_TRAD_PKWARE
  }

  // The method is hidden in an extra field if the data is encrypted by AES (lines 777-855).
  function ReadProtection(f: Fixed, fields: seq<Field>): Option<Protection> {
    if f.compMethod != CM_WINZIP_AES then Some(Protection(FlaggedEncryption(f.bitFlags), f.compMethod, true))
    else
      var ef := GetField(fields, EF_WINZIP_AES);
      if ef.None? || |ef.value| != 7 then None
      else
        var data := ef.value;
        var version, mode: int := U16(data, 0), data[4];
        if !(1 <= version <= 2) || data[2..4] != [0x41, 0x45] || !(1 <= mode <= 3) then None
        else Some(Protection(0x100 + mode, U16(data, 5), version == 1))
  }

  datatype Descriptor = Descriptor(crc: uint32, compSize: uint64, uncompSize: uint64)

  // A data descriptor; its signature may be missing (lines 627-652).
  function ReadDescriptor(b: seq<byte>, isZip64: bool): Option<Descriptor> {
    if |b| < 24 then None
    else
      var at := if b[..4] == DATADES_MAGIC then 4 else 0;
      if isZip64 then Some(Descriptor(U32(b, at), U64(b, at + 4), U64(b, at + 12)))
      else Some(Descriptor(U32(b, at), U32(b, at + 4), U32(b, at + 8)))
  }

  predicate Agrees(header: uint64, descriptor: uint64) {
    header == 0 || header == descriptor
  }

  function ApplyDescriptor(d: Dirent, b: seq<byte>, isZip64: bool): Option<Dirent> {
    var found := ReadDescriptor(b, isZip64);
    if found.None? then None
    else
      var dd := found.value;
      if !Agrees(d.crc, dd.crc) || !Agrees(d.compSize, dd.compSize) || !Agrees(d.uncompSize, dd.uncompSize) then None
      else Some(d.(crc := dd.crc, compSize := dd.compSize, uncompSize := dd.uncompSize))
  }

  // What the parts of a header say, leaving out the data descriptor.
  function Interpret(f: Fixed, name: seq<byte>, ef: seq<byte>, comment: seq<byte>, isLocal: bool, isZip64: bool,
      check: bool, crc32: Crc32): Option<Dirent> {
    var flagged := Bit(f.bitFlags, ENCODING_UTF_8);
    var name1, fields, comment1 := ReadString(name, flagged), Parse(ef), ReadString(comment, flagged);
    if name1.None? || fields.None? || comment1.None? then None
    else
      var name2 := ProcessUtf8(fields.value, EF_UTF_8_NAME, name1.value, check, crc32);
      var comment2 := if isLocal then comment1
                      else ProcessUtf8(fields.value, EF_UTF_8_COMMENT, comment1.value, check, crc32);
      var sizes := ReadSizes(Sizes(f.uncompSize, f.compSize, f.offset, f.disk), fields.value, isLocal, isZip64);
      if name2.None? || comment2.None? || sizes.None? || (check && 0 in Raw(name2.value)) then None
      else
        var user := WithoutInternal(fields.value);
        var protection := ReadProtection(f, fields.value);
        if protection.None? || sizes.value.offset > INT64_MAX then None
        else
          Some(Dirent(f.versionMadeBy, f.versionNeeded, f.bitFlags, protection.value.compMethod, f.time, f.date, f.crc,
                      sizes.value.comp, sizes.value.uncomp, name2.value,
                      if isLocal then user else [], if isLocal then [] else user,
                      comment2.value, sizes.value.disk, f.intAttrib, f.extAttrib, sizes.value.offset,
                      protection.value.encryption, protection.value.crcValid))
  }

  // Read a header from the start of the data, leaving out the data descriptor: the entry and the size of the header.
  function ReadPlain(b: seq<byte>, isLocal: bool, isZip64: bool, check: bool, crc32: Crc32): Option<(Dirent, nat)> {
    var start := FixedSize(isLocal);
    if |b| < start || b[..4] != Magic(isLocal) then None
    else
      var f := DecodeFixed(b, isLocal);
      var nameEnd := start + f.nameLength;
      var fieldsEnd := nameEnd + f.fieldsLength;
      var end := fieldsEnd + f.commentLength;
      if |b| < end then None
      else
        var d := Interpret(f, b[start..nameEnd], b[nameEnd..fieldsEnd], b[fieldsEnd..end], isLocal, isZip64,
                           check, crc32);
        if d.None? then None else Some((d.value, end))
  }

  // Read a header, and the data descriptor behind the compressed data if it has one.
  function ReadHeader(b: seq<byte>, isLocal: bool, isZip64: bool, compressedSize: nat, check: bool,
      crc32: Crc32): Option<(Dirent, nat)> {
    var plain := ReadPlain(b, isLocal, isZip64, check, crc32);
    if plain.None? then None
    else
      var (d, end) := plain.value;
      if !isLocal || !Bit(d.bitFlags, DATA_DESCRIPTOR) then Some((d, end))
      else
        var full := if end + compressedSize <= |b| then ApplyDescriptor(d, b[end + compressedSize..], isZip64)
                    else None;
        if full.None? then None else Some((full.value, end))
  }

  // The size of a header from its length fields (lines 858-892).
  function HeaderSize(b: seq<byte>, isLocal: bool): Option<nat> {
    if |b| < (if isLocal then 30 else 34) || b[..4] != Magic(isLocal) then None
    else if isLocal then Some(30 + U16(b, 26) + U16(b, 28))
    else Some(46 + U16(b, 28) + U16(b, 30) + U16(b, 32))
  }
}
