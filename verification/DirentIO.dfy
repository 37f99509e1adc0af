// Reading and writing headers through a buffer (lib/zip_dirent.c).
module DirentIO {
  import opened Bytes
  import opened LittleEndian
  import opened ZipBuffer
  import opened ExtraField
  import opened DirentFormat
  import opened DirentHeader

  // Read the fields that both kinds of headers have (lines 417-430).
  method ReadMiddle(buffer: Buffer) returns (f: Fixed)
    requires buffer.Valid() && buffer.ok && buffer.offset + 26 <= buffer.data.Length
    modifies buffer`offset, buffer`ok
    ensures buffer.Valid() && buffer.ok && buffer.offset == old(buffer.offset) + 26
    ensures f == MiddleIn(buffer.data[..], old(buffer.offset))
  {
    hide U16, U32;
    var versionNeeded := buffer.Get16();
    var bitFlags := buffer.Get16();
    var compMethod := buffer.Get16();
    var time := buffer.Get16();
    var date := buffer.Get16();
    var crc := buffer.Get32();
    var compSize := buffer.Get32();
    var uncompSize := buffer.Get32();
    var nameLength := buffer.Get16();
    var fieldsLength := buffer.Get16();
    f := Fixed(0, versionNeeded, bitFlags, compMethod, time, date, crc, compSize, uncompSize, nameLength, fieldsLength,
               0, 0, 0, 0, 0);
  }

  function MiddleIn(b: seq<byte>, at: nat): Fixed
    requires at + 26 <= |b|
  {
    Fixed(0, U16(b, at), U16(b, at + 2), U16(b, at + 4), U16(b, at + 6), U16(b, at + 8), U32(b, at + 10),
          U32(b, at + 14), U32(b, at + 18), U16(b, at + 22), U16(b, at + 24), 0, 0, 0, 0, 0)
  }

  // Read the fields of a header in the central directory behind those (lines 440-444).
  method ReadTail(buffer: Buffer, f: Fixed) returns (g: Fixed)
    requires buffer.Valid() && buffer.ok && buffer.offset + 14 <= buffer.data.Length
    modifies buffer`offset, buffer`ok
    ensures buffer.Valid() && buffer.ok && buffer.offset == old(buffer.offset) + 14
    ensures g == TailIn(buffer.data[..], old(buffer.offset), f)
  {
    hide U16, U32;
    var commentLength := buffer.Get16();
    var disk := buffer.Get16();
    var intAttrib := buffer.Get16();
    var extAttrib := buffer.Get32();
    var offset := buffer.Get32();
    g := f.(commentLength := commentLength, disk := disk, intAttrib := intAttrib, extAttrib := extAttrib,
            offset := offset);
  }

  function TailIn(b: seq<byte>, at: nat, f: Fixed): Fixed
    requires at + 14 <= |b|
  {
    f.(commentLength := U16(b, at), disk := U16(b, at + 2), intAttrib := U16(b, at + 4), extAttrib := U32(b, at + 6),
       offset := U32(b, at + 10))
  }

  // Read the fixed part of a header, behind its magic number (lines 410-445).
  method ReadFixed(buffer: Buffer, isLocal: bool) returns (f: Fixed)
    requires buffer.Valid() && buffer.ok && 4 <= buffer.offset
    requires buffer.offset - 4 + FixedSize(isLocal) <= buffer.data.Length
    modifies buffer`offset, buffer`ok
    ensures buffer.Valid() && buffer.ok && buffer.offset == old(buffer.offset) - 4 + FixedSize(isLocal)
    ensures f == DecodeFixed(buffer.data[old(buffer.offset) - 4..], isLocal)
  {
    ghost var b, at := buffer.data[..], buffer.offset - 4;
    FixedAt(b, at, isLocal);
    assert b[at..] == buffer.data[at..];
    hide U16, U32, DecodeFixed, MiddleIn, TailIn;
    if isLocal {
      f := ReadMiddle(buffer);
    } else {
      var versionMadeBy := buffer.Get16();
      f := ReadMiddle(buffer);
      f := ReadTail(buffer, f.(versionMadeBy := versionMadeBy));
    }
  }

  lemma FixedAt(b: seq<byte>, at: nat, isLocal: bool)
    requires at + FixedSize(isLocal) <= |b|
    ensures DecodeFixed(b[at..], isLocal) ==
            if isLocal then MiddleIn(b, at + 4)
            else TailIn(b, at + 32, MiddleIn(b, at + 6).(versionMadeBy := U16(b, at + 4)))
  {
    var c := b[at..];
    forall k: nat | k + 2 <= |c|
      ensures U16(c, k) == U16(b, at + k)
    {
    }
    hide U16;
    forall k: nat | k + 4 <= |c|
      ensures U32(c, k) == U32(b, at + k)
    {
      assert U16(c, k) == U16(b, at + k) && U16(c, k + 2) == U16(b, at + (k + 2));
    }
  }

  // Read the values marked as large (lines 678-701).
  method ReadMarked(s: Sizes, buffer: Buffer, isLocal: bool) returns (t: Sizes)
    requires buffer.Valid() && buffer.ok && buffer.offset == 0 && buffer.data.Length <= UINT16_MAX
    modifies buffer`offset, buffer`ok
    ensures buffer.Valid()
    ensures TakeMarked(s, buffer.data[..], isLocal).0 == t
    ensures buffer.Eof() <==> TakeMarked(s, buffer.data[..], isLocal).1 == buffer.data.Length
  {
    hide U32, U64;
    var uncomp, comp, offset, disk := s.uncomp, s.comp, s.offset, s.disk;
    if uncomp == UINT32_MAX {
      uncomp := buffer.Get64();
    } else if isLocal {
      buffer.Skip(8);
    }
    if comp == UINT32_MAX {
      comp := buffer.Get64();
    } else if isLocal {
      buffer.Skip(8);
    }
    if !isLocal {
      if offset == UINT32_MAX {
        offset := buffer.Get64();
      }
      if disk == UINT16_MAX {
        disk := buffer.Get32();
      }
    }
    t := Sizes(uncomp, comp, offset, disk);
  }

  // Accept additional values if they match (lines 703-728).
  method CompareAll(t: Sizes, buffer: Buffer) returns (ok: bool)
    requires buffer.Valid() && buffer.data.Length <= UINT16_MAX
    modifies buffer`offset, buffer`ok
    ensures ok == MatchesAll(t, buffer.data[..])
  {
    hide U32, U64;
    var length := buffer.data.Length;
    ok := length == 24 || length == 28;
    if length == 28 {
      buffer.SetOffset(24);
      var disk := buffer.Get32();
      ok := t.disk == disk;
    }
    if length == 24 || length == 28 {
      buffer.SetOffset(0);
      var uncomp := buffer.Get64();
      var comp := buffer.Get64();
      var offset := buffer.Get64();
      ok := ok && t.uncomp == uncomp && t.comp == comp && t.offset == offset;
    }
  }

  // (lines 670-732)
  method ReadZip64(s: Sizes, ef: array<byte>, isLocal: bool) returns (r: Option<Sizes>)
    requires ef.Length <= UINT16_MAX
    ensures r == ProcessZip64(s, ef[..], isLocal)
  {
    hide TakeMarked, MatchesAll;
    var buffer := new Buffer(ef);
    var t := ReadMarked(s, buffer, isLocal);
    if !buffer.Eof() {
      var ok := CompareAll(t, buffer);
      if !ok {
        return None;
      }
    }
    return Some(t);
  }

  // The next bytes, as part of those that were ahead when the buffer was at a given place.
  method GetPart(buffer: Buffer, length: uint16, ghost b: seq<byte>, ghost start: nat) returns (part: seq<byte>)
    requires buffer.Valid() && buffer.ok && start <= buffer.offset && buffer.offset + length <= buffer.data.Length
    requires b == buffer.data[start..]
    modifies buffer`offset, buffer`ok
    ensures buffer.Valid() && buffer.ok && buffer.offset == old(buffer.offset) + length
    ensures part == b[old(buffer.offset) - start..buffer.offset - start]
  {
    var bytes := buffer.Get(length);
    part := bytes.value;
    assert forall k :: 0 <= k < length ==> part[k] == b[old(buffer.offset) - start + k];
  }

  // Read a header of the central directory from a buffer, which then is behind it (lines 377-668).
  method ReadCentral(buffer: Buffer, isZip64: bool, check: bool, crc32: Crc32) returns (r: Option<(Dirent, nat)>)
    requires buffer.Valid() && buffer.ok
    modifies buffer`offset, buffer`ok
    ensures buffer.Valid() && r == ReadHeader(old(buffer.Ahead()), false, isZip64, 0, check, crc32)
    ensures r.Some? ==> buffer.ok && buffer.offset == old(buffer.offset) + r.value.1
  {
    hide U16, U32, DecodeFixed, Interpret;
    ghost var b, at := buffer.Ahead(), buffer.offset;
    var size := FixedSize(false);
    if buffer.Left() < size {
      return None;
    }
    var magic := GetPart(buffer, 4, b, at);
    if magic != Magic(false) {
      return None;
    }
    var f := ReadFixed(buffer, false);
    var variableSize := f.nameLength + f.fieldsLength + f.commentLength;
    if buffer.Left() < variableSize {
      return None;
    }
    var name := GetPart(buffer, f.nameLength, b, at);
    var ef := GetPart(buffer, f.fieldsLength, b, at);
    var comment := GetPart(buffer, f.commentLength, b, at);
    var d := Interpret(f, name, ef, comment, false, isZip64, check, crc32);
    if d.None? {
      return None;
    }
    return Some((d.value, size + variableSize));
  }

  // Write the fixed part of a header (lines 1053-1136).
  method PutFixed(buffer: Buffer, f: Fixed, isLocal: bool)
    requires buffer.Valid() && buffer.ok && buffer.offset == 0 && buffer.data.Length == FixedSize(false)
    modifies buffer, buffer.data
    ensures buffer.Valid() && buffer.ok && buffer.offset == FixedSize(isLocal)
    ensures buffer.data[..buffer.offset] == EncodeFixed(f, isLocal)
  {
    hide Put16, Put32;
    ghost var _ := Append(buffer, [], [], Magic(isLocal));
    if !isLocal {
      ghost var _ := Append(buffer, Magic(isLocal), [], Put16(f.versionMadeBy));
    }
    PutMiddle(buffer, f);
    if !isLocal {
      PutTail(buffer, f);
    }
  }

  // Put bytes behind some that were there before and others that were put since.
  method Append(buffer: Buffer, ghost before: seq<byte>, ghost since: seq<byte>,
      bytes: seq<byte>) returns (ghost all: seq<byte>)
    requires buffer.Valid() && buffer.ok && buffer.offset + |bytes| <= buffer.data.Length
    requires buffer.data[..buffer.offset] == before + since
    modifies buffer, buffer.data
    ensures buffer.Valid() && buffer.ok && buffer.offset == old(buffer.offset) + |bytes|
    ensures all == since + bytes && buffer.data[..buffer.offset] == before + all
  {
    buffer.Put(bytes);
    all := since + bytes;
    assert buffer.data[..][..buffer.offset] == before + since + bytes;
  }

  method PutMiddle(buffer: Buffer, f: Fixed)
    requires buffer.Valid() && buffer.ok && buffer.offset + 26 <= buffer.data.Length
    modifies buffer, buffer.data
    ensures buffer.Valid() && buffer.ok && buffer.offset == old(buffer.offset) + 26
    ensures buffer.data[..buffer.offset] == old(buffer.data[..buffer.offset]) + Middle(f)
  {
    hide Put16, Put32;
    ghost var before := buffer.data[..buffer.offset];
    ghost var put := Append(buffer, before, [], Put16(f.versionNeeded));
    put := Append(buffer, before, put, Put16(f.bitFlags));
    put := Append(buffer, before, put, Put16(f.compMethod));
    put := Append(buffer, before, put, Put16(f.time));
    put := Append(buffer, before, put, Put16(f.date));
    put := Append(buffer, before, put, Put32(f.crc));
    put := Append(buffer, before, put, Put32(f.compSize));
    put := Append(buffer, before, put, Put32(f.uncompSize));
    put := Append(buffer, before, put, Put16(f.nameLength));
    put := Append(buffer, before, put, Put16(f.fieldsLength));
    assert [] + Put16(f.versionNeeded) == Put16(f.versionNeeded);
  }

  method PutTail(buffer: Buffer, f: Fixed)
    requires buffer.Valid() && buffer.ok && buffer.offset + 14 <= buffer.data.Length
    modifies buffer, buffer.data
    ensures buffer.Valid() && buffer.ok && buffer.offset == old(buffer.offset) + 14
    ensures buffer.data[..buffer.offset] == old(buffer.data[..buffer.offset]) + Tail(f)
  {
    hide Put16, Put32;
    ghost var before := buffer.data[..buffer.offset];
    ghost var put := Append(buffer, before, [], Put16(f.commentLength));
    put := Append(buffer, before, put, Put16(f.disk));
    put := Append(buffer, before, put, Put16(f.intAttrib));
    put := Append(buffer, before, put, Put32(f.extAttrib));
    put := Append(buffer, before, put, Put32(f.offset));
    assert [] + Put16(f.commentLength) == Put16(f.commentLength);
  }

  // The extra fields for names in UTF-8 that are not flagged (lines 922-942).
  method MakeNameFields(d: Dirent, isLocal: bool, crc32: Crc32) returns (ef: Option<seq<Field>>)
    ensures ef == if NamesFit(d, isLocal) then Some(NameFields(d, isLocal, crc32)) else None
  {
    hide Known, Utf8Field, UseUtf8Flag;
    var list: seq<Field> := [];
    if !UseUtf8Flag(d) {
      if IsUtf8(d.filename) {
        if |Raw(d.filename)| + 5 > UINT16_MAX {
          return None;
        }
        list := [Utf8Field(EF_UTF_8_NAME, Raw(d.filename), crc32)];
      }
      if !isLocal && IsUtf8(d.comment) {
        if |Raw(d.comment)| + 5 > UINT16_MAX {
          return None;
        }
        list := [Utf8Field(EF_UTF_8_COMMENT, Raw(d.comment), crc32)] + list;
      }
    }
    assert list == NameFields(d, isLocal, crc32);
    ef := Some(list);
  }

  // All extra fields the writer adds, each put before those made so far (lines 922-1045).
  method MakeFields(d: Dirent, isLocal: bool, force: bool, crc32: Crc32) returns (ef: Option<seq<Field>>)
    requires Storable(d)
    ensures ef == if NamesFit(d, isLocal) then Some(OwnFields(d, isLocal, force, crc32)) else None
  {
    hide NeedsZip64, Zip64Data, AesField, Utf8Field, NameFields, NamesFit, FieldIf;
    ef := MakeNameFields(d, isLocal, crc32);
    if ef.None? {
      return None;
    }
    var list := ef.value;
    PutBefore((isLocal && force) || NeedsZip64(d, isLocal), Field(EF_ZIP64, Zip64Data(d, isLocal, force)), list);
    if (isLocal && force) || NeedsZip64(d, isLocal) {
      list := [Field(EF_ZIP64, Zip64Data(d, isLocal, force))] + list;
    }
    PutBefore(AesVersion(d) > 0, AesField(d), list);
    if AesVersion(d) > 0 {
      list := [AesField(d)] + list;
    }
    ef := Some(list);
  }

  lemma PutBefore(on: bool, f: Field, list: seq<Field>)
    ensures FieldIf(on, f) + list == if on then [f] + list else list
  {
  }

  // Write a header behind what was written before; whether it holds a Zip64 field (lines 905-1184).
  method WriteDirent(d: Dirent, isLocal: bool, force: bool, crc32: Crc32,
      written: seq<byte>) returns (r: Option<(seq<byte>, bool)>)
    requires Storable(d)
    ensures var header := WriteHeader(d, isLocal, force, crc32);
            r == if header.None? then None
                 else Some((written + header.value, (isLocal && force) || NeedsZip64(d, isLocal)))
  {
    hide OwnFields, Write, EncodeFixed, FixedOf, NeedsZip64, UseUtf8Flag, IsAes, AesVersion, NamesFit, Size;
    var own := MakeFields(d, isLocal, force, crc32);
    if own.None? {
      return None;
    }
    var size, userSize := Size(own.value), Size(UserFields(d, isLocal));
    if size > UINT16_MAX || userSize > UINT16_MAX || size + userSize > UINT16_MAX {
      return None;
    }
    var buf := new byte[46];
    var buffer := new Buffer(buf);
    PutFixed(buffer, FixedOf(d, isLocal, size + userSize), isLocal);
    var out := written + buf[..buffer.offset];
    out := out + Raw(d.filename);
    out := out + Write(own.value);
    out := out + Write(UserFields(d, isLocal));
    if !isLocal {
      out := out + Raw(d.comment);
    }
    assert out == written + WriteHeader(d, isLocal, force, crc32).value;
    return Some((out, (isLocal && force) || NeedsZip64(d, isLocal)));
  }
}
