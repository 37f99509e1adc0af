// The check for consistency: the entries of the central directory are compared with their local headers
// (lib/zip_open.c:519-674; lib/zip_dirent.c:1394-1421).
module Consistency {
  import opened Bytes
  import opened LittleEndian
  import opened ZipString
  import opened DirentFormat
  import opened DirentHeader
  import opened DirentRoundTrip
  import opened CentralDirectory
  import CdirIO
  import Pkware
  import WinzipAes
  import StringEncoding
  import Utf8
  import ExtraField

  const LENTRYSIZE: nat := 30

  // By how much encryption makes stored data longer, where that is known.
  function StoredOverhead(encryption: uint16): Option<nat> {
    if encryption == EM_NONE then Some(0)
    else if encryption == EM_TRAD_PKWARE then Some(12)
    else if encryption == EM_AES_128 then Some(20)
    else if encryption == EM_AES_192 then Some(24)
    else if encryption == EM_AES_256 then Some(28)
    else None
  }

  // (lib/zip_dirent.c:1394-1421)
  predicate SizesPlausible(d: Dirent) {
    var overhead := StoredOverhead(d.encryption);
    d.compMethod == CM_STORE && overhead.Some? ==> d.compSize == d.uncompSize + overhead.value
  }

  // Sizes and checksum in a local header may be missing if there is a data descriptor (lines 655-671).
  predicate SameNumbers(central: Dirent, local: Dirent) {
    || (central.crc == local.crc && central.compSize == local.compSize && central.uncompSize == local.uncompSize)
    || (&& Bit(local.bitFlags, DATA_DESCRIPTOR) && Agrees(local.crc, central.crc)
        && Agrees(local.compSize, central.compSize) && Agrees(local.uncompSize, central.uncompSize))
  }

  // (lines 640-674)
  predicate Comparable(central: Dirent, local: Dirent) {
    && central.versionNeeded >= local.versionNeeded && central.compMethod == local.compMethod
    && central.time == local.time && central.date == local.date && Equal(central.filename, local.filename)
    && SameNumbers(central, local)
  }

  // (lines 574-579)
  function LocalHeader(file: seq<byte>, d: Dirent, isZip64: bool, crc32: Crc32): Option<(Dirent, nat)> {
    if d.offset > |file| then None else ReadHeader(file[d.offset..], true, isZip64, d.compSize, true, crc32)
  }

  // An entry lies before the directory, and its headers agree.
  predicate EntryConsistent(file: seq<byte>, directory: nat, isZip64: bool, d: Dirent, crc32: Crc32) {
    var local := LocalHeader(file, d, isZip64, crc32);
    && d.offset + d.compSize + |Raw(d.filename)| + LENTRYSIZE <= directory
    && local.Some? && Comparable(d, local.value.0) && SizesPlausible(d)
  }

  predicate Consistent(file: seq<byte>, dir: Directory, crc32: Crc32) {
    forall k :: 0 <= k < |dir.entries| ==>
      EntryConsistent(file, dir.cdir.offset, dir.cdir.isZip64, dir.entries[k], crc32)
  }

  // The entry with the extra fields of its local header (lines 595-597).
  function WithLocal(file: seq<byte>, isZip64: bool, d: Dirent, crc32: Crc32): Dirent
    requires LocalHeader(file, d, isZip64, crc32).Some?
  {
    d.(local := LocalHeader(file, d, isZip64, crc32).value.0.local)
  }

  function WithLocals(file: seq<byte>, dir: Directory, crc32: Crc32): (entries: seq<Dirent>)
    requires Consistent(file, dir, crc32)
    ensures |entries| == |dir.entries|
  {
    seq(|dir.entries|, k requires 0 <= k < |dir.entries| =>
      assert EntryConsistent(file, dir.cdir.offset, dir.cdir.isZip64, dir.entries[k], crc32);
      WithLocal(file, dir.cdir.isZip64, dir.entries[k], crc32))
  }

  // Opening with the check, if it is asked for (lines 724-732).
  function OpenChecked(file: seq<byte>, check: bool, crc32: Crc32): Status<Directory> {
    var r := FindCentralDir(file, check, crc32);
    if !r.Found? || !check then r
    else if !Consistent(file, r.value, crc32) then Unusable
    else Found(r.value.(entries := WithLocals(file, r.value, crc32)))
  }

  // --- the loop ---

  // What is known of entries that were read.
  predicate Bounded(d: Dirent) {
    d.offset <= INT64_MAX && |Raw(d.filename)| <= UINT16_MAX
  }

  predicate AllBounded(entries: seq<Dirent>) {
    forall k :: 0 <= k < |entries| ==> Bounded(entries[k])
  }

  // Compare one entry, and extend the span of positions by it (lines 543-602).
  method CheckEntry(file: seq<byte>, offset: uint64, isZip64: bool, d: Dirent, min: nat, max: nat, crc32: Crc32)
      returns (ok: bool, min': nat, max': nat)
    requires Bounded(d) && min <= max && (max <= offset || min == max == d.offset)
    ensures ok == EntryConsistent(file, offset, isZip64, d, crc32) && (ok ==> min' <= max' <= offset)
  {
    hide LocalHeader, Comparable, SizesPlausible;
    min', max' := Min(min, d.offset), max;
    if min' > offset {
      return false, min', max';
    }
    var tailLength := |Raw(d.filename)| + LENTRYSIZE;
    if d.compSize + tailLength >= TWO_64 || (d.offset + tailLength) % TWO_64 + d.compSize >= TWO_64 {
      return false, min', max';
    }
    max' := Max(max, (d.offset + d.compSize + tailLength) % TWO_64);
    if max' > offset {
      return false, min', max';
    }
    var local := LocalHeader(file, d, isZip64, crc32);
    ok := local.Some? && Comparable(d, local.value.0) && SizesPlausible(d);
  }

  // Compare all entries; the span of the positions they take up, -1 if they are not consistent (lines 526-604).
  method CheckEntries(file: seq<byte>, dir: Directory, crc32: Crc32) returns (span: int, entries: seq<Dirent>)
    requires AllBounded(dir.entries)
    ensures span >= 0 <==> Consistent(file, dir, crc32)
    ensures span >= 0 ==> entries == WithLocals(file, dir, crc32)
  {
    hide EntryConsistent, Bounded, LocalHeader;
    var offset, isZip64 := dir.cdir.offset, dir.cdir.isZip64;
    var min: nat, max: nat := 0, 0;
    if dir.entries != [] {
      min, max := dir.entries[0].offset, dir.entries[0].offset;
    }
    entries := [];
    for i := 0 to |dir.entries|
      invariant |entries| == i && min <= max
      invariant if i > 0 then max <= offset else dir.entries != [] ==> min == max == dir.entries[0].offset
      invariant forall k :: 0 <= k < i ==> EntryConsistent(file, offset, isZip64, dir.entries[k], crc32)
      invariant forall k :: 0 <= k < i ==>
                  && LocalHeader(file, dir.entries[k], isZip64, crc32).Some?
                  && entries[k] == WithLocal(file, isZip64, dir.entries[k], crc32)
    {
      var d := dir.entries[i];
      var ok;
      ok, min, max := CheckEntry(file, offset, isZip64, d, min, max, crc32);
      if !ok {
        return -1, [];
      }
      HeaderIsThere(file, offset, isZip64, d, crc32);
      entries := entries + [WithLocal(file, isZip64, d, crc32)];
    }
    span := Min(max - min, INT64_MAX);
  }

  lemma HeaderIsThere(file: seq<byte>, directory: nat, isZip64: bool, d: Dirent, crc32: Crc32)
    requires EntryConsistent(file, directory, isZip64, d, crc32)
    ensures LocalHeader(file, d, isZip64, crc32).Some?
  {
  }

  // Entries that were read are bounded.
  lemma {:induction false} EntriesBounded(b: seq<byte>, left: uint64, i: nat, count: nat, isZip64: bool, check: bool,
      crc32: Crc32)
    ensures var r := ReadEntries(b, left, i, count, isZip64, check, crc32); r.Some? ==> AllBounded(r.value)
    decreases |b|
  {
    hide ReadHeader;
    if left != 0 && !(i == count && (isZip64 || left < CDENTRYSIZE))
      && ReadHeader(b, false, isZip64, 0, check, crc32).Some? {
      HeaderBounded(b, isZip64, check, crc32);
      var grown := if i == count then count + 0x1_0000 else count;
      var n := ReadHeader(b, false, isZip64, 0, check, crc32).value.1;
      EntriesBounded(b[n..], (left - n) % TWO_64, i + 1, grown, isZip64, check, crc32);
    }
  }

  lemma HeaderBounded(b: seq<byte>, isZip64: bool, check: bool, crc32: Crc32)
    requires ReadHeader(b, false, isZip64, 0, check, crc32).Some?
    ensures var (d, n) := ReadHeader(b, false, isZip64, 0, check, crc32).value; Bounded(d) && 0 < n <= |b|
  {
    hide DecodeFixed, ReadString, ExtraField.Parse, ProcessUtf8, ReadSizes, ReadProtection;
    forall name: seq<byte>, flagged | |name| <= UINT16_MAX && ReadString(name, flagged).Some?
      ensures |Raw(ReadString(name, flagged).value)| <= UINT16_MAX
    {
      StringBounded(name, flagged);
    }
    forall fields, id, s | |Raw(s)| <= UINT16_MAX && ProcessUtf8(fields, id, s, check, crc32).Some?
      ensures |Raw(ProcessUtf8(fields, id, s, check, crc32).value)| <= UINT16_MAX
    {
      TextBounded(fields, id, s, check, crc32);
    }
  }

  lemma StringBounded(name: seq<byte>, flagged: bool)
    requires ReadString(name, flagged).Some?
    ensures Raw(ReadString(name, flagged).value) == name
  {
  }

  lemma TextBounded(fields: seq<ExtraField.Field>, id: uint16, s: Stored, check: bool, crc32: Crc32)
    requires |Raw(s)| <= UINT16_MAX && ProcessUtf8(fields, id, s, check, crc32).Some?
    ensures |Raw(ProcessUtf8(fields, id, s, check, crc32).value)| <= UINT16_MAX
  {
    hide GetField;
  }

  lemma {:induction false} SearchBounded(file: seq<byte>, p: nat, bufOffset: nat, check: bool, crc32: Crc32)
    ensures var r := Search(file, p, bufOffset, check, crc32); r.Found? ==> AllBounded(r.value.entries)
    decreases p
  {
    hide LocateCdir, ReadComment, ReadEntries;
    if MagicAt(file, p, EOCD_MAGIC) && ReadCdir(file, p, bufOffset, check, crc32).Found? {
      var cd := LocateCdir(file, p, bufOffset, check).value;
      LocatedInside(file, p, bufOffset, check);
      EntriesBounded(DirectoryBytes(file, cd, bufOffset), cd.size, 0, cd.numEntries, cd.isZip64, check, crc32);
    } else if p > bufOffset {
      SearchBounded(file, p - 1, bufOffset, check, crc32);
    }
  }

  lemma LocatedInside(file: seq<byte>, at: nat, bufOffset: nat, check: bool)
    requires LocateCdir(file, at, bufOffset, check).Found?
    ensures var cd := LocateCdir(file, at, bufOffset, check).value; cd.offset + cd.size <= at <= |file|
  {
    hide ReadEocd64, Plausible;
  }

  // (lines 685-741)
  method Open(file: seq<byte>, check: bool, crc32: Crc32) returns (r: Status<Directory>)
    ensures r == OpenChecked(file, check, crc32)
  {
    hide Search, Consistent, LocalHeader, AllBounded;
    r := CdirIO.FindCentralDirectory(file, check, crc32);
    if r.Found? && check {
      SearchBounded(file, |file| - 4, BufferOffset(file), check, crc32);
      var span, entries := CheckEntries(file, r.value, crc32);
      if span < 0 {
        return Unusable;
      }
      r := Found(r.value.(entries := entries));
    }
  }

  // --- headers that were written ---

  // The local header was written for the entry, or for the default method before the data was deflated.
  predicate WrittenFor(header: Dirent, d: Dirent) {
    header == d || (header == d.(compMethod := CM_DEFAULT) && d.compMethod == CM_DEFLATE)
  }

  // When the two headers of an entry agree: the sizes can be read, the default method is not stored in the field for
  // AES, and a descriptor is as wide as those of the archive, unless its second number is seen to be zero anyway.
  predicate HeadersAgree(header: Dirent, d: Dirent, force: bool, isZip64: bool) {
    && SizesReadable(d, true, force) && (IsAes(d.encryption) ==> header == d)
    && (Bit(d.bitFlags, DATA_DESCRIPTOR) ==> DescriptorAgrees(d, force, isZip64))
  }

  predicate DescriptorAgrees(d: Dirent, force: bool, isZip64: bool) {
    && (isZip64 == IsWide(d, force) || (IsWide(d, force) && d.uncompSize == 0 && d.compSize <= UINT32_MAX))
    && (AesVersion(d) == 2 ==> d.crc == 0)
  }

  lemma HeadersCompared(header: Dirent, d: Dirent, offset: uint64, force: bool, data: seq<byte>, rest: seq<byte>,
      isZip64: bool, crc32: Crc32)
    requires Valid(d) && WrittenFor(header, d) && Storable(header) && WriteHeader(header, true, force, crc32).Some?
    requires |data| == d.compSize && 0 !in Raw(d.filename) && |rest| >= 8 && rest[0] != 0
    ensures var file := WriteHeader(header, true, force, crc32).value + (data + Behind(header, true, force, rest));
            var local := ReadHeader(file, true, isZip64, d.compSize, true, crc32);
            local.Some? && Comparable(Recovered(d.(offset := offset), false), local.value.0) <==>
            HeadersAgree(header, d, force, isZip64)
  {
    HeaderIsValid(header, d);
    hide WriteHeader, ReadHeader, Behind, Valid, Comparable, HeadersAgree, Recovered, ReadBackAs, WrittenFor;
    HeaderRoundTrip(header, true, force, data, rest, isZip64, true, crc32);
    ReadCompared(header, d, offset, force, rest, isZip64);
  }

  lemma HeaderIsValid(header: Dirent, d: Dirent)
    requires Valid(d) && WrittenFor(header, d)
    ensures Valid(header)
  {
    hide ValidString, NoInternal, Bit;
  }

  lemma ReadCompared(header: Dirent, d: Dirent, offset: uint64, force: bool, rest: seq<byte>, isZip64: bool)
    requires WrittenFor(header, d) && 0 !in Raw(d.filename) && |rest| >= 8 && rest[0] != 0
    ensures var local := ReadBackAs(header, true, force, rest, isZip64, true);
            local.Some? && Comparable(Recovered(d.(offset := offset), false), local.value) <==>
            HeadersAgree(header, d, force, isZip64)
  {
    assert SizesReadable(header, true, force) == SizesReadable(d, true, force)
           && IsWide(header, force) == IsWide(d, force);
    FlagsKeepDescriptor(header, true);
    FixedPartCompared(header, d, offset);
    hide SizesReadable, IsWide, Recovered, DescribedAs, DescriptorAgrees;
    if !Readable(header, true, force, true) {
    } else if !Bit(d.bitFlags, DATA_DESCRIPTOR) {
    } else {
      DescriptorCompared(header, d, offset, force, rest, isZip64);
    }
  }

  lemma FixedPartCompared(header: Dirent, d: Dirent, offset: uint64)
    requires WrittenFor(header, d)
    ensures var central, local := Recovered(d.(offset := offset), false), Recovered(header, true);
            && central.versionNeeded >= local.versionNeeded && central.time == local.time && central.date == local.date
            && Equal(central.filename, local.filename)
            && (central.compMethod == local.compMethod <==> (IsAes(d.encryption) ==> header == d))
            && central.crc == local.crc && central.compSize == local.compSize && central.uncompSize == local.uncompSize
  {
    hide Known, FlagsOf, IsUtf8, UseUtf8Flag;
  }

  lemma DescriptorCompared(header: Dirent, d: Dirent, offset: uint64, force: bool, rest: seq<byte>, isZip64: bool)
    requires WrittenFor(header, d) && |rest| >= 8 && rest[0] != 0 && Bit(d.bitFlags, DATA_DESCRIPTOR)
    ensures var central, local := Recovered(d.(offset := offset), false),
            DescribedAs(header, IsWide(header, force), isZip64, rest);
            local.Some? && SameNumbers(central, local.value) <==> DescriptorAgrees(d, force, isZip64)
  {
    FlagsKeepDescriptor(header, true);
    assert IsWide(header, force) == IsWide(d, force);
    assert SeenAs(header, IsWide(d, force), isZip64, rest) == SeenAs(d, IsWide(d, force), isZip64, rest);
    SizesSeen(d, force, rest, isZip64);
    SeenChecksum(d, IsWide(d, force), isZip64, rest);
    hide Bit, FlagsOf, ReadBack, SeenAs, IsWide, NeedsZip64;
  }

  lemma SizesSeen(d: Dirent, force: bool, rest: seq<byte>, isZip64: bool)
    requires |rest| >= 8 && rest[0] != 0
    ensures var wide := IsWide(d, force);
            var seen := SeenAs(d, wide, isZip64, rest);
            && seen.Some? && Agrees(d.compSize, seen.value.compSize) && Agrees(d.uncompSize, seen.value.uncompSize)
            && Agrees(seen.value.compSize, d.compSize) && Agrees(seen.value.uncompSize, d.uncompSize) <==>
            isZip64 == wide || (wide && d.uncompSize == 0 && d.compSize <= UINT32_MAX)
  {
    assert U64(rest, 0) != 0;
    hide U64, WriteDescriptor;
    DescriptorLength(d, IsWide(d, force));
  }

  lemma DescriptorLength(d: Dirent, wide: bool)
    ensures |WriteDescriptor(d, wide)| == if wide then 24 else 16
  {
  }

  // --- headers that were written for something else ---

  // Whether an entry of the directory is what a local header without a data descriptor says.
  predicate SaysTheSame(d: Dirent, header: Dirent) {
    && d.versionNeeded >= Recovered(header, true).versionNeeded
    && d.compMethod ==
      (if IsAes(header.encryption) then header.compMethod % 0x1_0000 else ActualMethod(header.compMethod))
    && d.time == header.time && d.date == header.date && Raw(d.filename) == Raw(header.filename)
    && d.crc == (if AesVersion(header) == 2 then 0 else header.crc)
    && d.compSize == header.compSize && d.uncompSize == header.uncompSize
  }

  // An entry passes the check against a readable header if and only if it says the same; so it does not if the names,
  // the times, the methods, the checksums or the sizes differ.
  lemma ForeignCompared(file: seq<byte>, directory: nat, isZip64: bool, d: Dirent, header: Dirent, force: bool,
      rest: seq<byte>, crc32: Crc32)
    requires Valid(header) && !Bit(header.bitFlags, DATA_DESCRIPTOR) && WriteHeader(header, true, force, crc32).Some?
    requires ValidString(d.filename) && d.offset <= |file|
    requires file[d.offset..] == WriteHeader(header, true, force, crc32).value + rest && |rest| >= d.compSize
    ensures EntryConsistent(file, directory, isZip64, d, crc32) <==>
              && d.offset + d.compSize + |Raw(d.filename)| + LENTRYSIZE <= directory
              && Readable(header, true, force, true) && SaysTheSame(d, header) && SizesPlausible(d)
  {
    assert ValidString(header.filename);
    hide WriteHeader, ReadPlain, Readable, Bit, Valid, SizesPlausible, Recovered, Comparable, SaysTheSame;
    PlainRoundTrip(header, true, force, rest, isZip64, true, crc32);
    FlagsKeepDescriptor(header, true);
    SameIsComparable(d, header);
  }

  lemma SameIsComparable(d: Dirent, header: Dirent)
    requires !Bit(header.bitFlags, DATA_DESCRIPTOR) && ValidString(d.filename) && ValidString(header.filename)
    ensures Comparable(d, Recovered(header, true)) <==> SaysTheSame(d, header)
  {
    FlagsKeepDescriptor(header, true);
    hide Bit, FlagsOf, Known, IsUtf8, UseUtf8Flag, IsAes, NeedsZip64, Utf8.WellFormed, StringEncoding.PlainAscii;
  }

  // --- where the lengths come from ---

  // The salt of the given strength (lib/zipint.h:85).
  function SaltLength(encryption: uint16): nat {
    if encryption == EM_AES_128 then 8 else if encryption == EM_AES_192 then 12 else 16
  }

  // Stored data becomes longer by a header of 12 bytes, or by the salt, two bytes to check the password and the
  // authentication code.
  lemma OverheadIsFraming(encryption: uint16)
    ensures StoredOverhead(EM_NONE) == Some(0) && StoredOverhead(EM_TRAD_PKWARE) == Some(Pkware.HEADERLEN)
    ensures IsAes(encryption) ==> StoredOverhead(encryption) == Some(SaltLength(encryption) + 2 + WinzipAes.HMAC_LENGTH)
    ensures encryption != EM_NONE && encryption != EM_TRAD_PKWARE && !IsAes(encryption) ==>
              StoredOverhead(encryption) == None
  {
  }
}
