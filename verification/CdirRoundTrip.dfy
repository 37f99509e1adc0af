// Reading the end of an archive gives back what was written; what the search and the reading of headers guarantee.
module CdirRoundTrip {
  import opened Bytes
  import opened Seqs
  import opened LittleEndian
  import opened ZipString
  import opened DirentFormat
  import opened DirentHeader
  import opened DirentRoundTrip
  import opened CentralDirectory
  import StringEncoding

  // --- the end records ---

  lemma EocdBack(file: seq<byte>, at: nat, count: uint64, size: uint64, offset: uint64, commentLength: uint16)
    requires Holds(file, at, Eocd(count, size, offset, commentLength))
    ensures ReadEocd(file, at) == Some(Cdir(0, 0, Low16(count), Low16(count), Low32(size), Low32(offset), at, false))
    ensures U16(file, at + 20) == commentLength && MagicAt(file, at, EOCD_MAGIC)
  {
    hide U16, U32, Put16, Put32, Holds;
    var disks := EOCD_MAGIC + Put32(0);
    var counts := disks + Put16(Low16(count)) + Put16(Low16(count));
    var place := counts + Put32(Low32(size)) + Put32(Low32(offset));
    Take16(file, at, place, commentLength);
    Take32(file, at, counts + Put32(Low32(size)), Low32(offset));
    Take32(file, at, counts, Low32(size));
    Take16(file, at, disks + Put16(Low16(count)), Low16(count));
    Take16(file, at, disks, Low16(count));
    TwoZeros(file, at, EOCD_MAGIC);
    HeldMagic(file, at, EOCD_MAGIC);
  }

  // Two numbers of 16 bits were written as one of 32.
  lemma TwoZeros(file: seq<byte>, at: nat, before: seq<byte>)
    requires Holds(file, at, before + Put32(0))
    ensures U16(file, at + |before|) == 0 && U16(file, at + |before| + 2) == 0 && Holds(file, at, before)
  {
    hide Put16, U16;
    assert before + Put32(0) == before + Put16(0) + Put16(0);
    Take16(file, at, before + Put16(0), 0);
    Take16(file, at, before, 0);
  }

  lemma HeldMagic(file: seq<byte>, at: nat, magic: seq<byte>)
    requires Holds(file, at, magic)
    ensures MagicAt(file, at, magic)
  {
  }

  lemma Eocd64Held(file: seq<byte>, at: nat, count: uint64, size: uint64, offset: uint64)
    requires Holds(file, at, Eocd64(count, size, offset))
    ensures at + EOCD64LEN <= |file| && MagicAt(file, at, EOCD64_MAGIC) && U64(file, at + 4) == EOCD64LEN - 12
    ensures U32(file, at + 16) == 0 && U32(file, at + 20) == 0 && U64(file, at + 24) == count
    ensures U64(file, at + 32) == count
    ensures U64(file, at + 40) == size && U64(file, at + 48) == offset
  {
    hide U16, U32, U64, Put16, Put32, Put64;
    var versions := EOCD64_MAGIC + Put64(EOCD64LEN - 12) + Put16(45) + Put16(45);
    var disks := versions + Put32(0) + Put32(0);
    var counts := disks + Put64(count) + Put64(count);
    Take64(file, at, counts + Put64(size), offset);
    Take64(file, at, counts, size);
    Take64(file, at, disks + Put64(count), count);
    Take64(file, at, disks, count);
    Take32(file, at, versions + Put32(0), 0);
    Take32(file, at, versions, 0);
    Take16(file, at, EOCD64_MAGIC + Put64(EOCD64LEN - 12) + Put16(45), 45);
    Take16(file, at, EOCD64_MAGIC + Put64(EOCD64LEN - 12), 45);
    Take64(file, at, EOCD64_MAGIC, EOCD64LEN - 12);
    HeldMagic(file, at, EOCD64_MAGIC);
  }

  lemma LocatorHeld(file: seq<byte>, at: nat, target: uint64)
    requires Holds(file, at, Locator(target))
    ensures at + EOCD64LOCLEN <= |file| && MagicAt(file, at, EOCD64LOC_MAGIC)
    ensures U32(file, at + 4) == 0 && U64(file, at + 8) == target && U32(file, at + 16) == 1
  {
    hide U32, U64, Put32, Put64;
    Take32(file, at, EOCD64LOC_MAGIC + Put32(0) + Put64(target), 1);
    Take64(file, at, EOCD64LOC_MAGIC + Put32(0), target);
    Take32(file, at, EOCD64LOC_MAGIC, 0);
    HeldMagic(file, at, EOCD64LOC_MAGIC);
  }

  lemma Eocd64Back(cd: Cdir, file: seq<byte>, count: uint64, size: uint64, offset: uint64, check: bool)
    requires offset + size <= INT64_MAX && count <= size / CDENTRYSIZE
    requires Holds(file, offset + size, Eocd64(count, size, offset))
    requires Holds(file, offset + size + EOCD64LEN, Locator(offset + size))
    requires cd.size == Low32(size) && cd.offset == Low32(offset) && cd.thisDisk == cd.eocdDisk == 0
    requires cd.numEntries == cd.diskEntries == Low16(count)
    ensures ReadEocd64(cd, file, offset + size + EOCD64LEN, check) ==
            Found(Cdir(0, 0, count, count, size, offset, offset + size, true))
  {
    hide U32, U64, Holds, MagicAt;
    Eocd64Held(file, offset + size, count, size, offset);
    LocatorHeld(file, offset + size + EOCD64LEN, offset + size);
  }

  // --- an archive ---

  // The file starts with data, then come the headers of the directory and the end records.
  ghost predicate IsArchive(file: seq<byte>, offset: nat, headers: seq<byte>, count: nat, comment: seq<byte>)
    ensures IsArchive(file, offset, headers, count, comment) ==>
              offset + |headers| <= INT64_MAX && count <= |headers| / CDENTRYSIZE && |comment| <= UINT16_MAX
  {
    && offset + |headers| <= INT64_MAX && count <= |headers| / CDENTRYSIZE && |comment| <= UINT16_MAX
    && offset <= |file|
    && file[offset..] == headers + EndRecords(count, |headers|, offset, |comment|) + comment
  }

  function EocdPosition(offset: nat, size: nat, count: nat): nat
    requires offset + size <= INT64_MAX && count <= UINT64_MAX
  {
    offset + size + if TailNeedsZip64(count, size, offset) then EOCD64LEN + EOCD64LOCLEN else 0
  }

  // The records are where they belong.
  lemma RecordsAt(file: seq<byte>, offset: nat, headers: seq<byte>, count: nat, comment: seq<byte>)
    requires IsArchive(file, offset, headers, count, comment)
    ensures var size := |headers|;
            var end := EocdPosition(offset, size, count);
            && Holds(file, offset, headers) && Holds(file, end, Eocd(count, size, offset, |comment|))
            && |file| == end + EOCDLEN + |comment| && file[end + EOCDLEN..] == comment
            && (TailNeedsZip64(count, size, offset) ==>
                  Holds(file, offset + size, Eocd64(count, size, offset))
                    && Holds(file, offset + size + EOCD64LEN, Locator(offset + size)))
  {
    hide Eocd, Eocd64, Locator, TailNeedsZip64;
    var size, tail := |headers|, file[offset..];
    var eocd, records := Eocd(count, size, offset, |comment|), EndRecords(count, size, offset, |comment|);
    Shifted(file, offset, 0, headers);
    if TailNeedsZip64(count, size, offset) {
      var wide, loc := Eocd64(count, size, offset), Locator(offset + size);
      assert tail == headers + wide + loc + eocd + comment;
      PartsInside(headers, wide, loc, eocd, comment);
      Shifted(file, offset, size, wide);
      Shifted(file, offset, size + 56, loc);
      Shifted(file, offset, size + 76, eocd);
      assert file[offset + size + 98..] == tail[size + 98..];
    } else {
      assert tail == headers + eocd + comment;
      Inside(headers, eocd, comment);
      Shifted(file, offset, size, eocd);
      assert file[offset + size + 22..] == tail[size + 22..];
    }
  }

  lemma Shifted(file: seq<byte>, offset: nat, at: nat, part: seq<byte>)
    requires offset <= |file| && Holds(file[offset..], at, part)
    ensures Holds(file, offset + at, part)
  {
    SliceOfSlice(file, offset, |file|, at, |part|);
    assert file[offset..] == file[offset..|file|];
  }

  // --- finding the directory ---

  // The directory of the archive is located by its own end record exactly if it has entries or is at the start of the
  // file (lib/zip_open.c:333-341): an empty directory behind other data is not recognised without Zip64 records.
  predicate Locatable(offset: nat, size: nat, count: nat)
    requires offset + size <= INT64_MAX && count <= UINT64_MAX
  {
    TailNeedsZip64(count, size, offset) || count > 0 || offset + size == 0
  }

  // The bytes before the end record must not look like a locator if there is none.
  predicate NoFalseLocator(file: seq<byte>, end: nat) {
    end >= EOCD64LOCLEN ==> !MagicAt(file, end - EOCD64LOCLEN, EOCD64LOC_MAGIC)
  }

  lemma LocateBack(file: seq<byte>, offset: nat, headers: seq<byte>, count: nat, comment: seq<byte>, check: bool)
    requires IsArchive(file, offset, headers, count, comment)
    requires count == 0 ==> headers == []
    requires count > 0 ==> Holds(headers, 0, CENTRAL_MAGIC)
    requires !TailNeedsZip64(count, |headers|, offset) ==> NoFalseLocator(file, EocdPosition(offset, |headers|, count))
    ensures var size, end := |headers|, EocdPosition(offset, |headers|, count);
            LocateCdir(file, end, BufferOffset(file), check) ==
              if !Locatable(offset, size, count) then NotHere
              else if TailNeedsZip64(count, size, offset) then
                Found(Cdir(0, 0, count, count, size, offset, offset + size, true))
              else Found(Cdir(0, 0, count, count, size, offset, end, false))
  {
    hide Eocd, Eocd64, Locator, U16, U32, U64, ReadEocd, ReadEocd64, Holds, IsArchive, EndRecords;
    var size, end := |headers|, EocdPosition(offset, |headers|, count);
    RecordsAt(file, offset, headers, count, comment);
    EocdBack(file, end, count, size, offset, |comment|);
    InBuffer(file, offset, headers, count, comment);
    if TailNeedsZip64(count, size, offset) {
      Eocd64Back(ReadEocd(file, end).value, file, count, size, offset, check);
      LocatorHeld(file, offset + size + EOCD64LEN, offset + size);
    } else {
      CentralMagicThere(file, offset, headers, count, comment);
    }
  }

  lemma InBuffer(file: seq<byte>, offset: nat, headers: seq<byte>, count: nat, comment: seq<byte>)
    requires IsArchive(file, offset, headers, count, comment)
    ensures var end := EocdPosition(offset, |headers|, count);
            BufferOffset(file) <= end && (end >= EOCD64LOCLEN ==> end >= BufferOffset(file) + EOCD64LOCLEN)
  {
    RecordsAt(file, offset, headers, count, comment);
  }

  lemma CentralMagicThere(file: seq<byte>, offset: nat, headers: seq<byte>, count: nat, comment: seq<byte>)
    requires IsArchive(file, offset, headers, count, comment) && !TailNeedsZip64(count, |headers|, offset)
    requires count == 0 ==> headers == []
    requires count > 0 ==> Holds(headers, 0, CENTRAL_MAGIC)
    ensures MagicAt(file, offset, CENTRAL_MAGIC) <==> count > 0
  {
    hide Eocd, ReadEocd, IsArchive, EndRecords;
    RecordsAt(file, offset, headers, count, comment);
    if count > 0 {
      assert file[offset..offset + |headers|] == headers;
      SliceOfSlice(file, offset, offset + |headers|, 0, 4);
    } else {
      EocdBack(file, offset, count, 0, offset, |comment|);
      assert file[offset..offset + 4] == EOCD_MAGIC;
    }
  }

  // --- the entries ---

  ghost predicate AllReadable(entries: seq<Dirent>, check: bool)
    ensures AllReadable(entries, check) ==> forall k :: 0 <= k < |entries| ==> Storable(entries[k])
  {
    forall k :: 0 <= k < |entries| ==> Valid(entries[k]) && Readable(entries[k], false, false, check)
  }

  function RecoveredAll(entries: seq<Dirent>): seq<Dirent> {
    if entries == [] then [] else [Recovered(entries[0], false)] + RecoveredAll(entries[1..])
  }

  // The next header is read while the number of entries is not reached.
  lemma ReadNext(b: seq<byte>, left: uint64, i: nat, count: nat, d: Dirent, n: nat, isZip64: bool, check: bool,
      crc32: Crc32)
    requires ReadHeader(b, false, isZip64, 0, check, crc32) == Some((d, n)) && 0 < n <= left && i < count && n <= |b|
    ensures var rest := ReadEntries(b[n..], left - n, i + 1, count, isZip64, check, crc32);
            rest.Some? ==> ReadEntries(b, left, i, count, isZip64, check, crc32) == Some([d] + rest.value)
  {
    hide ReadHeader;
    assert (left - n) % TWO_64 == left - n;
  }

  lemma NoneLeft(b: seq<byte>, i: nat, isZip64: bool, check: bool, crc32: Crc32)
    ensures ReadEntries(b, 0, i, i, isZip64, check, crc32) == Some([])
  {
  }

  lemma {:induction false} EntriesBack(entries: seq<Dirent>, headers: seq<byte>, rest: seq<byte>, i: nat, isZip64: bool,
      check: bool, crc32: Crc32)
    requires AllReadable(entries, check) && WriteHeaders(entries, crc32) == Some(headers) && |headers| <= UINT64_MAX
    ensures |entries| * CDENTRYSIZE <= |headers|
            && if entries == [] then headers == [] else Holds(headers, 0, CENTRAL_MAGIC)
    ensures ReadEntries(headers + rest, |headers|, i, i + |entries|, isZip64, check, crc32) ==
            Some(RecoveredAll(entries))
    decreases |entries|
  {
    hide ReadHeader, WriteHeader, Readable, Recovered, Valid, Holds, ReadEntries;
    if entries == [] {
      NoneLeft(headers + rest, i, isZip64, check, crc32);
    } else {
      var d, tail := entries[0], entries[1..];
      assert Valid(d) && Readable(d, false, false, check) && AllReadable(tail, check);
      var first, others := WriteHeader(d, false, false, crc32).value, WriteHeaders(tail, crc32).value;
      HeaderBack(d, others + rest, isZip64, check, crc32);
      HeaderStart(d, others, crc32);
      EntriesBack(tail, others, rest, i + 1, isZip64, check, crc32);
      assert headers + rest == first + (others + rest);
      assert (headers + rest)[|first|..] == others + rest;
      ReadNext(headers + rest, |headers|, i, i + |entries|, Recovered(d, false), |first|, isZip64, check, crc32);
    }
  }

  lemma HeaderBack(d: Dirent, rest: seq<byte>, isZip64: bool, check: bool, crc32: Crc32)
    requires Valid(d) && Readable(d, false, false, check) && WriteHeader(d, false, false, crc32).Some?
    ensures ReadHeader(WriteHeader(d, false, false, crc32).value + rest, false, isZip64, 0, check, crc32) ==
            Some((Recovered(d, false), |WriteHeader(d, false, false, crc32).value|))
  {
    hide ReadPlain, WriteHeader, Recovered, Valid, Readable;
    PlainRoundTrip(d, false, false, rest, isZip64, check, crc32);
  }

  lemma HeaderStart(d: Dirent, rest: seq<byte>, crc32: Crc32)
    requires Storable(d) && WriteHeader(d, false, false, crc32).Some?
    ensures var b := WriteHeader(d, false, false, crc32).value; |b| >= CDENTRYSIZE && Holds(b + rest, 0, CENTRAL_MAGIC)
  {
    hide OwnFields, Middle, Tail, FixedOf;
    var b := WriteHeader(d, false, false, crc32).value;
    assert (b + rest)[0..4] == CENTRAL_MAGIC;
  }

  // --- the whole archive ---

  // No end record seems to start behind the real one.
  ghost predicate NoLaterEocd(file: seq<byte>, end: nat) {
    forall p {:trigger MagicAt(file, p, EOCD_MAGIC)} :: end < p <= |file| ==> !MagicAt(file, p, EOCD_MAGIC)
  }

  lemma CommentBack(file: seq<byte>, offset: nat, headers: seq<byte>, count: nat, comment: seq<byte>, check: bool)
    requires IsArchive(file, offset, headers, count, comment)
    ensures ReadComment(file, EocdPosition(offset, |headers|, count), check) ==
            Some(if comment == [] then None else Some(ZipString(comment, StringEncoding.Unknown)))
  {
    hide Eocd, U16, IsArchive, EndRecords, ReadEocd;
    RecordsAt(file, offset, headers, count, comment);
    EocdBack(file, EocdPosition(offset, |headers|, count), count, |headers|, offset, |comment|);
    assert comment[..|comment|] == comment;
  }

  // What is known of an opened archive.
  function Contents(entries: seq<Dirent>, size: nat, offset: nat, comment: seq<byte>): Directory
    requires offset + size <= INT64_MAX && |entries| <= UINT64_MAX
  {
    var count, end := |entries|, EocdPosition(offset, size, |entries|);
    var isZip64 := TailNeedsZip64(count, size, offset);
    Directory(Cdir(0, 0, count, count, size, offset, if isZip64 then offset + size else end, isZip64),
              if comment == [] then None else Some(ZipString(comment, StringEncoding.Unknown)), RecoveredAll(entries))
  }

  // Reading at the end record of an archive gives its numbers, comment and entries, exactly if it is locatable.
  lemma CdirBack(file: seq<byte>, offset: nat, entries: seq<Dirent>, headers: seq<byte>, comment: seq<byte>,
      check: bool, crc32: Crc32)
    requires AllReadable(entries, check) && WriteHeaders(entries, crc32) == Some(headers)
    requires IsArchive(file, offset, headers, |entries|, comment)
    requires !TailNeedsZip64(|entries|, |headers|, offset) ==>
               NoFalseLocator(file, EocdPosition(offset, |headers|, |entries|))
    ensures ReadCdir(file, EocdPosition(offset, |headers|, |entries|), BufferOffset(file), check, crc32) ==
              if Locatable(offset, |headers|, |entries|) then Found(Contents(entries, |headers|, offset, comment))
              else NotHere
  {
    hide LocateCdir, ReadComment, ReadEntries, IsArchive, TailNeedsZip64, BufferOffset, AllReadable, WriteHeaders,
         NoFalseLocator, EocdPosition, DirectoryBytes, RecoveredAll;
    EntriesBack(entries, headers, [], 0, false, check, crc32);
    LocateBack(file, offset, headers, |entries|, comment, check);
    CommentBack(file, offset, headers, |entries|, comment, check);
    EndIsThere(file, offset, headers, |entries|, comment);
    DirectoryBack(file, offset, entries, headers, comment, BufferOffset(file),
                  TailNeedsZip64(|entries|, |headers|, offset), check, crc32);
  }

  lemma EndIsThere(file: seq<byte>, offset: nat, headers: seq<byte>, count: nat, comment: seq<byte>)
    requires IsArchive(file, offset, headers, count, comment)
    ensures EocdPosition(offset, |headers|, count) + EOCDLEN <= |file| && offset + |headers| <= |file|
    ensures file[offset..offset + |headers|] == headers
  {
    RecordsAt(file, offset, headers, count, comment);
  }

  lemma DirectoryBack(file: seq<byte>, offset: nat, entries: seq<Dirent>, headers: seq<byte>, comment: seq<byte>,
      bufOffset: nat, isZip64: bool, check: bool, crc32: Crc32)
    requires AllReadable(entries, check) && WriteHeaders(entries, crc32) == Some(headers)
    requires IsArchive(file, offset, headers, |entries|, comment)
    ensures offset + |headers| <= |file|
    ensures forall cd: Cdir :: cd.offset == offset && cd.size == |headers| ==>
              ReadEntries(DirectoryBytes(file, cd, bufOffset), |headers|, 0, |entries|, isZip64, check, crc32) ==
                Some(RecoveredAll(entries))
  {
    hide ReadEntries, IsArchive, AllReadable, WriteHeaders, EocdPosition, RecoveredAll;
    var end := offset + |headers|;
    EndIsThere(file, offset, headers, |entries|, comment);
    EntriesBack(entries, headers, [], 0, isZip64, check, crc32);
    EntriesBack(entries, headers, file[end..], 0, isZip64, check, crc32);
    assert headers + [] == headers == file[offset..end];
    assert headers + file[end..] == file[offset..];
  }

  // --- the search ---

  // The result is that of the last end record that is not passed over.
  lemma {:induction false} SearchFindsLast(file: seq<byte>, p: nat, bufOffset: nat, check: bool, crc32: Crc32)
    ensures var r := Search(file, p, bufOffset, check, crc32);
            r.Found? ==>
              exists q: nat ::
                && Accepted(file, q, bufOffset, check, crc32, r) && q <= p
                && PassedOver(file, q, p, bufOffset, check, crc32)
    decreases p
  {
    hide ReadCdir;
    var here := if MagicAt(file, p, EOCD_MAGIC) then ReadCdir(file, p, bufOffset, check, crc32) else NotHere;
    if here.Found? {
      assert Accepted(file, p, bufOffset, check, crc32, here);
    } else if here.NotHere? && p > bufOffset {
      SearchFindsLast(file, p - 1, bufOffset, check, crc32);
    }
  }

  ghost predicate Accepted(file: seq<byte>, q: nat, bufOffset: nat, check: bool, crc32: Crc32, r: Status<Directory>) {
    MagicAt(file, q, EOCD_MAGIC) && ReadCdir(file, q, bufOffset, check, crc32) == r
  }

  ghost predicate PassedOver(file: seq<byte>, q: nat, p: nat, bufOffset: nat, check: bool, crc32: Crc32) {
    forall k {:trigger MagicAt(file, k, EOCD_MAGIC)} :: q < k <= p && MagicAt(file, k, EOCD_MAGIC) ==>
      ReadCdir(file, k, bufOffset, check, crc32).NotHere?
  }

  lemma {:induction false} SearchReaches(file: seq<byte>, p: nat, end: nat, bufOffset: nat, check: bool, crc32: Crc32)
    requires bufOffset <= end <= p && NoLaterEocd(file, end) && p <= |file|
    ensures Search(file, p, bufOffset, check, crc32) == Search(file, end, bufOffset, check, crc32)
    decreases p
  {
    hide ReadCdir;
    if p > end {
      assert !MagicAt(file, p, EOCD_MAGIC);
      SearchReaches(file, p - 1, end, bufOffset, check, crc32);
    }
  }

  // What is found before the given position.
  function FoundEarlier(file: seq<byte>, end: nat, check: bool, crc32: Crc32): Status<Directory> {
    if end <= BufferOffset(file) then Unusable else Search(file, end - 1, BufferOffset(file), check, crc32)
  }

  // A written archive is opened with the entries it was written for, exactly if it is locatable; the search goes on
  // before its end record otherwise.
  lemma ArchiveRoundTrip(file: seq<byte>, offset: nat, entries: seq<Dirent>, headers: seq<byte>, comment: seq<byte>,
      check: bool, crc32: Crc32)
    requires AllReadable(entries, check) && WriteHeaders(entries, crc32) == Some(headers)
    requires IsArchive(file, offset, headers, |entries|, comment)
    requires NoLaterEocd(file, EocdPosition(offset, |headers|, |entries|))
    requires !TailNeedsZip64(|entries|, |headers|, offset) ==>
               NoFalseLocator(file, EocdPosition(offset, |headers|, |entries|))
    ensures FindCentralDir(file, check, crc32) ==
              if Locatable(offset, |headers|, |entries|) then Found(Contents(entries, |headers|, offset, comment))
              else FoundEarlier(file, EocdPosition(offset, |headers|, |entries|), check, crc32)
  {
    hide ReadCdir, IsArchive, TailNeedsZip64, Eocd, Eocd64, Locator, MagicAt, WriteHeaders, AllReadable, NoLaterEocd,
         ReadEocd, EocdPosition, Contents;
    var end := EocdPosition(offset, |headers|, |entries|);
    RecordsAt(file, offset, headers, |entries|, comment);
    EocdBack(file, end, |entries|, |headers|, offset, |comment|);
    InBuffer(file, offset, headers, |entries|, comment);
    CdirBack(file, offset, entries, headers, comment, check, crc32);
    SearchReaches(file, |file| - 4, end, BufferOffset(file), check, crc32);
  }

  // No end record seems to start in the part of the file that is searched, up to the given position.
  ghost predicate NoEarlierEocd(file: seq<byte>, end: nat) {
    forall p {:trigger MagicAt(file, p, EOCD_MAGIC)} :: BufferOffset(file) <= p < end ==> !MagicAt(file, p, EOCD_MAGIC)
  }

  lemma {:induction false} NothingEarlier(file: seq<byte>, end: nat, check: bool, crc32: Crc32)
    requires NoEarlierEocd(file, end)
    ensures FoundEarlier(file, end, check, crc32) == Unusable
  {
    if end > BufferOffset(file) {
      assert !MagicAt(file, end - 1, EOCD_MAGIC);
      NothingEarlier(file, end - 1, check, crc32);
    }
  }

  // An empty directory behind other data cannot be opened, unless it has Zip64 records.
  lemma EmptyDirectoryIsLost(file: seq<byte>, offset: nat, comment: seq<byte>, check: bool, crc32: Crc32)
    requires IsArchive(file, offset, [], 0, comment) && NoLaterEocd(file, EocdPosition(offset, 0, 0))
    requires !TailNeedsZip64(0, 0, offset) ==> NoFalseLocator(file, EocdPosition(offset, 0, 0))
    requires NoEarlierEocd(file, EocdPosition(offset, 0, 0))
    ensures FindCentralDir(file, check, crc32).Found? <==> offset == 0 || TailNeedsZip64(0, 0, offset)
    ensures !FindCentralDir(file, check, crc32).Found? ==> FindCentralDir(file, check, crc32) == Unusable
  {
    hide FindCentralDir, IsArchive, NoLaterEocd, NoEarlierEocd, NoFalseLocator, FoundEarlier;
    ArchiveRoundTrip(file, offset, [], [], comment, check, crc32);
    NothingEarlier(file, EocdPosition(offset, 0, 0), check, crc32);
  }

  // An empty directory behind a single byte.
  const LOST: seq<byte> := [0, 0x50, 0x4B, 5, 6, 0, 0, 0, 0, 0, 0, 0, 0, 0, 0, 0, 0, 1, 0, 0, 0, 0, 0]

  lemma LostIsArchive()
    ensures LOST == [0] + EndRecords(0, 0, 1, 0) && IsArchive(LOST, 1, [], 0, [])
  {
    hide IsArchive;
    assert LOST == [0] + EndRecords(0, 0, 1, 0);
    assert LOST[1..] == [] + EndRecords(0, 0, 1, 0) + [];
    BehindAByte(LOST);
  }

  lemma BehindAByte(file: seq<byte>)
    requires file != [] && file[1..] == [] + EndRecords(0, 0, 1, 0) + []
    ensures IsArchive(file, 1, [], 0, [])
  {
    hide EndRecords;
  }

  lemma EmptyDirectoryCounterexample(check: bool, crc32: Crc32)
    ensures LOST == [0] + EndRecords(0, 0, 1, 0) && FindCentralDir(LOST, check, crc32) == Unusable
  {
    hide FindCentralDir, IsArchive, EndRecords;
    LostIsArchive();
    forall p | 0 <= p <= |LOST| && p != 1
      ensures !MagicAt(LOST, p, EOCD_MAGIC)
    {
      assert p + 4 <= |LOST| ==> LOST[p..p + 4][0] == LOST[p] != 0x50;
    }
    EmptyDirectoryIsLost(LOST, 1, [], check, crc32);
  }

  // --- what any accepted directory looks like ---

  // The headers of the entries follow each other without gaps, and nothing is left.
  ghost predicate Tiles(b: seq<byte>, entries: seq<Dirent>, isZip64: bool, check: bool, crc32: Crc32)
    decreases |entries|
  {
    if entries == [] then b == []
    else
      var header := ReadHeader(b, false, isZip64, 0, check, crc32);
      header.Some? && header.value.0 == entries[0] && header.value.1 <= |b|
        && Tiles(b[header.value.1..], entries[1..], isZip64, check, crc32)
  }

  // A directory that was read from the buffer is tiled by its entries, whose number is that announced, or without
  // Zip64 one that is equal to it modulo 0x10000.
  lemma {:induction false} EntriesTile(b: seq<byte>, i: nat, count: nat, isZip64: bool, check: bool, crc32: Crc32)
    requires |b| <= UINT64_MAX && i <= count && ReadEntries(b, |b|, i, count, isZip64, check, crc32).Some?
    ensures var entries := ReadEntries(b, |b|, i, count, isZip64, check, crc32).value;
            && Tiles(b, entries, isZip64, check, crc32) && i + |entries| >= count
            && (i + |entries| - count) % 0x1_0000 == 0 && (isZip64 ==> i + |entries| == count)
    decreases |b|
  {
    hide ReadHeader;
    if b != [] {
      var grown := if i == count then count + 0x1_0000 else count;
      HeaderIsWithin(b, isZip64, check, crc32);
      var n := ReadHeader(b, false, isZip64, 0, check, crc32).value.1;
      assert (|b| - n) % TWO_64 == |b[n..]|;
      EntriesTile(b[n..], i + 1, grown, isZip64, check, crc32);
      var entries := ReadEntries(b, |b|, i, count, isZip64, check, crc32).value;
      assert entries[1..] == ReadEntries(b[n..], |b| - n, i + 1, grown, isZip64, check, crc32).value;
    }
  }

  lemma HeaderIsWithin(b: seq<byte>, isZip64: bool, check: bool, crc32: Crc32)
    requires ReadHeader(b, false, isZip64, 0, check, crc32).Some?
    ensures CDENTRYSIZE <= ReadHeader(b, false, isZip64, 0, check, crc32).value.1 <= |b|
  {
    hide DecodeFixed, Interpret;
  }

  // --- what follows the comment ---

  // With checking, a directory is only accepted if the file ends with its comment. Without, bytes behind the comment
  // are ignored, and one that is cut off is taken as far as it goes.
  lemma CommentOfAny(file: seq<byte>, at: nat, bufOffset: nat, check: bool, crc32: Crc32)
    requires ReadCdir(file, at, bufOffset, check, crc32).Found?
    ensures at + EOCDLEN <= |file|
    ensures var end := at + EOCDLEN + U16(file, at + 20);
            var comment := file[at + EOCDLEN..Min(end, |file|)];
            && (check ==> |file| == end)
            && ReadCdir(file, at, bufOffset, check, crc32).value.comment ==
               if comment == [] then None else Some(ZipString(comment, StringEncoding.Unknown))
  {
    hide ReadEntries, ReadEocd64, Plausible, U16, EocdOk;
    var tail := file[at + EOCDLEN..];
    var n := Min(U16(file, at + 20), |tail|);
    assert tail[..n] == file[at + EOCDLEN..at + EOCDLEN + n];
  }

  // A file that goes on behind the comment is refused with checking, and its comment is the same without.
  lemma BytesBehindComment(file: seq<byte>, at: nat, comment: seq<byte>, more: seq<byte>)
    requires at + EOCDLEN <= |file| && file[at + EOCDLEN..] == comment + more && U16(file, at + 20) == |comment|
    ensures more != [] ==> ReadComment(file, at, true) == None
    ensures ReadComment(file, at, false) ==
            Some(if comment == [] then None else Some(ZipString(comment, StringEncoding.Unknown)))
  {
    hide U16;
    assert (comment + more)[..|comment|] == comment;
  }

  // --- what a directory that is found looks like ---

  // Whatever wrote it: it is on one disk, its two counts agree, and it lies before its end record, with checking right
  // before the end records. With Zip64 records it was reached through the locator, which counts one disk, and no field
  // of the end record contradicts it; without, it is empty at the start of the file or begins with a header.
  lemma LocatedMeans(file: seq<byte>, at: nat, bufOffset: nat, check: bool)
    requires LocateCdir(file, at, bufOffset, check).Found?
    ensures at + EOCDLEN <= |file|
    ensures var cd := LocateCdir(file, at, bufOffset, check).value;
            && cd.thisDisk == 0 && cd.eocdDisk == 0 && cd.diskEntries == cd.numEntries
            && cd.offset + cd.size <= at && cd.eocdOffset <= at && (check ==> cd.offset + cd.size == cd.eocdOffset)
    ensures var cd := LocateCdir(file, at, bufOffset, check).value;
            !cd.isZip64 ==>
              && cd.eocdOffset == at && cd.numEntries == U16(file, at + 10) == U16(file, at + 8)
              && cd.size == U32(file, at + 12) && cd.offset == U32(file, at + 16)
              && (MagicAt(file, cd.offset, CENTRAL_MAGIC) || (at == 0 && cd.offset == 0 && cd.numEntries == 0))
    ensures var cd := LocateCdir(file, at, bufOffset, check).value;
            cd.isZip64 ==>
              && at >= EOCD64LOCLEN && MagicAt(file, at - EOCD64LOCLEN, EOCD64LOC_MAGIC) && U32(file, at - 4) == 1
              && cd.eocdOffset == U64(file, at - 12) && cd.eocdOffset + EOCD64LEN + EOCD64LOCLEN <= at
              && MagicAt(file, cd.eocdOffset, EOCD64_MAGIC)
              && cd.numEntries == U64(file, cd.eocdOffset + 32) == U64(file, cd.eocdOffset + 24)
              && cd.size == U64(file, cd.eocdOffset + 40) && cd.offset == U64(file, cd.eocdOffset + 48)
              && cd.offset <= INT64_MAX && cd.numEntries * CDENTRYSIZE <= cd.size
              && (U32(file, at + 12) == UINT32_MAX || U32(file, at + 12) == cd.size)
              && (U32(file, at + 16) == UINT32_MAX || U32(file, at + 16) == cd.offset)
              && (U16(file, at + 10) == UINT16_MAX || U16(file, at + 10) == cd.numEntries)
              && (U16(file, at + 8) == UINT16_MAX || U16(file, at + 8) == cd.numEntries)
              && (U16(file, at + 4) == UINT16_MAX || U16(file, at + 4) == 0)
              && (U16(file, at + 6) == UINT16_MAX || U16(file, at + 6) == 0)
              && (check ==> U64(file, cd.eocdOffset + 4) + cd.eocdOffset + 12 == at - EOCD64LOCLEN)
  {
    hide U16, U32, U64;
  }

  // An end record whose directory starts on another disk is not the end record of this archive if it says that the
  // directory is on a later disk than the end, or if the directory would fit on the last one; then the search goes on.
  // Otherwise the archive is refused.
  lemma OtherDisks(file: seq<byte>, at: nat, bufOffset: nat, check: bool)
    requires at + EOCDLEN <= |file| && U16(file, at + 4) != U16(file, at + 6)
    requires at < bufOffset + EOCD64LOCLEN || !MagicAt(file, at - EOCD64LOCLEN, EOCD64LOC_MAGIC)
    ensures U16(file, at + 6) > U16(file, at + 4) || U32(file, at + 12) <= at ==>
              LocateCdir(file, at, bufOffset, check) == NotHere
    ensures U16(file, at + 6) < U16(file, at + 4) && U32(file, at + 12) > at
            && MagicAt(file, U32(file, at + 16), CENTRAL_MAGIC) ==>
              LocateCdir(file, at, bufOffset, check) == Unusable
  {
    hide U16, U32, ReadEocd64;
  }
}
