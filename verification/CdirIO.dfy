// Writing the central directory, and searching and reading it (lib/zip_dirent.c, lib/zip_open.c).
module CdirIO {
  import opened Bytes
  import opened LittleEndian
  import opened ZipBuffer
  import opened ZipString
  import opened DirentFormat
  import opened DirentHeader
  import opened DirentIO
  import opened CentralDirectory
  import CdirRoundTrip

  // The last end record before a position, or in the whole buffer; -1 if there is none (lib/zip_open.c:744-774).
  method FindEocd(data: array<byte>, last: Option<nat>) returns (p: int)
    requires last.Some? ==> last.value <= data.Length - 4
    ensures var limit := if last.Some? then last.value - 1 else data.Length - 4;
            && -1 <= p <= Max(limit, -1) && (p >= 0 ==> MagicAt(data[..], p, EOCD_MAGIC))
            && forall q: nat :: p < q <= limit ==> !MagicAt(data[..], q, EOCD_MAGIC)
  {
    if last.None? {
      if data.Length < 4 {
        return -1;
      }
      p := data.Length - 4;
    } else {
      if last.value == 0 {
        return -1;
      }
      p := last.value - 1;
    }
    ghost var limit := p;
    while p >= 0
      invariant -1 <= p <= limit <= data.Length - 4
      invariant forall q: nat :: p < q <= limit ==> !MagicAt(data[..], q, EOCD_MAGIC)
    {
      assert data[..][p..p + 4][0] == data[p] && data[..][p..p + 4] == data[p..p + 4];
      if data[p] == EOCD_MAGIC[0] {
        if data[p..p + 4] == EOCD_MAGIC {
          return p;
        }
      }
      p := p - 1;
    }
  }

  // Try the end records of the last part of the file in turn (lib/zip_open.c:685-741).
  method FindCentralDirectory(file: seq<byte>, check: bool, crc32: Crc32) returns (r: Status<Directory>)
    ensures r == FindCentralDir(file, check, crc32)
  {
    hide ReadCdir, Search;
    if |file| < EOCDLEN {
      return Unusable;
    }
    var length := if |file| < CDBUFSIZE then |file| else CDBUFSIZE;
    var bufOffset := |file| - length;
    var buffer := new byte[length](k requires 0 <= k < length => file[bufOffset + k]);
    assert buffer[..] == file[bufOffset..];
    r := SearchBuffer(file, buffer, bufOffset, check, crc32);
  }

  // (lib/zip_open.c:723-733)
  method SearchBuffer(file: seq<byte>, buffer: array<byte>, bufOffset: nat, check: bool,
      crc32: Crc32) returns (r: Status<Directory>)
    requires bufOffset + 4 <= |file| && buffer[..] == file[bufOffset..]
    ensures r == Search(file, |file| - 4, bufOffset, check, crc32)
  {
    hide ReadCdir, Search;
    var next := FindEocd(buffer, None);
    PassNone(file, buffer[..], bufOffset, buffer.Length - 4, next, check, crc32);
    while next >= 0
      invariant -1 <= next <= buffer.Length - 4 && (next >= 0 ==> MagicAt(buffer[..], next, EOCD_MAGIC))
      invariant Search(file, |file| - 4, bufOffset, check, crc32) ==
                if next < 0 then Unusable else Search(file, bufOffset + next, bufOffset, check, crc32)
    {
      SameMagic(file, bufOffset, next);
      SearchStep(file, bufOffset + next, bufOffset, check, crc32);
      r := ReadCdir(file, bufOffset + next, bufOffset, check, crc32);
      if !r.NotHere? {
        return;
      }
      var last := next;
      next := FindEocd(buffer, Some(last));
      if last > 0 {
        PassNone(file, buffer[..], bufOffset, last - 1, next, check, crc32);
      }
    }
    return Unusable;
  }

  lemma SearchStep(file: seq<byte>, p: nat, bufOffset: nat, check: bool, crc32: Crc32)
    requires MagicAt(file, p, EOCD_MAGIC)
    ensures var here := ReadCdir(file, p, bufOffset, check, crc32);
            Search(file, p, bufOffset, check, crc32) ==
              if !here.NotHere? then here
              else if p <= bufOffset then Unusable
              else Search(file, p - 1, bufOffset, check, crc32)
  {
    hide ReadCdir;
  }

  lemma SameMagic(file: seq<byte>, bufOffset: nat, p: nat)
    requires bufOffset <= |file|
    ensures MagicAt(file[bufOffset..], p, EOCD_MAGIC) <==> MagicAt(file, bufOffset + p, EOCD_MAGIC)
  {
    if bufOffset + p + 4 <= |file| {
      assert file[bufOffset..][p..p + 4] == file[bufOffset + p..bufOffset + p + 4];
    }
  }

  // The search goes on at the next record that is found.
  lemma {:induction false} PassNone(file: seq<byte>, buffer: seq<byte>, bufOffset: nat, p: nat, next: int, check: bool,
      crc32: Crc32)
    requires bufOffset <= |file| && buffer == file[bufOffset..] && -1 <= next <= p
    requires forall q: nat :: next < q <= p ==> !MagicAt(buffer, q, EOCD_MAGIC)
    ensures Search(file, bufOffset + p, bufOffset, check, crc32) ==
            if next < 0 then Unusable else Search(file, bufOffset + next, bufOffset, check, crc32)
  {
    hide ReadCdir;
    if next < p {
      SameMagic(file, bufOffset, p);
      if p > 0 {
        PassNone(file, buffer, bufOffset, p - 1, next, check, crc32);
      }
    }
  }

  // --- the entries ---

  // What is known when some headers were read.
  ghost predicate Reading(result: Option<seq<Dirent>>, done: seq<Dirent>, rest: Option<seq<Dirent>>) {
    result == if rest.None? then None else Some(done + rest.value)
  }

  lemma ReadingNext(result: Option<seq<Dirent>>, done: seq<Dirent>, d: Dirent, rest: Option<seq<Dirent>>)
    requires Reading(result, done, if rest.None? then None else Some([d] + rest.value))
    ensures Reading(result, done + [d], rest)
  {
    assert rest.Some? ==> done + ([d] + rest.value) == done + [d] + rest.value;
  }

  lemma ReadingStarts(result: Option<seq<Dirent>>)
    ensures Reading(result, [], result)
  {
    assert result.Some? ==> [] + result.value == result.value;
  }

  lemma ReadingEnds(result: Option<seq<Dirent>>, done: seq<Dirent>)
    requires Reading(result, done, Some([]))
    ensures result == Some(done)
  {
    assert done + [] == done;
  }

  // Read the headers from a buffer (lib/zip_open.c:423-466).
  method ReadAll(buffer: Buffer, size: uint64, numEntries: nat, isZip64: bool, check: bool,
      crc32: Crc32) returns (r: Option<seq<Dirent>>)
    requires buffer.Valid() && buffer.ok
    modifies buffer
    ensures r == ReadEntries(old(buffer.Ahead()), size, 0, numEntries, isZip64, check, crc32)
  {
    hide ReadHeader, Reading;
    var entries: seq<Dirent> := [];
    var left, i, count := size, 0, numEntries;
    ghost var result := ReadEntries(buffer.Ahead(), left, i, count, isZip64, check, crc32);
    ReadingStarts(result);
    while left > 0
      invariant buffer.Valid() && buffer.ok && 0 <= left <= UINT64_MAX && i <= count
      invariant Reading(result, entries, ReadEntries(buffer.Ahead(), left, i, count, isZip64, check, crc32))
      decreases |buffer.Ahead()|
    {
      ghost var b := buffer.Ahead();
      var grown := count;
      if i == count {
        if isZip64 || left < CDENTRYSIZE {
          NothingRead(result, entries);
          return None;
        }
        grown := count + 0x1_0000;
      }
      var header := ReadCentral(buffer, isZip64, check, crc32);
      if header.None? {
        NothingRead(result, entries);
        return None;
      }
      var d, n := header.value.0, header.value.1;
      HeaderSizeBounds(b, isZip64, check, crc32);
      assert buffer.Ahead() == b[n..];
      ReadingNext(result, entries, d, ReadEntries(b[n..], (left - n) % TWO_64, i + 1, grown, isZip64, check, crc32));
      entries := entries + [d];
      left := (left - n) % TWO_64;
      i, count := i + 1, grown;
    }
    if i != count || left > 0 {
      NothingRead(result, entries);
      return None;
    }
    ReadingEnds(result, entries);
    return Some(entries);
  }

  lemma NothingRead(result: Option<seq<Dirent>>, done: seq<Dirent>)
    ensures Reading(result, done, None) ==> result == None
  {
  }

  lemma HeaderSizeBounds(b: seq<byte>, isZip64: bool, check: bool, crc32: Crc32)
    requires ReadHeader(b, false, isZip64, 0, check, crc32).Some?
    ensures CDENTRYSIZE <= ReadHeader(b, false, isZip64, 0, check, crc32).value.1 <= |b|
  {
    hide DecodeFixed, Interpret;
  }

  // --- writing (lib/zip_dirent.c:104-208) ---

  // Put the records that end the archive into a buffer.
  method PutEndRecords(buffer: Buffer, count: uint64, size: uint64, offset: uint64, commentLength: uint16)
    requires buffer.Valid() && buffer.ok && buffer.offset == 0
    requires buffer.data.Length == EOCDLEN + EOCD64LEN + EOCD64LOCLEN
    requires offset + size <= UINT64_MAX
    modifies buffer, buffer.data
    ensures buffer.Valid() && buffer.ok
    ensures buffer.data[..buffer.offset] == EndRecords(count, size, offset, commentLength)
  {
    hide Eocd, Eocd64, Locator, TailNeedsZip64;
    if TailNeedsZip64(count, size, offset) {
      PutEocd64(buffer, count, size, offset);
      PutLocator(buffer, offset + size);
    }
    PutEocd(buffer, count, size, offset, commentLength);
  }

  method PutEocd64(buffer: Buffer, count: uint64, size: uint64, offset: uint64)
    requires buffer.Valid() && buffer.ok && buffer.offset + EOCD64LEN <= buffer.data.Length
    modifies buffer, buffer.data
    ensures buffer.Valid() && buffer.ok && buffer.offset == old(buffer.offset) + EOCD64LEN
    ensures buffer.data[..buffer.offset] == old(buffer.data[..buffer.offset]) + Eocd64(count, size, offset)
  {
    hide Put16, Put32, Put64;
    ghost var before := buffer.data[..buffer.offset];
    ghost var put := Append(buffer, before, [], EOCD64_MAGIC);
    put := Append(buffer, before, put, Put64(EOCD64LEN - 12));
    put := Append(buffer, before, put, Put16(45));
    put := Append(buffer, before, put, Put16(45));
    put := Append(buffer, before, put, Put32(0));
    put := Append(buffer, before, put, Put32(0));
    put := Append(buffer, before, put, Put64(count));
    put := Append(buffer, before, put, Put64(count));
    put := Append(buffer, before, put, Put64(size));
    put := Append(buffer, before, put, Put64(offset));
    assert [] + EOCD64_MAGIC == EOCD64_MAGIC;
  }

  method PutLocator(buffer: Buffer, at: uint64)
    requires buffer.Valid() && buffer.ok && buffer.offset + EOCD64LOCLEN <= buffer.data.Length
    modifies buffer, buffer.data
    ensures buffer.Valid() && buffer.ok && buffer.offset == old(buffer.offset) + EOCD64LOCLEN
    ensures buffer.data[..buffer.offset] == old(buffer.data[..buffer.offset]) + Locator(at)
  {
    hide Put16, Put32, Put64;
    ghost var before := buffer.data[..buffer.offset];
    ghost var put := Append(buffer, before, [], EOCD64LOC_MAGIC);
    put := Append(buffer, before, put, Put32(0));
    put := Append(buffer, before, put, Put64(at));
    put := Append(buffer, before, put, Put32(1));
    assert [] + EOCD64LOC_MAGIC == EOCD64LOC_MAGIC;
  }

  method PutEocd(buffer: Buffer, count: uint64, size: uint64, offset: uint64, commentLength: uint16)
    requires buffer.Valid() && buffer.ok && buffer.offset + EOCDLEN <= buffer.data.Length
    modifies buffer, buffer.data
    ensures buffer.Valid() && buffer.ok && buffer.offset == old(buffer.offset) + EOCDLEN
    ensures buffer.data[..buffer.offset] == old(buffer.data[..buffer.offset]) + Eocd(count, size, offset, commentLength)
  {
    hide Put16, Put32, Put64;
    ghost var before := buffer.data[..buffer.offset];
    ghost var put := Append(buffer, before, [], EOCD_MAGIC);
    put := Append(buffer, before, put, Put32(0));
    put := Append(buffer, before, put, Put16(Low16(count)));
    put := Append(buffer, before, put, Put16(Low16(count)));
    put := Append(buffer, before, put, Put32(Low32(size)));
    put := Append(buffer, before, put, Put32(Low32(offset)));
    put := Append(buffer, before, put, Put16(commentLength));
    assert [] + EOCD_MAGIC == EOCD_MAGIC;
  }

  lemma HeadersFrom(entries: seq<Dirent>, i: nat, crc32: Crc32)
    requires i < |entries| && forall k :: 0 <= k < |entries| ==> Storable(entries[k])
    ensures var first, rest := WriteHeader(entries[i], false, false, crc32), WriteHeaders(entries[i + 1..], crc32);
            WriteHeaders(entries[i..], crc32) ==
            if first.None? || rest.None? then None else Some(first.value + rest.value)
  {
    assert entries[i..][1..] == entries[i + 1..];
  }

  lemma NoHeaders(entries: seq<Dirent>, crc32: Crc32)
    ensures WriteHeaders(entries[|entries|..], crc32) == Some([])
  {
  }

  // Write all headers behind what was written before (lib/zip_dirent.c:124-131).
  method WriteEntries(entries: seq<Dirent>, written: seq<byte>, crc32: Crc32) returns (r: Option<seq<byte>>)
    requires forall k :: 0 <= k < |entries| ==> Storable(entries[k])
    ensures var headers := WriteHeaders(entries, crc32);
            r == if headers.None? then None else Some(written + headers.value)
  {
    hide WriteHeader, WriteHeaders;
    var out := written;
    assert entries[0..] == entries;
    for i := 0 to |entries|
      invariant var all, rest := WriteHeaders(entries, crc32), WriteHeaders(entries[i..], crc32);
        all.Some? == rest.Some? && (rest.Some? ==> written + all.value == out + rest.value)
    {
      HeadersFrom(entries, i, crc32);
      var header := WriteDirent(entries[i], false, false, crc32, out);
      if header.None? {
        return None;
      }
      out := header.value.0;
    }
    NoHeaders(entries, crc32);
    assert out + [] == out;
    return Some(out);
  }

  // Write the directory and the end records behind the data of an archive.
  method WriteCdir(entries: seq<Dirent>, comment: Stored, written: seq<byte>, crc32: Crc32)
      returns (r: Option<seq<byte>>)
    requires forall k :: 0 <= k < |entries| ==> Storable(entries[k])
    requires |Raw(comment)| <= UINT16_MAX && |entries| <= UINT64_MAX
    requires WriteHeaders(entries, crc32).Some? ==> |written| + |WriteHeaders(entries, crc32).value| <= UINT64_MAX
    ensures var headers := WriteHeaders(entries, crc32);
            r == if headers.None? then None
            else Some(written + headers.value + EndRecords(|entries|, |headers.value|, |written|, |Raw(comment)|)
                      + Raw(comment))
  {
    hide WriteHeaders, EndRecords;
    var offset := |written|;
    var out := WriteEntries(entries, written, crc32);
    if out.None? {
      return None;
    }
    var size := |out.value| - offset;
    var buf := new byte[EOCDLEN + EOCD64LEN + EOCD64LOCLEN];
    var buffer := new Buffer(buf);
    PutEndRecords(buffer, |entries|, size, offset, |Raw(comment)|);
    var result := out.value + buf[..buffer.offset];
    if comment.Some? {
      result := result + Raw(comment);
    } else {
      assert result + Raw(comment) == result;
    }
    return Some(result);
  }

  // What is written can be opened (section 4.3.16 of APPNOTE.TXT), see CdirRoundTrip.ArchiveRoundTrip.
  lemma WrittenIsArchive(entries: seq<Dirent>, headers: seq<byte>, comment: Stored, written: seq<byte>, crc32: Crc32)
    requires CdirRoundTrip.AllReadable(entries, false) && WriteHeaders(entries, crc32) == Some(headers)
    requires |written| + |headers| <= INT64_MAX && |Raw(comment)| <= UINT16_MAX
    ensures |entries| * CDENTRYSIZE <= |headers|
    ensures CdirRoundTrip.IsArchive(written + headers + EndRecords(|entries|, |headers|, |written|, |Raw(comment)|)
                                    + Raw(comment),
                                    |written|, headers, |entries|, Raw(comment))
  {
    hide EndRecords, WriteHeaders, CdirRoundTrip.AllReadable, CdirRoundTrip.RecoveredAll, ReadEntries, Holds;
    CdirRoundTrip.EntriesBack(entries, headers, [], 0, false, false, crc32);
    AfterFirst(written, headers, EndRecords(|entries|, |headers|, |written|, |Raw(comment)|), Raw(comment));
  }

  lemma AfterFirst(a: seq<byte>, b: seq<byte>, c: seq<byte>, d: seq<byte>)
    ensures (a + b + c + d)[|a|..] == b + c + d
  {
  }
}
