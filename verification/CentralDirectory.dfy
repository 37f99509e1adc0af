// The central directory and the records that end an archive (lib/zip_open.c, lib/zip_dirent.c; sections 4.3.12 and
// 4.3.14 to 4.3.16 of APPNOTE.TXT).
module CentralDirectory {
  import opened Bytes
  import opened LittleEndian
  import opened ZipString
  import opened DirentFormat
  import opened DirentHeader
  import StringEncoding

  const EOCD_MAGIC: seq<byte> := [0x50, 0x4B, 5, 6]
  const EOCD64LOC_MAGIC: seq<byte> := [0x50, 0x4B, 6, 7]
  const EOCD64_MAGIC: seq<byte> := [0x50, 0x4B, 6, 6]
  const EOCDLEN: nat := 22
  const EOCD64LOCLEN: nat := 20
  const EOCD64LEN: nat := 56
  const CDBUFSIZE: nat := 0x1_0000 + EOCDLEN + EOCD64LOCLEN
  const CDENTRYSIZE: nat := 46

  datatype Cdir = Cdir(thisDisk: uint32, eocdDisk: uint32, diskEntries: uint64, numEntries: uint64, size: uint64,
                       offset: uint64, eocdOffset: nat, isZip64: bool)

  datatype Directory = Directory(cdir: Cdir, comment: Stored, entries: seq<Dirent>)

  // Either there is no central directory here and the search goes on, or it ends with an error or a result.
  datatype Status<T> = NotHere | Unusable | Found(value: T)

  // --- writing (lib/zip_dirent.c:104-208) ---

  function Eocd64(count: uint64, size: uint64, offset: uint64): (b: seq<byte>)
    ensures |b| == EOCD64LEN
  {
    EOCD64_MAGIC + Put64(EOCD64LEN - 12) + Put16(45) + Put16(45) + Put32(0) + Put32(0) +
    Put64(count) + Put64(count) + Put64(size) + Put64(offset)
  }

  function Locator(at: uint64): (b: seq<byte>)
    ensures |b| == EOCD64LOCLEN
  {
    EOCD64LOC_MAGIC + Put32(0) + Put64(at) + Put32(1)
  }

  function Low16(v: uint64): uint16 {
    if v >= UINT16_MAX then UINT16_MAX else v
  }

  function Eocd(count: uint64, size: uint64, offset: uint64, commentLength: uint16): (b: seq<byte>)
    ensures |b| == EOCDLEN
  {
    EOCD_MAGIC + Put32(0) + Put16(Low16(count)) + Put16(Low16(count)) + Put32(Low32(size)) + Put32(Low32(offset)) +
    Put16(commentLength)
  }

  predicate TailNeedsZip64(count: uint64, size: uint64, offset: uint64) {
    count > UINT16_MAX || offset > UINT32_MAX || size > UINT32_MAX
  }

  // What follows the headers, without the comment.
  function EndRecords(count: uint64, size: uint64, offset: uint64, commentLength: uint16): seq<byte>
    requires offset + size <= UINT64_MAX
  {
    (if TailNeedsZip64(count, size, offset) then Eocd64(count, size, offset) + Locator(offset + size) else []) +
    Eocd(count, size, offset, commentLength)
  }

  // The headers of all entries, if all can be written.
  function WriteHeaders(entries: seq<Dirent>, crc32: Crc32): Option<seq<byte>>
    requires forall k :: 0 <= k < |entries| ==> Storable(entries[k])
  {
    if entries == [] then Some([])
    else
      var first, rest := WriteHeader(entries[0], false, false, crc32), WriteHeaders(entries[1..], crc32);
      if first.None? || rest.None? then None else Some(first.value + rest.value)
  }

  // --- reading (lib/zip_open.c:288-496, 777-963) ---

  predicate MagicAt(file: seq<byte>, at: nat, magic: seq<byte>) {
    at + |magic| <= |file| && file[at..at + |magic|] == magic
  }

  // (lines 777-804)
  function ReadEocd(file: seq<byte>, at: nat): Option<Cdir> {
    if at + EOCDLEN > |file| then None
    else
      Some(Cdir(U16(file, at + 4), U16(file, at + 6), U16(file, at + 8), U16(file, at + 10), U32(file, at + 12),
                U32(file, at + 16), at, false))
  }

  // A field of the record agrees with the one that replaces it if it is not marked as too large.
  predicate Replaceable(narrow: int, mark: int, wide: int) {
    narrow == mark || narrow == wide
  }

  // The Zip64 record that the locator before the end record leads to (lines 826-963).
  function ReadEocd64(cd: Cdir, file: seq<byte>, loc: nat, check: bool): Status<Cdir>
    requires loc + EOCD64LOCLEN <= |file|
  {
    var eocdDisk, at, disks := U32(file, loc + 4), U64(file, loc + 8), U32(file, loc + 16);
    if !MagicAt(file, at, EOCD64_MAGIC) then NotHere
    else if disks != 1 || at > INT64_MAX || at + EOCD64LEN > loc then Unusable
    else if check && U64(file, at + 4) + at + 12 != loc then Unusable
    else
      var thisDisk, diskEntries, count, size, offset :=
        U32(file, at + 16), U64(file, at + 24), U64(file, at + 32), U64(file, at + 40), U64(file, at + 48);
      if U32(file, at + 20) != eocdDisk || count != diskEntries || offset > INT64_MAX || offset + size > UINT64_MAX
        || count > size / CDENTRYSIZE then Unusable
      else if !(Replaceable(cd.size, UINT32_MAX, size) && Replaceable(cd.offset, UINT32_MAX, offset) &&
                Replaceable(cd.numEntries, UINT16_MAX, count) && Replaceable(cd.diskEntries, UINT16_MAX, count) &&
                Replaceable(cd.thisDisk, UINT16_MAX, thisDisk) && Replaceable(cd.eocdDisk, UINT16_MAX, eocdDisk)) then
        Unusable
      else Found(Cdir(thisDisk, eocdDisk, count, count, size, offset, at, true))
  }

  // Without a Zip64 record the directory has to start where it is said to, unless the archive is empty or spans
  // disks (lines 319-341).
  predicate Plausible(cd: Cdir, file: seq<byte>) {
    && (cd.eocdDisk != cd.thisDisk ==> cd.thisDisk >= cd.eocdDisk && cd.size > cd.eocdOffset)
    && ((cd.thisDisk == 0 && cd.eocdDisk == 0 && cd.eocdOffset == 0 && cd.offset == 0 && cd.numEntries == 0)
        || MagicAt(file, cd.offset, CENTRAL_MAGIC))
  }

  // (lines 806-823)
  predicate EocdOk(cd: Cdir, check: bool) {
    && cd.diskEntries == cd.numEntries && cd.thisDisk == 0 && cd.eocdDisk == 0 && cd.offset + cd.size <= UINT64_MAX
    && (check ==> cd.offset + cd.size == cd.eocdOffset)
  }

  // The numbers of the directory whose end record is at position at, in a buffer that starts at bufOffset
  // (lines 298-358).
  function LocateCdir(file: seq<byte>, at: nat, bufOffset: nat, check: bool): Status<Cdir> {
    var eocd := ReadEocd(file, at);
    if eocd.None? then NotHere
    else
      var located :=
        if at >= bufOffset + EOCD64LOCLEN && MagicAt(file, at - EOCD64LOCLEN, EOCD64LOC_MAGIC) then
          ReadEocd64(eocd.value, file, at - EOCD64LOCLEN, check)
        else if Plausible(eocd.value, file) then Found(eocd.value)
        else NotHere;
      if !located.Found? then located
      else if !EocdOk(located.value, check) || located.value.offset + located.value.size > at then Unusable
      else located
  }

  // The archive comment; a length that disagrees with the rest of the file is an error only when checking
  // (lines 360-383).
  function ReadComment(file: seq<byte>, at: nat, check: bool): Option<Stored>
    requires at + EOCDLEN <= |file|
  {
    var length, tail := U16(file, at + 20), file[at + EOCDLEN..];
    if check && |tail| != length then None
    else
      var n := Min(length, |tail|);
      if n == 0 then Some(None) else Some(Some(ZipString(tail[..n], StringEncoding.Unknown)))
  }

  // The headers, until as many bytes are read as the directory is large. Where the number of entries is known only
  // modulo 0x10000, more are read as long as bytes are left (lines 423-466).
  function ReadEntries(b: seq<byte>, left: uint64, i: nat, count: nat, isZip64: bool, check: bool,
      crc32: Crc32): Option<seq<Dirent>> {
    if left == 0 then if i == count then Some([]) else None
    else if i == count && (isZip64 || left < CDENTRYSIZE) then None
    else
      var grown := if i == count then count + 0x1_0000 else count;
      var header := ReadHeader(b, false, isZip64, 0, check, crc32);
      if header.None? then None
      else
        var (d, n) := header.value;
        var rest := ReadEntries(b[n..], (left - n) % TWO_64, i + 1, grown, isZip64, check, crc32);
        if rest.None? then None else Some([d] + rest.value)
  }

  // A directory in the buffer ends with its size, one that is read from the file does not (lines 385-416).
  function DirectoryBytes(file: seq<byte>, cd: Cdir, bufOffset: nat): seq<byte>
    requires cd.offset + cd.size <= |file|
  {
    if cd.offset >= bufOffset then file[cd.offset..cd.offset + cd.size] else file[cd.offset..]
  }

  // (lines 288-496)
  function ReadCdir(file: seq<byte>, at: nat, bufOffset: nat, check: bool, crc32: Crc32): Status<Directory> {
    var located := LocateCdir(file, at, bufOffset, check);
    if located.NotHere? then NotHere
    else if located.Unusable? then Unusable
    else
      var cd, comment := located.value, ReadComment(file, at, check);
      var entries :=
        ReadEntries(DirectoryBytes(file, cd, bufOffset), cd.size, 0, cd.numEntries, cd.isZip64, check, crc32);
      if comment.None? || entries.None? then Unusable else Found(Directory(cd, comment.value, entries.value))
  }

  // Try all end records from the last one on backward (lines 685-774).
  function Search(file: seq<byte>, p: nat, bufOffset: nat, check: bool, crc32: Crc32): Status<Directory>
    decreases p
  {
    var here := if MagicAt(file, p, EOCD_MAGIC) then ReadCdir(file, p, bufOffset, check, crc32) else NotHere;
    if !here.NotHere? then here
    else if p <= bufOffset then Unusable
    else Search(file, p - 1, bufOffset, check, crc32)
  }

  function BufferOffset(file: seq<byte>): nat {
    if |file| < CDBUFSIZE then 0 else |file| - CDBUFSIZE
  }

  function FindCentralDir(file: seq<byte>, check: bool, crc32: Crc32): Status<Directory> {
    if |file| < EOCDLEN then Unusable else Search(file, |file| - 4, BufferOffset(file), check, crc32)
  }
}
