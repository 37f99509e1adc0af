// Saving an archive and opening it again.
module SaveRoundTrip {
  import opened Bytes
  import opened DirentFormat
  import opened DirentHeader
  import opened CentralDirectory
  import opened CdirRoundTrip
  import opened ClosePlan
  import DirentRoundTrip
  import CdirIO

  // The directory entries of the survivors at their new offsets (lib/zip_close.c:124-131, 229).
  function Listed(survivors: seq<Item>, offsets: seq<nat>, kept: nat): (entries: seq<Dirent>)
    requires |offsets| == |survivors| && forall k :: 0 <= k < |offsets| ==> offsets[k] <= UINT64_MAX
    ensures |entries| == |survivors|
  {
    seq(|survivors|, k requires 0 <= k < |survivors| =>
      (if Kept(survivors[k], kept) then survivors[k].current else FinalDirent(survivors[k])).(offset := offsets[k]))
  }

  lemma ListedAreStorable(survivors: seq<Item>, offsets: seq<nat>, kept: nat)
    requires |offsets| == |survivors| && (forall k :: 0 <= k < |offsets| ==> offsets[k] <= UINT64_MAX)
    requires forall k :: 0 <= k < |survivors| ==> Storable(survivors[k].current)
    ensures forall k :: 0 <= k < |survivors| ==> Storable(Listed(survivors, offsets, kept)[k])
  {
    hide WithBit;
  }

  lemma {:induction false} OffsetsBounded(file: seq<byte>, survivors: seq<Item>, kept: nat, crc32: Crc32)
    requires kept <= |file| && AllValid(survivors) && WriteAll(file, survivors, kept, crc32).Some?
    ensures var (out, offsets) := WriteAll(file, survivors, kept, crc32).value;
            |offsets| == |survivors| && forall k :: 0 <= k < |offsets| ==> offsets[k] <= |out.bytes|
  {
    hide Written, WriteAll, Valid;
    WriteAllGrows(file, survivors, kept, crc32);
    if survivors != [] {
      WriteLast(file, survivors, kept, crc32);
      WriteAllGrows(file, survivors[..|survivors| - 1], kept, crc32);
      OffsetsBounded(file, survivors[..|survivors| - 1], kept, crc32);
    }
  }

  lemma {:induction false} HeadersAreLong(entries: seq<Dirent>, crc32: Crc32)
    requires forall k :: 0 <= k < |entries| ==> Storable(entries[k])
    requires WriteHeaders(entries, crc32).Some?
    ensures |entries| * CDENTRYSIZE <= |WriteHeaders(entries, crc32).value|
  {
    hide WriteHeader;
    if entries != [] {
      HeaderStart(entries[0], [], crc32);
      HeadersAreLong(entries[1..], crc32);
    }
  }

  // The file with the data of all entries, where each entry is, and the central directory for them.
  datatype Closing = Closing(out: seq<byte>, offsets: seq<nat>, entries: seq<Dirent>, headers: seq<byte>)

  // The last part of closing: the directory. No place behind 2^63 - 1 can be told (lib/zip_close.c:290-292, 722-736).
  ghost function WithDirectory(out: seq<byte>, offsets: seq<nat>, entries: seq<Dirent>,
      crc32: Crc32): (r: Option<Closing>)
    requires forall k :: 0 <= k < |entries| ==> Storable(entries[k])
    ensures r.Some? ==>
              && WriteHeaders(entries, crc32) == Some(r.value.headers)
              && r.value == Closing(out, offsets, entries, r.value.headers)
              && |out| + |r.value.headers| <= INT64_MAX && |entries| * CDENTRYSIZE <= |r.value.headers|
  {
    var headers := WriteHeaders(entries, crc32);
    if headers.None? || |out| + |headers.value| > INT64_MAX then None
    else
      HeadersAreLong(entries, crc32);
      Some(Closing(out, offsets, entries, headers.value))
  }

  lemma SurvivorsAreValid(items: seq<Item>)
    requires AllValid(items)
    ensures AllValid(Survivors(items))
  {
    hide Valid;
  }

  // What is written on closing; None if that fails (lib/zip_close.c:102-292).
  ghost function Close(file: seq<byte>, items: seq<Item>, cloning: bool, crc32: Crc32): (r: Option<Closing>)
    requires AllValid(items)
    ensures r.Some? ==>
              && UnchangedOffset(file, items, cloning).Some?
              && |r.value.offsets| == |r.value.entries| == |Survivors(items)|
              && |r.value.out| + |r.value.headers| <= INT64_MAX && |r.value.entries| * CDENTRYSIZE <= |r.value.headers|
  {
    var survivors, kept := Survivors(items), UnchangedOffset(file, items, cloning);
    SurvivorsAreValid(items);
    if kept.None? || WriteAll(file, survivors, kept.value, crc32).None? then None
    else
      var (out, offsets) := WriteAll(file, survivors, kept.value, crc32).value;
      OffsetsBounded(file, survivors, kept.value, crc32);
      if |out.bytes| > INT64_MAX then None
      else
        ListedAreStorable(survivors, offsets, kept.value);
        WithDirectory(out.bytes, offsets, Listed(survivors, offsets, kept.value), crc32)
  }

  // The whole file after closing (lib/zip_close.c:178-292).
  function SavedFile(c: Closing, comment: seq<byte>): seq<byte>
    requires |c.out| + |c.headers| <= UINT64_MAX && |c.entries| <= UINT64_MAX && |comment| <= UINT16_MAX
  {
    c.out + c.headers + EndRecords(|c.entries|, |c.headers|, |c.out|, |comment|) + comment
  }

  lemma {:induction false} RecoveredAt(entries: seq<Dirent>, k: nat)
    requires k < |entries|
    ensures |RecoveredAll(entries)| == |entries|
    ensures RecoveredAll(entries)[k] == DirentRoundTrip.Recovered(entries[k], false)
  {
    hide DirentRoundTrip.Recovered;
    if |entries| > 1 {
      RecoveredAt(entries[1..], if k > 0 then k - 1 else 0);
    }
  }

  lemma RecoveredPlace(d: Dirent)
    ensures var r := DirentRoundTrip.Recovered(d, false);
            r.offset == d.offset && r.compSize == d.compSize && r.uncompSize == d.uncompSize
              && Raw(r.filename) == Raw(d.filename)
  {
    hide Known, FlagsOf;
  }

  lemma ClosingParts(file: seq<byte>, items: seq<Item>, cloning: bool, crc32: Crc32)
    requires AllValid(items) && Close(file, items, cloning, crc32).Some?
    ensures AllValid(Survivors(items))
    ensures var c := Close(file, items, cloning, crc32).value;
            forall k :: 0 <= k < |c.offsets| ==> c.offsets[k] <= |c.out|
    ensures var c := Close(file, items, cloning, crc32).value;
            var r := WriteAll(file, Survivors(items), UnchangedOffset(file, items, cloning).value, crc32);
            r.Some? && r.value.0.bytes == c.out && r.value.1 == c.offsets
    ensures var c := Close(file, items, cloning, crc32).value;
            c.entries == Listed(Survivors(items), c.offsets, UnchangedOffset(file, items, cloning).value)
  {
    hide WriteAll, UnchangedOffset, WriteHeaders, Valid, FinalDirent, Listed;
    SurvivorsAreValid(items);
    OffsetsBounded(file, Survivors(items), UnchangedOffset(file, items, cloning).value, crc32);
  }

  // The entries can be read back, and nothing looks like an end record or a locator but what was written as one.
  ghost predicate Reopens(file: seq<byte>, items: seq<Item>, cloning: bool, comment: seq<byte>, check: bool,
      crc32: Crc32)
    requires AllValid(items) && Close(file, items, cloning, crc32).Some? && |comment| <= UINT16_MAX
  {
    var c := Close(file, items, cloning, crc32).value;
    var saved, end := SavedFile(c, comment), EocdPosition(|c.out|, |c.headers|, |c.entries|);
    && AllReadable(c.entries, check) && NoLaterEocd(saved, end)
    && (!TailNeedsZip64(|c.entries|, |c.headers|, |c.out|) ==> NoFalseLocator(saved, end))
  }

  // The directory of a saved archive is that of its survivors.
  lemma Reopened(file: seq<byte>, items: seq<Item>, cloning: bool, comment: seq<byte>, check: bool, crc32: Crc32)
    requires AllValid(items) && Close(file, items, cloning, crc32).Some?
    requires |comment| <= UINT16_MAX && Survivors(items) != [] && Reopens(file, items, cloning, comment, check, crc32)
    ensures var c := Close(file, items, cloning, crc32).value;
            && WriteHeaders(c.entries, crc32) == Some(c.headers)
            && FindCentralDir(SavedFile(c, comment), check, crc32) ==
              Found(Contents(c.entries, |c.headers|, |c.out|, comment))
  {
    hide WriteAll, UnchangedOffset, EndRecords, NoLaterEocd, NoFalseLocator, FindCentralDir, AllReadable, WriteHeaders,
         TailNeedsZip64, EocdPosition, Contents, Valid;
    var c := Close(file, items, cloning, crc32).value;
    var saved, records := SavedFile(c, comment), EndRecords(|c.entries|, |c.headers|, |c.out|, |comment|);
    CdirIO.AfterFirst(c.out, c.headers, records, comment);
    ArchiveRoundTrip(saved, |c.out|, c.entries, c.headers, comment, check, crc32);
  }

  // The survivors are in the saved archive under their names and at their new offsets, and each one finds there its
  // data: what was added or put in place of the old, or what it had before.
  lemma SurvivorReopens(file: seq<byte>, items: seq<Item>, cloning: bool, comment: seq<byte>, check: bool,
      crc32: Crc32, k: nat)
    requires Disjoint(file, items) && AllValid(items) && Close(file, items, cloning, crc32).Some?
    requires |comment| <= UINT16_MAX && k < |Survivors(items)| && Reopens(file, items, cloning, comment, check, crc32)
    ensures var c, item := Close(file, items, cloning, crc32).value, Survivors(items)[k];
            var saved := SavedFile(c, comment);
            var reopened := FindCentralDir(saved, check, crc32);
            && reopened.Found? && |reopened.value.entries| == |Survivors(items)|
            && var entry := reopened.value.entries[k];
               && entry == DirentRoundTrip.Recovered(c.entries[k], false)
               && entry.offset == c.offsets[k] && Raw(entry.filename) == Raw(item.current.filename)
               && DataAfter(file, item).Some? && DataOf(saved, entry.offset, entry.compSize) == DataAfter(file, item)
  {
    hide DirentRoundTrip.Recovered, WriteAll, Disjoint, UnchangedOffset, EndRecords, Reopens, FindCentralDir, DataOf,
         DataAfter, RecoveredAll, Valid, Close, EocdPosition, TailNeedsZip64, WriteHeaders;
    var c, survivors := Close(file, items, cloning, crc32).value, Survivors(items);
    var saved, records := SavedFile(c, comment), EndRecords(|c.entries|, |c.headers|, |c.out|, |comment|);
    ClosingParts(file, items, cloning, crc32);
    Reopened(file, items, cloning, comment, check, crc32);
    RecoveredAt(c.entries, k);
    RecoveredPlace(c.entries[k]);
    FinalPlace(survivors[k]);
    DataSurvives(file, items, cloning, crc32, k);
    assert saved == c.out + (c.headers + records + comment);
    DataStaysInFront(c.out, c.headers + records + comment, c.offsets[k], survivors[k].current.compSize);
  }

  lemma FinalPlace(item: Item)
    ensures FinalDirent(item).compSize == item.current.compSize && FinalDirent(item).filename == item.current.filename
  {
  }

  // A saved archive opens with the entries that were not deleted, in their order, under their names and with their
  // data.
  lemma SaveAndReopen(file: seq<byte>, items: seq<Item>, cloning: bool, comment: seq<byte>, check: bool,
      crc32: Crc32, i: nat)
    requires Disjoint(file, items) && AllValid(items) && Close(file, items, cloning, crc32).Some?
    requires |comment| <= UINT16_MAX && i < |items| && !items[i].deleted
    requires Reopens(file, items, cloning, comment, check, crc32)
    ensures var saved := SavedFile(Close(file, items, cloning, crc32).value, comment);
            var reopened, k := FindCentralDir(saved, check, crc32), Rank(items, i);
            && reopened.Found? && |reopened.value.entries| == Rank(items, |items|) && k < |reopened.value.entries|
            && var entry := reopened.value.entries[k];
               && Raw(entry.filename) == Raw(items[i].current.filename)
               && DataAfter(file, items[i]).Some?
                 && DataOf(saved, entry.offset, entry.compSize) == DataAfter(file, items[i])
  {
    hide Close, Disjoint, Reopens, Rank, Survivors, FindCentralDir, DataOf, DataAfter, Valid, SavedFile,
         DirentRoundTrip.Recovered;
    SurvivorsInOrder(items, i);
    SurvivorReopens(file, items, cloning, comment, check, crc32, Rank(items, i));
  }
}
