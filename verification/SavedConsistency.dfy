// Whether a saved archive passes the check for consistency when it is opened again.
module SavedConsistency {
  import opened Bytes
  import opened LittleEndian
  import opened DirentFormat
  import opened DirentHeader
  import opened CentralDirectory
  import opened CdirRoundTrip
  import opened AddData
  import opened ClosePlan
  import opened SaveRoundTrip
  import opened Consistency
  import D = DirentRoundTrip

  // --- where an entry is in the saved file ---

  lemma WrittenStart(file: seq<byte>, item: Item, crc32: Crc32)
    requires Valid(item) && Written(file, item, crc32).Some?
    ensures Written(file, item, crc32).value != [] && Written(file, item, crc32).value[0] == 0x50
  {
    hide Valid, Written, HeaderDirent, D.Trailer, WriteHeader;
    WrittenParts(file, item, crc32);
    HeaderLength(HeaderDirent(item), Forced(item), crc32);
  }

  lemma HeaderLength(d: Dirent, force: bool, crc32: Crc32)
    requires Storable(d) && WriteHeader(d, true, force, crc32).Some?
    ensures var h := WriteHeader(d, true, force, crc32).value; |h| >= 30 + |Raw(d.filename)| && h[0] == 0x50
  {
    hide OwnFields, FixedOf, Middle;
  }

  // What was written for an entry stays at its offset, and a header or nothing follows.
  lemma {:induction false} PartAt(file: seq<byte>, survivors: seq<Item>, kept: nat, crc32: Crc32, k: nat)
    requires kept <= |file| && AllValid(survivors) && WriteAll(file, survivors, kept, crc32).Some?
    requires k < |survivors| && !Kept(survivors[k], kept)
    ensures var (out, offsets) := WriteAll(file, survivors, kept, crc32).value;
            && k < |offsets| && Written(file, survivors[k], crc32).Some?
            && var part := Written(file, survivors[k], crc32).value;
               && Holds(out.bytes, offsets[k], part)
               && (offsets[k] + |part| < |out.bytes| ==> out.bytes[offsets[k] + |part|] == 0x50)
  {
    hide Written, WriteAll, Valid, Kept;
    var front, last := survivors[..|survivors| - 1], survivors[|survivors| - 1];
    WriteLast(file, survivors, kept, crc32);
    if k < |front| {
      PartAt(file, front, kept, crc32, k);
      if !Kept(last, kept) {
        assert Valid(last);
        WrittenStart(file, last, crc32);
        StaysInFront(WriteAll(file, front, kept, crc32).value.0.bytes, Written(file, last, crc32).value,
                     WriteAll(file, front, kept, crc32).value.1[k], Written(file, survivors[k], crc32).value);
      }
    }
  }

  lemma StaysInFront(before: seq<byte>, more: seq<byte>, at: nat, part: seq<byte>)
    requires Holds(before, at, part) && more != [] && more[0] == 0x50
    requires at + |part| < |before| ==> before[at + |part|] == 0x50
    ensures Holds(before + more, at, part) && (before + more)[at + |part|] == 0x50
  {
    assert (before + more)[at..at + |part|] == before[at..at + |part|];
  }

  // --- the comparison ---

  // When the headers of an entry agree in an archive with or without Zip64 end records.
  predicate AgreesWhenSaved(item: Item, isZip64: bool) {
    && HeadersAgree(HeaderDirent(item), FinalDirent(item), Forced(item), isZip64)
    && SizesPlausible(D.Recovered(FinalDirent(item), false))
  }

  lemma HeaderIsFor(item: Item)
    requires Valid(item)
    ensures WrittenFor(HeaderDirent(item), FinalDirent(item))
  {
    hide Rewritten;
    if item.newData.Some? {
      LastIsLike(item.newData.value.first, item.current);
    }
  }

  // An entry that was written at its offset, with something behind it that does not begin with a zero.
  lemma EntryCompared(saved: seq<byte>, offset: uint64, rest: seq<byte>, file: seq<byte>, item: Item, directory: nat,
      isZip64: bool, crc32: Crc32)
    requires Valid(item) && D.Valid(FinalDirent(item)) && 0 !in Raw(item.current.filename)
    requires Written(file, item, crc32).Some? && offset <= |saved| && |rest| >= 8 && rest[0] != 0
    requires saved[offset..] == Written(file, item, crc32).value + rest
    requires offset + |Written(file, item, crc32).value| <= directory
    ensures EntryConsistent(saved, directory, isZip64, D.Recovered(FinalDirent(item).(offset := offset), false), crc32)
            <==> AgreesWhenSaved(item, isZip64)
  {
    FinalIsLike(item, offset);
    hide Valid, D.Valid, Written, HeaderDirent, FinalDirent, Forced, HeadersAgree, Comparable, WriteHeader, ReadHeader,
         SizesPlausible, D.Recovered, WrittenFor, D.Behind;
    var header, d, force := HeaderDirent(item), FinalDirent(item), Forced(item);
    WrittenParts(file, item, crc32);
    HeaderIsFor(item);
    HeaderLength(header, force, crc32);
    var data := DataAfter(file, item).value;
    PartsOf(header, force, data, rest, crc32);
    HeadersCompared(header, d, offset, force, data, rest, isZip64, crc32);
  }

  lemma FinalIsLike(item: Item, offset: uint64)
    requires Valid(item)
    ensures var d := FinalDirent(item);
            && Raw(d.filename) == Raw(item.current.filename) == Raw(HeaderDirent(item).filename)
            && var r := D.Recovered(d.(offset := offset), false);
               && r.offset == offset && r.compSize == d.compSize && Raw(r.filename) == Raw(d.filename)
               && (SizesPlausible(r) <==> SizesPlausible(D.Recovered(d, false)))
  {
    hide Known, FlagsOf, IsUtf8, UseUtf8Flag, Rewritten;
  }

  lemma PartsOf(header: Dirent, force: bool, data: seq<byte>, rest: seq<byte>, crc32: Crc32)
    requires Storable(header) && WriteHeader(header, true, force, crc32).Some?
    ensures Complete(header, force, data, crc32) + rest ==
            WriteHeader(header, true, force, crc32).value + (data + D.Behind(header, true, force, rest))
  {
    hide WriteHeader, D.Trailer;
  }

  lemma ValidAnywhere(d: Dirent, offset: uint64)
    ensures D.Valid(d.(offset := offset)) <==> D.Valid(d)
  {
    hide D.ValidString, D.NoInternal, Bit;
  }

  // What is known of a readable entry that was written.
  lemma ReadableEntry(entries: seq<Dirent>, item: Item, k: nat, offset: uint64)
    requires AllReadable(entries, true) && k < |entries| && entries[k] == FinalDirent(item).(offset := offset)
    ensures D.Valid(FinalDirent(item)) && 0 !in Raw(item.current.filename)
  {
    hide D.Valid, D.SizesReadable;
    assert D.Valid(entries[k]) && D.Readable(entries[k], false, false, true);
    ValidAnywhere(FinalDirent(item), offset);
  }

  // Behind a part of the data comes another header of an entry, or the first of the directory.
  lemma WhatFollows(out: seq<byte>, headers: seq<byte>, more: seq<byte>, at: nat, part: seq<byte>)
    requires Holds(out, at, part) && |headers| >= CDENTRYSIZE && Holds(headers, 0, CENTRAL_MAGIC)
    requires at + |part| < |out| ==> out[at + |part|] == 0x50
    ensures var saved, end := out + headers + more, at + |part|;
            end <= |out| && saved[at..] == part + saved[end..] && |saved[end..]| >= 8 && saved[end] == 0x50
  {
    var saved, end := out + headers + more, at + |part|;
    assert headers[0] == headers[0..4][0];
    assert saved[at..end] == out[at..end] == part;
    assert saved[at..] == saved[at..end] + saved[end..];
  }

  // An entry that was written.
  lemma EntryWhenSaved(file: seq<byte>, items: seq<Item>, cloning: bool, comment: seq<byte>, isZip64: bool,
      crc32: Crc32,
      k: nat)
    requires AllValid(items) && Close(file, items, cloning, crc32).Some? && |comment| <= UINT16_MAX
    requires k < |Survivors(items)| && Reopens(file, items, cloning, comment, true, crc32)
    requires !Kept(Survivors(items)[k], UnchangedOffset(file, items, cloning).value)
    ensures var c := Close(file, items, cloning, crc32).value;
            EntryConsistent(SavedFile(c, comment), |c.out|, isZip64, D.Recovered(c.entries[k], false), crc32) <==>
            AgreesWhenSaved(Survivors(items)[k], isZip64)
  {
    hide WriteAll, UnchangedOffset, EndRecords, NoLaterEocd, NoFalseLocator, AllReadable, WriteHeaders, TailNeedsZip64,
         EocdPosition, Valid, Written, FinalDirent, Close, FindCentralDir, Contents, EntryConsistent, AgreesWhenSaved,
           D.Recovered, D.Valid, Holds,
         RecoveredAll, ReadEntries;
    var survivors, kept := Survivors(items), UnchangedOffset(file, items, cloning).value;
    var c, item := Close(file, items, cloning, crc32).value, survivors[k];
    ClosingParts(file, items, cloning, crc32);
    Reopened(file, items, cloning, comment, true, crc32);
    assert Valid(item);
    PartAt(file, survivors, kept, crc32, k);
    EntriesBack(c.entries, c.headers, [], 0, false, true, crc32);
    ReadableEntry(c.entries, item, k, c.offsets[k]);
    var records := EndRecords(|c.entries|, |c.headers|, |c.out|, |comment|);
    var saved, part := SavedFile(c, comment), Written(file, item, crc32).value;
    assert saved == c.out + c.headers + (records + comment);
    WhatFollows(c.out, c.headers, records + comment, c.offsets[k], part);
    EntryCompared(saved, c.offsets[k], saved[c.offsets[k] + |part|..], file, item, |c.out|, isZip64, crc32);
  }

  // A saved archive passes the check if and only if the headers of all its entries agree: those of the entries that
  // were written by a condition on their dirents, those that were kept by the file.
  lemma SavedIsConsistent(file: seq<byte>, items: seq<Item>, cloning: bool, comment: seq<byte>, crc32: Crc32)
    requires AllValid(items) && Close(file, items, cloning, crc32).Some?
    requires |comment| <= UINT16_MAX && Survivors(items) != [] && Reopens(file, items, cloning, comment, true, crc32)
    ensures var c := Close(file, items, cloning, crc32).value;
            var isZip64 := TailNeedsZip64(|c.entries|, |c.headers|, |c.out|);
            OpenChecked(SavedFile(c, comment), true, crc32).Found? <==>
            forall k :: 0 <= k < |Survivors(items)| ==>
              if Kept(Survivors(items)[k], UnchangedOffset(file, items, cloning).value) then
                EntryConsistent(SavedFile(c, comment), |c.out|, isZip64, D.Recovered(c.entries[k], false), crc32)
              else AgreesWhenSaved(Survivors(items)[k], isZip64)
  {
    hide WriteAll, UnchangedOffset, EndRecords, Reopens, FindCentralDir, WriteHeaders, TailNeedsZip64, EntryConsistent,
         AgreesWhenSaved, D.Recovered, RecoveredAll, Valid, Close, Kept, EocdPosition;
    var c := Close(file, items, cloning, crc32).value;
    var isZip64 := TailNeedsZip64(|c.entries|, |c.headers|, |c.out|);
    Reopened(file, items, cloning, comment, true, crc32);
    forall k | 0 <= k < |Survivors(items)|
      ensures |RecoveredAll(c.entries)| == |c.entries| && RecoveredAll(c.entries)[k] == D.Recovered(c.entries[k], false)
      ensures !Kept(Survivors(items)[k], UnchangedOffset(file, items, cloning).value) ==>
                (EntryConsistent(SavedFile(c, comment), |c.out|, isZip64, D.Recovered(c.entries[k], false), crc32) <==>
                 AgreesWhenSaved(Survivors(items)[k], isZip64))
    {
      RecoveredAt(c.entries, k);
      if !Kept(Survivors(items)[k], UnchangedOffset(file, items, cloning).value) {
        EntryWhenSaved(file, items, cloning, comment, isZip64, crc32, k);
      }
    }
    RecoveredAt(c.entries, 0);
  }

  // If nothing was kept, what was written decides.
  lemma RewrittenIsConsistent(file: seq<byte>, items: seq<Item>, comment: seq<byte>, crc32: Crc32)
    requires AllValid(items) && Close(file, items, false, crc32).Some?
    requires |comment| <= UINT16_MAX && Survivors(items) != [] && Reopens(file, items, false, comment, true, crc32)
    ensures var c := Close(file, items, false, crc32).value;
            OpenChecked(SavedFile(c, comment), true, crc32).Found? <==>
            forall k :: 0 <= k < |Survivors(items)| ==>
              AgreesWhenSaved(Survivors(items)[k], TailNeedsZip64(|c.entries|, |c.headers|, |c.out|))
  {
    hide Close, Reopens, OpenChecked, AgreesWhenSaved, EntryConsistent, Valid, Survivors;
    SavedIsConsistent(file, items, false, comment, crc32);
  }

  // An entry that is copied, and is not encrypted the PKWARE way, agrees in any archive if its sizes can be read.
  lemma CopiedAgrees(item: Item, isZip64: bool)
    requires item.newData.None? && item.current.encryption != EM_TRAD_PKWARE
    ensures HeadersAgree(HeaderDirent(item), FinalDirent(item), Forced(item), isZip64) <==>
            D.SizesReadable(item.current, true, false)
  {
    CopiedFlags(item);
    hide Bit;
  }
}
