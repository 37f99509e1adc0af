// Writing an archive back: the part of the file before the first change is kept, the rest is written anew
// (lib/zip_close.c:102-287; lib/zip_file_get_offset.c).
module ClosePlan {
  import opened Bytes
  import opened LittleEndian
  import opened ExtraField
  import opened FlatFile
  import opened DirentFormat
  import opened DirentHeader
  import opened DirentRoundTrip
  import opened AddData

  // New data: the dirent of its first header, whether that has a Zip64 field in any case, and the data as it is stored.
  datatype NewData = NewData(first: Dirent, force: bool, bytes: seq<byte>)

  // An entry at the time of closing: what the file has of it, the dirent it is to get, its data if it is new, and
  // whether anything about it changed.
  datatype Item = Item(orig: Option<Dirent>, current: Dirent, newData: Option<NewData>, changed: bool, deleted: bool)

  // --- where the data of an entry is ---

  // (lib/zip_file_get_offset.c:47-74)
  function DataStart(file: seq<byte>, offset: nat): Option<nat> {
    if offset > |file| then None
    else
      var size := HeaderSize(file[offset..], true);
      if size.None? || offset + size.value > INT64_MAX then None else Some(offset + size.value)
  }

  // The end of an entry with its data descriptor (lib/zip_file_get_offset.c:76-116).
  function DataEnd(file: seq<byte>, d: Dirent): Option<nat> {
    var start := DataStart(file, d.offset);
    if start.None? || start.value + d.compSize > INT64_MAX then None
    else
      var end := start.value + d.compSize;
      if !Bit(d.bitFlags, DATA_DESCRIPTOR) then Some(end)
      else if end + 4 > |file| then None
      else
        var full := end + (if file[end..end + 4] == DATADES_MAGIC then 4 else 0) + 12 +
                    if NeedsZip64(d, true) then 8 else 0;
        if full > INT64_MAX then None else Some(full)
  }

  // The compressed data of an entry.
  function DataOf(file: seq<byte>, offset: nat, size: nat): Option<seq<byte>> {
    var start := DataStart(file, offset);
    if start.None? || start.value + size > |file| then None else Some(file[start.value..start.value + size])
  }

  // --- the plan ---

  function LeastChanged(items: seq<Item>): nat
  {
    if items == [] then UINT64_MAX
    else
      var rest, last := LeastChanged(items[..|items| - 1]), items[|items| - 1];
      if last.orig.Some? && last.changed then Min(rest, last.orig.value.offset) else rest
  }

  // The entry that starts last, if any.
  function LastStart(items: seq<Item>): Option<Dirent> {
    if items == [] then None
    else
      var rest, last := LastStart(items[..|items| - 1]), items[|items| - 1].orig;
      if last.Some? && (rest.None? || last.value.offset >= rest.value.offset) then last else rest
  }

  // How much of the file is kept; None if it cannot be determined. If the source cannot be cloned that far, nothing is
  // kept (lines 132-169).
  function UnchangedOffset(file: seq<byte>, items: seq<Item>, cloning: bool): (r: Option<nat>)
    ensures r.Some? ==> r.value <= |file|
  {
    if !cloning then Some(0)
    else
      var end := if LeastChanged(items) != UINT64_MAX then Some(LeastChanged(items))
                 else if LastStart(items).None? then Some(0)
                 else DataEnd(file, LastStart(items).value);
      if end.Some? && end.value > |file| then Some(0) else end
  }

  function Survivors(items: seq<Item>): (s: seq<Item>)
    ensures forall x :: x in s <==> x in items && !x.deleted
  {
    if items == [] then []
    else
      var rest, last := Survivors(items[..|items| - 1]), items[|items| - 1];
      if last.deleted then rest else rest + [last]
  }

  // A copied entry keeps its data descriptor only with PKWARE encryption, which needs it (lines 257-261).
  function CopiedDirent(item: Item): Dirent {
    if item.current.encryption != EM_TRAD_PKWARE then
      item.current.(bitFlags := WithBit(item.current.bitFlags, DATA_DESCRIPTOR, false))
    else item.current
  }

  // The dirent an entry that is written gets in the directory.
  function FinalDirent(item: Item): Dirent {
    if item.newData.Some? then item.current else CopiedDirent(item)
  }

  // The dirent in its local header.
  function HeaderDirent(item: Item): Dirent {
    if item.newData.Some? then LastWritten(item.newData.value.first, item.current) else CopiedDirent(item)
  }

  // Whether its local header has a Zip64 field in any case.
  predicate Forced(item: Item) {
    item.newData.Some? && item.newData.value.force
  }

  predicate Writable(item: Item) {
    Storable(item.current) && (item.newData.Some? ==> Storable(item.newData.value.first))
  }

  // What is written for an entry whose data is copied; None if that fails (lines 254-286).
  function Copied(file: seq<byte>, item: Item, crc32: Crc32): Option<seq<byte>>
    requires Storable(item.current)
  {
    var d := CopiedDirent(item);
    var header := WriteHeader(d, true, false, crc32);
    if header.None? || item.orig.None? || DataOf(file, item.orig.value.offset, d.compSize).None? then None
    else
      Some(header.value + DataOf(file, item.orig.value.offset, d.compSize).value + Trailer(d, NeedsZip64(d, true)))
  }

  // The new file after one more entry is written at its cursor (lines 231-286).
  function WriteEntry(out: File, file: seq<byte>, item: Item, crc32: Crc32): (r: Option<File>)
    requires out.pos <= |out.bytes| && Writable(item)
    ensures r.Some? ==> r.value.pos <= |r.value.bytes|
  {
    if item.newData.Some? then
      var n := item.newData.value;
      AddEntry(out, n.first, item.current, n.force, n.bytes, crc32)
    else if Copied(file, item, crc32).None? then None
    else Some(out.Write(Copied(file, item, crc32).value))
  }

  predicate Kept(item: Item, kept: nat) {
    item.orig.Some? && item.orig.value.offset < kept
  }

  // The new file and the offset of each survivor after the first ones were written (lines 178-287).
  function WriteAll(file: seq<byte>, survivors: seq<Item>, kept: nat, crc32: Crc32): (r: Option<(File, seq<nat>)>)
    requires kept <= |file| && forall x :: x in survivors ==> Writable(x)
    ensures r.Some? ==> r.value.0.pos <= |r.value.0.bytes|
  {
    if survivors == [] then Some((File(file[..kept], kept), []))
    else
      var item, before := survivors[|survivors| - 1], WriteAll(file, survivors[..|survivors| - 1], kept, crc32);
      if before.None? then None
      else
        var (out, offsets) := before.value;
        if Kept(item, kept) then Some((out, offsets + [item.orig.value.offset]))
        else
          var next := WriteEntry(out, file, item, crc32);
          if next.None? then None else Some((next.value, offsets + [out.pos]))
  }

  // --- what the plan relies on ---

  function End(file: seq<byte>, d: Dirent): nat {
    if DataEnd(file, d).Some? then DataEnd(file, d).value else 0
  }

  // The entries of the file lie in it and do not overlap.
  ghost predicate Disjoint(file: seq<byte>, items: seq<Item>) {
    && (forall i :: 0 <= i < |items| && items[i].orig.Some? ==>
          DataEnd(file, items[i].orig.value).Some? && End(file, items[i].orig.value) <= |file|)
    && (forall i, j :: 0 <= i < |items| && 0 <= j < |items| && i != j && items[i].orig.Some? && items[j].orig.Some? ==>
          End(file, items[i].orig.value) <= items[j].orig.value.offset
            || End(file, items[j].orig.value) <= items[i].orig.value.offset)
  }

  // The dirent has the size of the new data, and not exactly one of its two headers has an empty Zip64 field.
  ghost predicate ValidData(d: Dirent, n: NewData) {
    && Storable(n.first) && SameNames(n.first, d) && d.compSize == |n.bytes|
    && (n.force || (OnTheEdge(n.first) <==> OnTheEdge(d)))
  }

  // New data and deletion are changes; otherwise the size of the data stays the same.
  ghost predicate Valid(item: Item) {
    && Storable(item.current) && (item.newData.Some? ==> ValidData(item.current, item.newData.value))
    && (item.orig.Some? && (item.deleted || item.newData.Some?) ==> item.changed)
    && (item.orig.Some? && item.newData.None? ==> item.current.compSize == item.orig.value.compSize)
    && (item.orig.Some? ==> item.orig.value.offset <= INT64_MAX)
  }

  ghost predicate AllValid(items: seq<Item>)
    ensures AllValid(items) ==> forall x :: x in items ==> Writable(x)
  {
    forall x :: x in items ==> Valid(x)
  }

  lemma DataIsInside(file: seq<byte>, d: Dirent)
    requires DataEnd(file, d).Some?
    ensures DataStart(file, d.offset).Some? && d.offset + 30 <= DataStart(file, d.offset).value
    ensures DataStart(file, d.offset).value + d.compSize <= End(file, d) && d.offset < End(file, d)
  {
    hide U16, Bit;
  }

  lemma {:induction false} LeastChangedBound(items: seq<Item>)
    ensures forall k :: 0 <= k < |items| && items[k].orig.Some? && items[k].changed ==>
              LeastChanged(items) <= items[k].orig.value.offset
    ensures LeastChanged(items) != UINT64_MAX ==>
              exists k :: 0 <= k < |items| && items[k].orig.Some? && items[k].changed
                && items[k].orig.value.offset == LeastChanged(items)
    ensures LeastChanged(items) <= UINT64_MAX
  {
    if items != [] {
      var front, last := items[..|items| - 1], items[|items| - 1];
      LeastChangedBound(front);
      assert forall k :: 0 <= k < |front| ==> items[k] == front[k];
      if last.orig.Some? && last.changed && last.orig.value.offset <= LeastChanged(front) {
        assert items[|items| - 1].orig.value.offset == LeastChanged(items);
      }
    }
  }

  lemma {:induction false} LastStartBound(items: seq<Item>)
    ensures forall k :: 0 <= k < |items| && items[k].orig.Some? ==>
              LastStart(items).Some? && items[k].orig.value.offset <= LastStart(items).value.offset
    ensures LastStart(items).Some? ==> exists k :: 0 <= k < |items| && items[k].orig == LastStart(items)
  {
    if items != [] {
      var front, last := items[..|items| - 1], items[|items| - 1];
      LastStartBound(front);
      assert forall k :: 0 <= k < |front| ==> items[k] == front[k];
      if LastStart(items) == last.orig {
        assert items[|items| - 1].orig == LastStart(items);
      }
    }
  }

  // An entry that starts in the part that is kept is unchanged and ends there.
  lemma KeptIsWhole(file: seq<byte>, items: seq<Item>, cloning: bool, i: nat)
    requires Disjoint(file, items) && AllValid(items) && i < |items|
    requires UnchangedOffset(file, items, cloning).Some? && Kept(items[i], UnchangedOffset(file, items, cloning).value)
    ensures !items[i].changed && End(file, items[i].orig.value) <= UnchangedOffset(file, items, cloning).value
  {
    hide DataEnd, HeaderSize;
    LeastChangedBound(items);
    LastStartBound(items);
    if LeastChanged(items) != UINT64_MAX {
      var j :| 0 <= j < |items| && items[j].orig.Some? && items[j].changed
          && items[j].orig.value.offset == LeastChanged(items);
      DataIsInside(file, items[j].orig.value);
    } else {
      var j :| 0 <= j < |items| && items[j].orig == LastStart(items);
      DataIsInside(file, items[j].orig.value);
    }
  }

  // --- what the plan achieves ---

  // Data that lies in a common part of two files is the same.
  lemma SameDataInPrefix(a: seq<byte>, b: seq<byte>, n: nat, offset: nat, size: nat)
    requires n <= |a| && n <= |b| && a[..n] == b[..n]
    requires DataStart(a, offset).Some? && DataStart(a, offset).value + size <= n && offset + 30 <= n
    ensures DataOf(a, offset, size) == DataOf(b, offset, size) && DataOf(a, offset, size).Some?
  {
    forall k | offset <= k < offset + 30
      ensures a[k] == b[k]
    {
      assert a[k] == a[..n][k];
    }
    assert a[offset..][..4] == b[offset..][..4];
    assert U16(a[offset..], 26) == U16(b[offset..], 26) && U16(a[offset..], 28) == U16(b[offset..], 28);
    var start := DataStart(a, offset).value;
    assert a[start..start + size] == a[..n][start..start + size];
    assert b[start..start + size] == b[..n][start..start + size];
  }

  // The data behind a header that was written.
  lemma DataBehindHeader(before: seq<byte>, d: Dirent, force: bool, data: seq<byte>, rest: seq<byte>, crc32: Crc32)
    requires Storable(d) && WriteHeader(d, true, force, crc32).Some?
    requires |before| + |WriteHeader(d, true, force, crc32).value| <= INT64_MAX
    ensures DataOf(before + (WriteHeader(d, true, force, crc32).value + data + rest), |before|, |data|) == Some(data)
  {
    hide WriteHeader, HeaderSize;
    var header := WriteHeader(d, true, force, crc32).value;
    var file := before + (header + data + rest);
    assert file[|before|..] == header + (data + rest);
    HeaderSizeBack(d, true, force, data + rest, crc32);
    assert file[|before| + |header|..|before| + |header| + |data|] == data;
  }

  // What is added for an entry: its header, data and descriptor. None if that fails.
  ghost function Written(file: seq<byte>, item: Item, crc32: Crc32): Option<seq<byte>>
    requires Writable(item)
  {
    if WriteEntry(File([], 0), file, item, crc32).None? then None
    else Some(WriteEntry(File([], 0), file, item, crc32).value.bytes)
  }

  // The data an entry is to have.
  function DataAfter(file: seq<byte>, item: Item): Option<seq<byte>> {
    if item.newData.Some? then Some(item.newData.value.bytes)
    else if item.orig.None? then None
    else DataOf(file, item.orig.value.offset, item.orig.value.compSize)
  }

  // Whether an entry can be written does not depend on the place, and it is written at the end of the file.
  lemma WrittenAtEnd(before: seq<byte>, file: seq<byte>, item: Item, crc32: Crc32)
    requires Valid(item)
    ensures var r, part := WriteEntry(File(before, |before|), file, item, crc32), Written(file, item, crc32);
            r == if part.None? then None else Some(File(before + part.value, |before| + |part.value|))
  {
    hide WriteHeader, OnTheEdge, Trailer, Overwrite, SameNames;
    var at := File(before, |before|);
    if item.newData.Some? {
      var n := item.newData.value;
      if AddEntry(at, n.first, item.current, n.force, n.bytes, crc32).Some? {
        HeaderKeepsOffData(at, n.first, item.current, n.force, n.bytes, crc32);
        HeaderKeepsOffData(File([], 0), n.first, item.current, n.force, n.bytes, crc32);
        WriteAtEnd(before, Complete(LastWritten(n.first, item.current), n.force, n.bytes, crc32));
      }
    } else if Copied(file, item, crc32).Some? {
      WriteAtEnd(before, Copied(file, item, crc32).value);
    }
  }

  lemma WriteAtEnd(before: seq<byte>, data: seq<byte>)
    ensures File(before, |before|).Write(data) == File(before + data, |before| + |data|)
    ensures File([], 0).Write(data).bytes == data
  {
  }

  // What is written for an entry is its header, its data and its descriptor.
  lemma WrittenParts(file: seq<byte>, item: Item, crc32: Crc32)
    requires Valid(item) && Written(file, item, crc32).Some?
    ensures Storable(HeaderDirent(item)) && WriteHeader(HeaderDirent(item), true, Forced(item), crc32).Some?
    ensures DataAfter(file, item).Some?
    ensures FinalDirent(item).compSize == item.current.compSize == |DataAfter(file, item).value|
    ensures Written(file, item, crc32).value ==
            Complete(HeaderDirent(item), Forced(item), DataAfter(file, item).value, crc32)
  {
    hide WriteHeader, OnTheEdge, DataStart, Trailer, Overwrite, SameNames, NeedsZip64, Rewritten;
    if item.newData.Some? {
      var n := item.newData.value;
      HeaderKeepsOffData(File([], 0), n.first, item.current, n.force, n.bytes, crc32);
      WriteAtEnd([], Complete(HeaderDirent(item), n.force, n.bytes, crc32));
    } else {
      WriteAtEnd([], Copied(file, item, crc32).value);
    }
  }

  // The data is behind the header.
  lemma DataWritten(before: seq<byte>, file: seq<byte>, item: Item, crc32: Crc32)
    requires Valid(item) && Written(file, item, crc32).Some?
    requires |before| + |Written(file, item, crc32).value| <= INT64_MAX
    ensures DataAfter(file, item).Some? && item.current.compSize == |DataAfter(file, item).value|
    ensures DataOf(before + Written(file, item, crc32).value, |before|, item.current.compSize) == DataAfter(file, item)
  {
    hide WriteHeader, DataStart, Trailer, Valid, Written, HeaderDirent, NeedsZip64;
    WrittenParts(file, item, crc32);
    var d, force := HeaderDirent(item), Forced(item);
    DataBehindHeader(before, d, force, DataAfter(file, item).value, Trailer(d, force || NeedsZip64(d, true)), crc32);
  }

  lemma {:induction false} WriteAllGrows(file: seq<byte>, survivors: seq<Item>, kept: nat, crc32: Crc32)
    requires kept <= |file| && AllValid(survivors) && WriteAll(file, survivors, kept, crc32).Some?
    ensures var (out, offsets) := WriteAll(file, survivors, kept, crc32).value;
            && |offsets| == |survivors| && kept <= |out.bytes| && out.bytes[..kept] == file[..kept]
            && out.pos == |out.bytes|
  {
    hide WriteEntry, Written, Valid;
    if survivors != [] {
      var front := survivors[..|survivors| - 1];
      WriteAllGrows(file, front, kept, crc32);
      WrittenAtEnd(WriteAll(file, front, kept, crc32).value.0.bytes, file, survivors[|survivors| - 1], crc32);
    }
  }

  // Data that is in a file stays when more is written behind it.
  lemma DataStaysInFront(file: seq<byte>, more: seq<byte>, offset: nat, size: nat)
    requires DataOf(file, offset, size).Some?
    ensures DataOf(file + more, offset, size) == DataOf(file, offset, size)
  {
    hide U16;
    assert (file + more)[..|file|] == file[..|file|];
    SameDataInPrefix(file, file + more, |file|, offset, size);
  }

  // One more entry is written.
  lemma WriteLast(file: seq<byte>, survivors: seq<Item>, kept: nat, crc32: Crc32)
    requires kept <= |file| && AllValid(survivors) && survivors != [] && WriteAll(file, survivors, kept, crc32).Some?
    ensures var last, front := survivors[|survivors| - 1], survivors[..|survivors| - 1];
            && WriteAll(file, front, kept, crc32).Some?
            && var (out, offsets) := WriteAll(file, survivors, kept, crc32).value;
               var (before, earlier) := WriteAll(file, front, kept, crc32).value;
               && |earlier| == |front|
               && (Kept(last, kept) ==> out == before && offsets == earlier + [last.orig.value.offset])
               && (!Kept(last, kept) ==>
                     && Written(file, last, crc32).Some?
                     && out.bytes == before.bytes + Written(file, last, crc32).value
                     && offsets == earlier + [|before.bytes|])
  {
    hide WriteEntry, Written, Valid;
    var front := survivors[..|survivors| - 1];
    WriteAllGrows(file, front, kept, crc32);
    WrittenAtEnd(WriteAll(file, front, kept, crc32).value.0.bytes, file, survivors[|survivors| - 1], crc32);
  }

  lemma {:induction false} WrittenAtItsOffset(file: seq<byte>, survivors: seq<Item>, kept: nat, crc32: Crc32, k: nat)
    requires kept <= |file| && AllValid(survivors) && WriteAll(file, survivors, kept, crc32).Some?
    requires |WriteAll(file, survivors, kept, crc32).value.0.bytes| <= INT64_MAX
    requires k < |survivors| && !Kept(survivors[k], kept)
    ensures var (out, offsets) := WriteAll(file, survivors, kept, crc32).value;
            && k < |offsets| && DataAfter(file, survivors[k]).Some?
            && DataOf(out.bytes, offsets[k], survivors[k].current.compSize) == DataAfter(file, survivors[k])
  {
    hide Written, DataOf, DataAfter, WriteAll, Valid;
    var front, last := survivors[..|survivors| - 1], survivors[|survivors| - 1];
    WriteLast(file, survivors, kept, crc32);
    var (before, offsets) := WriteAll(file, front, kept, crc32).value;
    if k == |front| {
      assert Valid(last);
      DataWritten(before.bytes, file, last, crc32);
    } else {
      WrittenAtItsOffset(file, front, kept, crc32, k);
      if !Kept(last, kept) {
        DataStaysInFront(before.bytes, Written(file, last, crc32).value, offsets[k], front[k].current.compSize);
      }
    }
  }

  lemma {:induction false} KeptAtItsOffset(file: seq<byte>, survivors: seq<Item>, kept: nat, crc32: Crc32, k: nat)
    requires kept <= |file| && AllValid(survivors) && WriteAll(file, survivors, kept, crc32).Some?
    requires k < |survivors| && Kept(survivors[k], kept)
    ensures var offsets := WriteAll(file, survivors, kept, crc32).value.1;
            k < |offsets| && offsets[k] == survivors[k].orig.value.offset
  {
    hide Written, WriteAll, Valid;
    WriteLast(file, survivors, kept, crc32);
    if k < |survivors| - 1 {
      KeptAtItsOffset(file, survivors[..|survivors| - 1], kept, crc32, k);
    }
  }

  lemma KeptData(file: seq<byte>, items: seq<Item>, cloning: bool, kept: nat, out: seq<byte>, k: nat)
    requires Disjoint(file, items) && AllValid(items) && UnchangedOffset(file, items, cloning) == Some(kept)
    requires k < |Survivors(items)| && Kept(Survivors(items)[k], kept) && kept <= |out| && out[..kept] == file[..kept]
    ensures var item := Survivors(items)[k];
            && DataAfter(file, item).Some?
            && DataOf(out, item.orig.value.offset, item.current.compSize) == DataAfter(file, item)
  {
    hide DataStart, DataOf, DataEnd, UnchangedOffset;
    var item := Survivors(items)[k];
    assert item in Survivors(items);
    var i :| 0 <= i < |items| && items[i] == item;
    KeptIsWhole(file, items, cloning, i);
    DataIsInside(file, item.orig.value);
    SameDataInPrefix(file, out, kept, item.orig.value.offset, item.orig.value.compSize);
  }

  // Every survivor has its data at its new offset: the new data, or what it had at its old offset.
  lemma DataSurvives(file: seq<byte>, items: seq<Item>, cloning: bool, crc32: Crc32, k: nat)
    requires Disjoint(file, items) && AllValid(items) && UnchangedOffset(file, items, cloning).Some?
    requires var r := WriteAll(file, Survivors(items), UnchangedOffset(file, items, cloning).value, crc32);
             r.Some? && |r.value.0.bytes| <= INT64_MAX
    requires k < |Survivors(items)|
    ensures var (out, offsets) :=
              WriteAll(file, Survivors(items), UnchangedOffset(file, items, cloning).value, crc32).value;
            var item := Survivors(items)[k];
            && k < |offsets| && DataAfter(file, item).Some?
            && DataOf(out.bytes, offsets[k], item.current.compSize) == DataAfter(file, item)
  {
    hide DataOf, DataEnd, UnchangedOffset, WriteAll, Survivors, Disjoint;
    var survivors, kept := Survivors(items), UnchangedOffset(file, items, cloning).value;
    WriteAllGrows(file, survivors, kept, crc32);
    if Kept(survivors[k], kept) {
      KeptAtItsOffset(file, survivors, kept, crc32, k);
      KeptData(file, items, cloning, kept, WriteAll(file, survivors, kept, crc32).value.0.bytes, k);
    } else {
      WrittenAtItsOffset(file, survivors, kept, crc32, k);
    }
  }

  // Keeping a part of the file and copying all of it give each survivor the same data.
  lemma PlansAgree(file: seq<byte>, items: seq<Item>, crc32: Crc32, k: nat)
    requires Disjoint(file, items) && AllValid(items) && UnchangedOffset(file, items, true).Some?
    requires var r := WriteAll(file, Survivors(items), UnchangedOffset(file, items, true).value, crc32);
             r.Some? && |r.value.0.bytes| <= INT64_MAX
    requires var r := WriteAll(file, Survivors(items), 0, crc32); r.Some? && |r.value.0.bytes| <= INT64_MAX
    requires k < |Survivors(items)|
    ensures var (cloned, offsets) :=
              WriteAll(file, Survivors(items), UnchangedOffset(file, items, true).value, crc32).value;
            var (copied, offsets') := WriteAll(file, Survivors(items), 0, crc32).value;
            var size := Survivors(items)[k].current.compSize;
            && |offsets| == |offsets'| == |Survivors(items)|
            && DataOf(cloned.bytes, offsets[k], size) == DataOf(copied.bytes, offsets'[k], size) != None
  {
    hide DataOf, DataEnd, WriteAll, Survivors, Disjoint;
    DataSurvives(file, items, true, crc32, k);
    DataSurvives(file, items, false, crc32, k);
    WriteAllGrows(file, Survivors(items), 0, crc32);
    WriteAllGrows(file, Survivors(items), UnchangedOffset(file, items, true).value, crc32);
  }

  // What is written starts behind the part that is kept, and each entry behind the ones before it.
  lemma {:induction false} WrittenInOrder(file: seq<byte>, survivors: seq<Item>, kept: nat, crc32: Crc32,
      j: nat, k: nat)
    requires kept <= |file| && AllValid(survivors) && WriteAll(file, survivors, kept, crc32).Some?
    requires j <= k < |survivors| && !Kept(survivors[j], kept) && !Kept(survivors[k], kept)
    ensures var (out, offsets) := WriteAll(file, survivors, kept, crc32).value;
            && k < |offsets| && Written(file, survivors[j], crc32).Some? && Written(file, survivors[k], crc32).Some?
            && kept <= offsets[j] && offsets[k] + |Written(file, survivors[k], crc32).value| <= |out.bytes|
            && (j < k ==> offsets[j] + |Written(file, survivors[j], crc32).value| <= offsets[k])
  {
    hide Written, WriteAll, Valid, Kept;
    var front, last := survivors[..|survivors| - 1], survivors[|survivors| - 1];
    WriteLast(file, survivors, kept, crc32);
    WriteAllGrows(file, front, kept, crc32);
    if k < |front| {
      WrittenInOrder(file, front, kept, crc32, j, k);
    } else if j < k {
      WrittenInOrder(file, front, kept, crc32, j, j);
    }
  }

  // --- the loops of zip_close ---

  // Find what to keep and who survives (lines 102-169).
  method MakePlan(file: seq<byte>, items: seq<Item>, cloning: bool) returns (kept: Option<nat>, survivors: seq<Item>)
    ensures kept == UnchangedOffset(file, items, cloning) && survivors == Survivors(items)
  {
    hide DataEnd;
    var unchangedOffset: nat := UINT64_MAX;
    survivors := [];
    for i := 0 to |items|
      invariant unchangedOffset == LeastChanged(items[..i]) && survivors == Survivors(items[..i])
    {
      assert items[..i + 1][..i] == items[..i];
      if items[i].orig.Some? && items[i].changed {
        unchangedOffset := Min(unchangedOffset, items[i].orig.value.offset);
      }
      if !items[i].deleted {
        survivors := survivors + [items[i]];
      }
    }
    assert items[..|items|] == items;
    if !cloning {
      return Some(0), survivors;
    }
    if unchangedOffset == UINT64_MAX {
      var last := FindLast(items);
      if last.None? {
        return Some(0), survivors;
      }
      var end := DataEnd(file, last.value);
      if end.None? {
        return None, survivors;
      }
      unchangedOffset := end.value;
    }
    kept := Some(if unchangedOffset > |file| then 0 else unchangedOffset);
  }

  // (lines 138-148)
  method FindLast(items: seq<Item>) returns (last: Option<Dirent>)
    ensures last == LastStart(items)
  {
    var unchangedOffset: nat := 0;
    last := None;
    for i := 0 to |items|
      invariant last == LastStart(items[..i]) && unchangedOffset == if last.Some? then last.value.offset else 0
    {
      assert items[..i + 1][..i] == items[..i];
      if items[i].orig.Some? {
        if items[i].orig.value.offset >= unchangedOffset {
          unchangedOffset := items[i].orig.value.offset;
          last := items[i].orig;
        }
      }
    }
    assert items[..|items|] == items;
  }

  // Write the survivors (lines 178-287).
  method WriteSurvivors(file: seq<byte>, survivors: seq<Item>, kept: nat, crc32: Crc32)
    returns (r: Option<(File, seq<nat>)>)
    requires kept <= |file| && forall x :: x in survivors ==> Writable(x)
    ensures r == WriteAll(file, survivors, kept, crc32)
  {
    hide AddEntry, Copied;
    var out, offsets := File(file[..kept], kept), [];
    for j := 0 to |survivors|
      invariant WriteAll(file, survivors[..j], kept, crc32) == Some((out, offsets))
    {
      assert survivors[..j + 1][..j] == survivors[..j];
      var item := survivors[j];
      assert Writable(item);
      if item.orig.Some? && item.orig.value.offset < kept {
        offsets := offsets + [item.orig.value.offset];
      } else {
        var next: Option<File>;
        if item.newData.Some? {
          var n := item.newData.value;
          next := AddToFile(out, n.first, item.current, n.force, n.bytes, crc32);
        } else {
          var part := Copied(file, item, crc32);
          next := if part.None? then None else Some(out.Write(part.value));
        }
        if next.None? {
          FailureStays(file, survivors, kept, crc32, j + 1);
          return None;
        }
        offsets := offsets + [out.pos];
        out := next.value;
      }
    }
    assert survivors[..|survivors|] == survivors;
    return Some((out, offsets));
  }

  lemma {:induction false} FailureStays(file: seq<byte>, survivors: seq<Item>, kept: nat, crc32: Crc32, j: nat)
    requires kept <= |file| && forall x :: x in survivors ==> Writable(x)
    requires j <= |survivors| && WriteAll(file, survivors[..j], kept, crc32).None?
    ensures WriteAll(file, survivors, kept, crc32).None?
    decreases |survivors|
  {
    hide WriteEntry;
    if j < |survivors| {
      assert survivors[..|survivors| - 1][..j] == survivors[..j];
      FailureStays(file, survivors[..|survivors| - 1], kept, crc32, j);
    } else {
      assert survivors[..j] == survivors;
    }
  }

  // An entry without a dirent of the archive and without new data, which is what undoing an addition leaves, cannot be
  // written, nor can any archive that has one (lines 205-211, 262-266).
  lemma {:induction false} NothingToCopy(file: seq<byte>, survivors: seq<Item>, kept: nat, crc32: Crc32, k: nat)
    requires kept <= |file| && forall x :: x in survivors ==> Writable(x)
    requires k < |survivors| && survivors[k].orig.None? && survivors[k].newData.None?
    ensures WriteAll(file, survivors, kept, crc32).None?
  {
    hide AddEntry;
    if k < |survivors| - 1 {
      NothingToCopy(file, survivors[..|survivors| - 1], kept, crc32, k);
    }
  }

  // --- where a written entry ends ---

  // How much of a descriptor is overlooked: one whose entry is small is only wide if it was forced.
  function Overlooked(d: Dirent, force: bool): nat {
    if Bit(d.bitFlags, DATA_DESCRIPTOR) && force && !NeedsZip64(d, true) then 8 else 0
  }

  // The end of an entry that was written is behind all of it, but for what is overlooked of a descriptor.
  lemma EndOfWritten(file: seq<byte>, before: seq<byte>, d: Dirent, force: bool, data: seq<byte>, rest: seq<byte>,
      crc32: Crc32)
    requires Storable(d) && WriteHeader(d, true, force, crc32).Some? && |data| == d.compSize
    requires file == before + Complete(d, force, data, crc32) + rest
    requires |before| + |Complete(d, force, data, crc32)| <= INT64_MAX
    ensures var e := d.(offset := |before|);
            DataEnd(file, e) == Some(|before| + |Complete(d, force, data, crc32)| - Overlooked(d, force))
  {
    hide WriteHeader, HeaderSize, Bit, WriteDescriptor, DataEnd, Trailer, DataStart;
    var header, trailer := WriteHeader(d, true, force, crc32).value, Trailer(d, IsWide(d, force));
    TrailerBytes(d, IsWide(d, force));
    Regrouped(before, header, data, trailer, rest);
    StartOfWritten(file, before, d, force, data + trailer + rest, crc32);
    EndOfParts(file, before, header, data, trailer, rest, d.(offset := |before|));
  }

  lemma EndOfParts(file: seq<byte>, before: seq<byte>, header: seq<byte>, data: seq<byte>, trailer: seq<byte>,
      rest: seq<byte>, d: Dirent)
    requires file == before + (header + data + trailer) + rest && d.offset == |before| && |data| == d.compSize
    requires DataStart(file, |before|) == Some(|before| + |header|)
    requires Bit(d.bitFlags, DATA_DESCRIPTOR) ==> |trailer| >= 4 && trailer[..4] == DATADES_MAGIC
    ensures var end := |before| + |header| + |data| +
                       if !Bit(d.bitFlags, DATA_DESCRIPTOR) then 0 else if NeedsZip64(d, true) then 24 else 16;
            end <= INT64_MAX ==> DataEnd(file, d) == Some(end)
  {
    hide DataEnd, DataStart, Bit, NeedsZip64;
    Regrouped(before, header, data, trailer, rest);
    if Bit(d.bitFlags, DATA_DESCRIPTOR) {
      DescriptorThere(file, before + header + data, trailer, rest);
    }
    EndFrom(file, d, |before| + |header|);
  }

  // It is found if and only if the descriptor, if there is one, is as wide as the sizes need it.
  lemma EndIsWhole(file: seq<byte>, before: seq<byte>, d: Dirent, force: bool, data: seq<byte>, rest: seq<byte>,
      crc32: Crc32)
    requires Storable(d) && WriteHeader(d, true, force, crc32).Some? && |data| == d.compSize
    requires file == before + Complete(d, force, data, crc32) + rest
    requires |before| + |Complete(d, force, data, crc32)| <= INT64_MAX
    ensures DataEnd(file, d.(offset := |before|)) == Some(|before| + |Complete(d, force, data, crc32)|) <==>
            (Bit(d.bitFlags, DATA_DESCRIPTOR) ==> IsWide(d, force) == NeedsZip64(d, true))
  {
    hide WriteHeader, Complete, DataEnd, Bit, NeedsZip64;
    EndOfWritten(file, before, d, force, data, rest, crc32);
  }

  lemma Regrouped(a: seq<byte>, b: seq<byte>, c: seq<byte>, d: seq<byte>, e: seq<byte>)
    ensures a + (b + c + d) + e == a + (b + (c + d + e)) && a + (b + c + d) + e == a + b + c + d + e
  {
  }

  lemma StartOfWritten(file: seq<byte>, before: seq<byte>, d: Dirent, force: bool, tail: seq<byte>, crc32: Crc32)
    requires Storable(d) && WriteHeader(d, true, force, crc32).Some?
    requires file == before + (WriteHeader(d, true, force, crc32).value + tail)
    requires |before| + |WriteHeader(d, true, force, crc32).value| <= INT64_MAX
    ensures DataStart(file, |before|) == Some(|before| + |WriteHeader(d, true, force, crc32).value|)
  {
    hide WriteHeader, HeaderSize;
    assert file[|before|..] == WriteHeader(d, true, force, crc32).value + tail;
    HeaderSizeBack(d, true, force, tail, crc32);
  }

  lemma DescriptorThere(file: seq<byte>, front: seq<byte>, trailer: seq<byte>, rest: seq<byte>)
    requires file == front + trailer + rest && |trailer| >= 4
    ensures |front| + 4 <= |file| && file[|front|..|front| + 4] == trailer[..4]
  {
  }

  // The end counted from the start of the data.
  lemma EndFrom(file: seq<byte>, d: Dirent, start: nat)
    requires DataStart(file, d.offset) == Some(start)
    requires Bit(d.bitFlags, DATA_DESCRIPTOR) ==>
               && start + d.compSize + 4 <= |file|
               && file[start + d.compSize..start + d.compSize + 4] == DATADES_MAGIC
    ensures var end := start + d.compSize +
                       if !Bit(d.bitFlags, DATA_DESCRIPTOR) then 0 else if NeedsZip64(d, true) then 24 else 16;
            end <= INT64_MAX ==> DataEnd(file, d) == Some(end)
  {
    hide Bit, NeedsZip64, DataStart;
  }

  lemma DescriptorStart(d: Dirent, wide: bool)
    ensures |WriteDescriptor(d, wide)| == (if wide then 24 else 16) && WriteDescriptor(d, wide)[..4] == DATADES_MAGIC
  {
  }

  lemma TrailerBytes(d: Dirent, wide: bool)
    ensures |Trailer(d, wide)| == if !Bit(d.bitFlags, DATA_DESCRIPTOR) then 0 else if wide then 24 else 16
    ensures Bit(d.bitFlags, DATA_DESCRIPTOR) ==> Trailer(d, wide)[..4] == DATADES_MAGIC
  {
    hide WriteDescriptor, Bit;
    DescriptorStart(d, wide);
  }

  // A descriptor without a signature is as long as its numbers, if its checksum does not look like one.
  lemma EndOfUnsigned(file: seq<byte>, before: seq<byte>, d: Dirent, header: seq<byte>, data: seq<byte>,
      crc: seq<byte>, rest: seq<byte>)
    requires file == before + (header + (data + (crc + rest))) && |crc| == 4 && crc != DATADES_MAGIC
    requires HeaderSize(header + (data + (crc + rest)), true) == Some(|header|) && |data| == d.compSize
    requires Bit(d.bitFlags, DATA_DESCRIPTOR) && d.offset == |before| && |file| + 20 <= INT64_MAX
    ensures DataEnd(file, d) == Some(|before| + |header| + |data| + if NeedsZip64(d, true) then 20 else 12)
  {
    hide HeaderSize, Bit, NeedsZip64;
    assert file[|before|..] == header + (data + (crc + rest));
    var at := |before| + |header| + |data|;
    assert file[at..at + 4] == crc;
  }

  // An entry of the file that is kept is kept with its data and all of its descriptor that is not overlooked.
  lemma KeptIsComplete(file: seq<byte>, items: seq<Item>, cloning: bool, i: nat, d: Dirent, force: bool,
      data: seq<byte>,
      rest: seq<byte>, crc32: Crc32)
    requires Disjoint(file, items) && AllValid(items) && i < |items| && UnchangedOffset(file, items, cloning).Some?
    requires Kept(items[i], UnchangedOffset(file, items, cloning).value)
    requires items[i].orig.value.offset <= |file| && items[i].orig.value == d.(offset := items[i].orig.value.offset)
    requires Storable(d) && WriteHeader(d, true, force, crc32).Some? && |data| == d.compSize
    requires file == file[..items[i].orig.value.offset] + Complete(d, force, data, crc32) + rest && |file| <= INT64_MAX
    ensures items[i].orig.value.offset + |Complete(d, force, data, crc32)| - Overlooked(d, force) <=
            UnchangedOffset(file, items, cloning).value
  {
    hide DataEnd, UnchangedOffset, Disjoint, WriteHeader, Trailer, NeedsZip64, Overlooked;
    KeptIsWhole(file, items, cloning, i);
    EndOfWritten(file, file[..items[i].orig.value.offset], d, force, data, rest, crc32);
  }

  // --- the order of the survivors ---

  // How many of the first entries survive.
  function Rank(items: seq<Item>, i: nat): nat
    requires i <= |items|
  {
    |set k | 0 <= k < i && !items[k].deleted|
  }

  lemma RankNext(items: seq<Item>, i: nat)
    requires i < |items|
    ensures Rank(items, i + 1) == Rank(items, i) + if items[i].deleted then 0 else 1
  {
    var before, after := set k | 0 <= k < i && !items[k].deleted, set k | 0 <= k < i + 1 && !items[k].deleted;
    assert after == if items[i].deleted then before else before + {i};
  }

  lemma RankOfPrefix(items: seq<Item>, i: nat, n: nat)
    requires i <= n <= |items|
    ensures Rank(items[..n], i) == Rank(items, i)
  {
    assert (set k | 0 <= k < i && !items[..n][k].deleted) == set k | 0 <= k < i && !items[k].deleted;
  }

  lemma {:induction false} SurvivorCount(items: seq<Item>)
    ensures |Survivors(items)| == Rank(items, |items|)
  {
    var left := set k | 0 <= k < |items| && !items[k].deleted;
    if items == [] {
      assert left == {};
    } else {
      hide Rank;
      var n := |items| - 1;
      SurvivorCount(items[..n]);
      RankNext(items, n);
      RankOfPrefix(items, n, n);
    }
  }

  // The survivors are the entries that are not deleted, in their order.
  lemma {:induction false} SurvivorsInOrder(items: seq<Item>, i: nat)
    requires i < |items| && !items[i].deleted
    ensures |Survivors(items)| == Rank(items, |items|)
    ensures Rank(items, i) < |Survivors(items)| && Survivors(items)[Rank(items, i)] == items[i]
  {
    hide Rank;
    var n := |items| - 1;
    SurvivorCount(items);
    SurvivorCount(items[..n]);
    RankOfPrefix(items, i, n);
    RankOfPrefix(items, n, n);
    if i < n {
      SurvivorsInOrder(items[..n], i);
    }
  }

  // A small entry with a forced wide descriptor: its end is taken to be eight bytes before what was written.
  lemma OverlookedCounterexample(data: seq<byte>, rest: seq<byte>, crc32: Crc32)
    requires |data| == 17
    ensures WriteHeader(DESCRIBED, true, true, crc32).Some?
    ensures var written := Complete(DESCRIBED, true, data, crc32);
            |written| <= 0x3_0000 && DataEnd(written + rest, DESCRIBED) == Some(|written| - 8)
  {
    DescribedIsWritten(true, crc32);
    HeaderIsShort(DESCRIBED, true, crc32);
    assert Overlooked(DESCRIBED, true) == 8;
    hide WriteHeader, DataEnd, Trailer;
    var written := Complete(DESCRIBED, true, data, crc32);
    TrailerBytes(DESCRIBED, true);
    assert written + rest == [] + written + rest;
    EndOfWritten(written + rest, [], DESCRIBED, true, data, rest, crc32);
    assert DESCRIBED.(offset := 0) == DESCRIBED;
  }

  lemma HeaderIsShort(d: Dirent, force: bool, crc32: Crc32)
    requires Storable(d) && WriteHeader(d, true, force, crc32).Some?
    ensures |WriteHeader(d, true, force, crc32).value| <= 30 + 2 * UINT16_MAX
  {
    hide OwnFields, FixedOf, EncodeFixed;
    SizeIsLength(OwnFields(d, true, force, crc32));
    SizeIsLength(UserFields(d, true));
  }

  // --- how much is kept ---

  // An entry of the file about which something changed.
  predicate IsChanged(item: Item) {
    item.orig.Some? && item.changed
  }

  predicate EndsAt(file: seq<byte>, item: Item, end: nat) {
    item.orig.Some? && End(file, item.orig.value) == end
  }

  // As much is kept as can be: all before the first entry with a change, or all entries with their ends if none has
  // one.
  lemma KeptIsMost(file: seq<byte>, items: seq<Item>)
    requires Disjoint(file, items) && AllValid(items)
    ensures UnchangedOffset(file, items, false) == Some(0) && UnchangedOffset(file, items, true).Some?
    ensures var kept := UnchangedOffset(file, items, true).value;
            if exists i :: 0 <= i < |items| && IsChanged(items[i]) then
              && (forall i :: 0 <= i < |items| && IsChanged(items[i]) ==> kept <= items[i].orig.value.offset)
              && exists i :: 0 <= i < |items| && IsChanged(items[i]) && items[i].orig.value.offset == kept
            else
              && (forall i :: 0 <= i < |items| && items[i].orig.Some? ==> End(file, items[i].orig.value) <= kept)
              && (kept == 0 || exists i :: 0 <= i < |items| && EndsAt(file, items[i], kept))
  {
    hide DataEnd, HeaderSize;
    LeastChangedBound(items);
    LastStartBound(items);
    forall i | 0 <= i < |items| && items[i].orig.Some?
      ensures items[i].orig.value.offset < End(file, items[i].orig.value) <= |file|
    {
      DataIsInside(file, items[i].orig.value);
    }
    if i :| 0 <= i < |items| && items[i].orig.Some? && items[i].changed {
      assert Valid(items[i]);
      assert LeastChanged(items) <= items[i].orig.value.offset <= INT64_MAX;
      var j :| 0 <= j < |items| && items[j].orig.Some? && items[j].changed
          && items[j].orig.value.offset == LeastChanged(items);
      assert UnchangedOffset(file, items, true) == Some(LeastChanged(items));
    }
  }

  // --- copied entries ---

  // A copied entry announces a descriptor if and only if it did and is encrypted the PKWARE way; nothing else changes.
  lemma CopiedFlags(item: Item)
    ensures var d, e := CopiedDirent(item), item.current;
            && (Bit(d.bitFlags, DATA_DESCRIPTOR) <==>
                e.encryption == EM_TRAD_PKWARE && Bit(e.bitFlags, DATA_DESCRIPTOR))
            && d.(bitFlags := e.bitFlags) == e
            && (d.bitFlags == e.bitFlags || d.bitFlags + DATA_DESCRIPTOR == e.bitFlags)
  {
    DescriptorBit(item.current.bitFlags);
  }

  lemma DescriptorBit(flags: uint16)
    ensures !Bit(WithBit(flags, DATA_DESCRIPTOR, false), DATA_DESCRIPTOR)
  {
    var f: int := flags;
    var high, low := f / 0x10, f % 8;
    assert f == high * 0x10 + f / 8 % 2 * 8 + low;
  }
}
