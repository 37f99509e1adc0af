// The open archive: its entries and the hash table of their names, edited in place
// (lib/zip_set_name.c, lib/zip_file_rename.c, lib/zip_delete.c, lib/zip_unchange.c, lib/zip_unchange_all.c,
// lib/zip_file_replace.c, lib/zip_open.c, lib/zip_close.c).
module Archive {
  import opened Bytes
  import opened NameMap
  import opened ZipString
  import opened HashTable
  import opened ArchiveState
  import EditRuns

  class Archive {
    var entries: seq<Entry>
    const names: Hash

    ghost predicate Valid()
      reads names, names.table, names.nodes
    {
      names.Valid()
    }

    ghost function View(): State
      reads this, names
    {
      State(entries, names.index)
    }

    // The hash table may grow, and nothing else is touched.
    twostate predicate Kept()
      reads names
    {
      fresh(names.nodes - old(names.nodes)) && (names.table == old(names.table) || fresh(names.table))
    }

    constructor (siphash: Name -> nat, entries: seq<Entry>)
      ensures Valid() && this.entries == entries && names.index == map[] && fresh(names) && fresh(names.table)
      ensures names.nodes == {}
    {
      this.entries := entries;
      names := new Hash(siphash);
    }

    // The index of the entry with the given name now, -1 if none (lib/zip_name_locate.c:48-116).
    method NameLocate(name: Option<Name>, announced: Announced) returns (i: int)
      requires Valid()
      ensures i == Located(names.index, name, announced)
    {
      if name.None? || |name.value| > UINT16_MAX {
        return -1;
      }
      var key := name.value;
      if announced != Utf8 && key != [] {
        key := Text(New(key, announced).value);
      }
      i := names.Lookup(CString(key), false);
    }

    // (lib/zip_set_name.c:41-165)
    method SetName(idx: nat, name: Option<Name>, announced: Announced) returns (outcome: Outcome)
      requires Valid()
      modifies this`entries, names, names.table, names.nodes
      ensures Valid() && Kept()
      ensures (View(), outcome) == ArchiveState.SetName(old(View()), idx, name, announced)
    {
      hide NewString, Located, Hash.Valid, ArchiveState.PutName;
      if idx >= |entries| {
        return Failed(Invalid);
      }
      var stored := NewString(name, announced);
      if stored.None? {
        return Failed(Invalid);
      }
      var str := stored.value;
      var i := NameLocate(name, Guess);
      if i >= 0 && i != idx {
        return Failed(Exists);
      }
      if i >= 0 && i == idx {
        return Done(0);
      }
      outcome := PutName(idx, str);
    }

    // Give an entry a name that no entry was found to have (lines 89-164).
    method PutName(idx: nat, str: Stored) returns (outcome: Outcome)
      requires Valid() && idx < |entries|
      modifies this`entries, names, names.table, names.nodes
      ensures Valid() && Kept()
      ensures (View(), outcome) == ArchiveState.PutName(old(View()), idx, str)
    {
      hide NameOf, NameMap.Add, NameMap.Delete, Hash.Valid, CanAdd, Equal;
      var sameAsOrig := entries[idx].orig.Some? && Equal(entries[idx].orig.value.filename, str);
      if !sameAsOrig && entries[idx].changes.None? {
        entries := entries[idx := entries[idx].(changes := Some(Clone(entries[idx].orig)))];
      }
      assert entries == old(entries)[idx := entries[idx]];
      var newName := NameOf(if sameAsOrig then entries[idx].orig.value.filename else str);
      var oldString := OldString(entries[idx]);
      var added := names.Add(newName, idx, false);
      if !added {
        return Failed(if idx > INT64_MAX then Invalid else Exists);
      }
      if oldString.Some? {
        var _ := names.Delete(NameOf(oldString));
      }
      if sameAsOrig {
        entries := entries[idx := WithoutNameChange(entries[idx])];
      } else {
        entries := entries[idx := WithName(entries[idx], str)];
      }
      assert entries == old(entries)[idx := entries[idx]];
      return Done(0);
    }

    // (lib/zip_file_rename.c:40-68)
    method FileRename(idx: nat, name: Option<Name>, announced: Announced) returns (outcome: Outcome)
      requires Valid()
      modifies this`entries, names, names.table, names.nodes
      ensures Valid() && Kept()
      ensures (View(), outcome) == Rename(old(View()), idx, name, announced)
    {
      hide NameOf, Hash.Valid, ArchiveState.SetName, IsDirectory;
      if idx >= |entries| || (name.Some? && |name.value| > UINT16_MAX) {
        return Failed(Invalid);
      }
      if Current(entries[idx]).None? {
        return Failed(WhyNot(entries[idx]));
      }
      var newIsDirectory := name.Some? && IsDirectory(name.value);
      var oldIsDirectory := IsDirectory(CurrentName(entries[idx]).value);
      if newIsDirectory != oldIsDirectory {
        return Failed(Invalid);
      }
      outcome := SetName(idx, name, announced);
    }

    // (lib/zip_delete.c:38-68)
    method Delete(idx: nat) returns (outcome: Outcome)
      requires Valid()
      modifies this`entries, names, names.table, names.nodes
      ensures Valid() && Kept()
      ensures (View(), outcome) == DeleteEntry(old(View()), idx)
    {
      hide NameOf, Hash.Valid;
      if idx >= |entries| {
        return Failed(Invalid);
      }
      if Current(entries[idx]).None? {
        return Failed(WhyNot(entries[idx]));
      }
      var found := names.Delete(CurrentName(entries[idx]).value);
      if !found {
        return Failed(NoEntry);
      }
      entries := entries[idx := Reset(entries[idx])];
      entries := entries[idx := entries[idx].(deleted := true)];
      assert entries == old(entries)[idx := entries[idx]];
      return Done(0);
    }

    // (lib/zip_unchange.c:45-96)
    method UnchangeEntry(idx: nat) returns (outcome: Outcome)
      requires Valid()
      modifies this`entries, names, names.table, names.nodes
      ensures Valid() && Kept()
      ensures (View(), outcome) == Unchange(old(View()), idx)
    {
      hide NameOf, Hash.Valid, Located, CanAdd, NameMap.Add;
      if idx >= |entries| {
        return Failed(Invalid);
      }
      var e := entries[idx];
      if Renamed(e) || e.deleted {
        if e.orig.Some? {
          var i := NameLocate(OriginalName(e), Guess);
          if i >= 0 && i != idx {
            return Failed(Exists);
          }
          var added := names.Add(OriginalName(e).value, idx, false);
          if !added {
            return Failed(if idx > INT64_MAX then Invalid else Exists);
          }
        }
        if Renamed(e) {
          var found := names.Delete(CurrentName(e).value);
          if !found {
            if e.orig.Some? {
              var _ := names.Delete(OriginalName(e).value);
            }
            return Failed(NoEntry);
          }
        }
      }
      entries := entries[idx := Reset(e)];
      return Done(0);
    }

    // (lib/zip_unchange_all.c:38-54)
    method UnchangeAll()
      requires Valid()
      modifies this`entries, names, names.table, names.nodes
      ensures Valid() && Kept()
      ensures View() == ArchiveState.UnchangeAll(old(View()))
    {
      hide Hash.Valid, NameMap.Revert;
      names.Revert();
      for i := 0 to |entries|
        invariant |entries| == |old(entries)| && Valid() && Kept() && names.index == NameMap.Revert(old(names.index))
        invariant forall k :: 0 <= k < |entries| ==>
                    entries[k] == if k < i then Reset(old(entries)[k]) else old(entries)[k]
      {
        entries := entries[i := Reset(entries[i])];
      }
    }

    // (lib/zip_file_replace.c:87-99)
    method ReplaceData(idx: nat, source: nat) returns (outcome: Outcome)
      requires idx < |entries|
      modifies this`entries
      ensures (View(), outcome) == ArchiveState.ReplaceData(old(View()), idx, source)
    {
      var e := entries[idx];
      if Current(e).None? {
        return Failed(WhyNot(e));
      }
      if e.changes.None? {
        e := e.(changes := Some(Clone(e.orig)));
      }
      e := e.(changes := Some(e.changes.value.(fieldsChanged := true)));
      e := e.(source := None, deleted := false);
      entries := entries[idx := e.(source := Some(source))];
      return Done(idx);
    }

    // (lib/zip_file_replace.c:38-49)
    method FileReplace(idx: nat, source: nat) returns (outcome: Outcome)
      modifies this`entries
      ensures (View(), outcome) == ArchiveState.FileReplace(old(View()), idx, source)
    {
      if idx >= |entries| {
        return Failed(Invalid);
      }
      outcome := ReplaceData(idx, source);
    }

    // (lib/zip_file_replace.c:54-100)
    method FileAdd(name: Name, source: nat, overwrite: bool, announced: Announced) returns (outcome: Outcome)
      requires Valid()
      modifies this`entries, names, names.table, names.nodes
      ensures Valid() && Kept()
      ensures (View(), outcome) == ArchiveState.FileAdd(old(View()), name, source, overwrite, announced)
    {
      hide Hash.Valid, ArchiveState.SetName, ArchiveState.ReplaceData, Located;
      var count := |entries|;
      var i := -1;
      if overwrite {
        i := NameLocate(Some(name), announced);
      }
      if i < 0 {
        i := count;
        entries := entries + [NEW_ENTRY];
      }
      outcome := SetName(i, Some(name), announced);
      if outcome.Failed? {
        entries := entries[..count];
        return;
      }
      outcome := ReplaceData(i, source);
    }

    // (lib/zip_open.c:234-254)
    method IndexNames(originals: seq<Original>, checkConsistency: bool) returns (ok: bool)
      requires Valid() && names.index == map[] && |originals| <= INT64_MAX
      modifies names, names.table, names.nodes
      ensures Valid() && Kept() && (ok ==> names.index == EditRuns.OpenedIndex(EditRuns.Names(originals)))
      ensures ok <==> checkConsistency ==> EditRuns.Distinct(EditRuns.Names(originals))
    {
      hide NameOf, Hash.Valid, NameMap.Add, CanAdd, EditRuns.OpenedIndex;
      ghost var all := EditRuns.Names(originals);
      names.ReserveCapacity(|originals|);
      EditRuns.NoNamesYet(all);
      for i := 0 to |originals|
        invariant Valid() && Kept() && names.index == EditRuns.OpenedIndex(all[..i])
        invariant checkConsistency ==> EditRuns.Distinct(all[..i])
      {
        EditRuns.NextName(all, i);
        var added := names.Add(NameOf(originals[i].filename), i, true);
        if !added && checkConsistency {
          return false;
        }
      }
      assert all[..|originals|] == all;
      return true;
    }

    // Whether anything changed, and how many entries will be left (lib/zip_close.c:739-764).
    method HasChanged(commentChanged: bool, toTorrentzip: bool) returns (changed: bool, survivors: nat)
      ensures changed == (commentChanged || toTorrentzip || Changed(entries))
      ensures survivors == |set i | 0 <= i < |entries| && !entries[i].deleted|
    {
      changed, survivors := commentChanged || toTorrentzip, 0;
      for i := 0 to |entries|
        invariant changed == (commentChanged || toTorrentzip || exists k :: 0 <= k < i && HasChanges(entries[k]))
        invariant survivors == |set k | 0 <= k < i && !entries[k].deleted|
      {
        ghost var before := set k | 0 <= k < i && !entries[k].deleted;
        ghost var after := set k | 0 <= k < i + 1 && !entries[k].deleted;
        if HasChanges(entries[i]) {
          changed := true;
        }
        if !entries[i].deleted {
          assert after == before + {i};
          survivors := survivors + 1;
        } else {
          assert after == before;
        }
      }
    }
  }

  // Open an archive with the given directory entries; a repeated name is an error only if consistency is to be
  // checked (lib/zip_open.c:234-254).
  method Open(siphash: Name -> nat, originals: seq<Original>, checkConsistency: bool) returns (za: Archive?)
    requires |originals| <= INT64_MAX
    ensures za != null ==> fresh(za) && fresh(za.names) && za.Valid() && za.View() == EditRuns.Opened(originals)
    ensures za == null <==> checkConsistency && !EditRuns.Distinct(EditRuns.Names(originals))
  {
    hide Hash.Valid;
    za := new Archive(siphash, EditRuns.Opened(originals).entries);
    var ok := za.IndexNames(originals, checkConsistency);
    if !ok {
      return null;
    }
  }
}
