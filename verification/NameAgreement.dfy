// The name index agrees with a scan of the entries, over any run of edits.
module NameAgreement {
  import opened Bytes
  import opened NameMap
  import opened ZipString
  import opened ArchiveState
  import StringEncoding
  import Cp437
  import Utf8

  // The index finds every entry that has a name, and finds nothing else.
  ghost predicate ViewAgrees(s: State, original: bool) {
    && (forall i :: 0 <= i < |s.entries| && NameIn(s.entries[i], original).Some? ==>
          Lookup(s.index, NameIn(s.entries[i], original).value, original) == i)
    && (forall n {:trigger Lookup(s.index, n, original)} :: Lookup(s.index, n, original) != -1 ==>
          0 <= Lookup(s.index, n, original) < |s.entries| &&
          NameIn(s.entries[Lookup(s.index, n, original)], original) == Some(n))
  }

  ghost predicate Agree(s: State) {
    ViewAgrees(s, false) && ViewAgrees(s, true)
  }

  // A deleted entry has no changes, and a copy has the original name unless flagged.
  ghost predicate Consistent(e: Entry) {
    && (e.deleted ==> e.changes.None? && e.source.None?)
    && (e.changes.Some? && !e.changes.value.nameChanged ==>
          e.orig.Some? && e.changes.value.filename == e.orig.value.filename)
  }

  ghost predicate AllConsistent(entries: seq<Entry>) {
    forall i :: 0 <= i < |entries| ==> Consistent(entries[i])
  }

  ghost predicate Good(s: State) {
    Proper(s.index) && AllConsistent(s.entries) && Agree(s)
  }

  // No two entries have the same name.
  lemma NamesAreUnique(s: State, i: nat, j: nat, original: bool)
    requires ViewAgrees(s, original) && i < |s.entries| && j < |s.entries|
    requires NameIn(s.entries[i], original).Some? && NameIn(s.entries[i], original) == NameIn(s.entries[j], original)
    ensures i == j
  {
  }

  // The entries determine the index.
  lemma AgreementDeterminesIndex(s: State, t: State)
    requires Good(s) && Good(t) && s.entries == t.entries
    ensures s.index == t.index
  {
    forall n, original
      ensures Lookup(s.index, n, original) == Lookup(t.index, n, original)
    {
      var i, j := Lookup(s.index, n, original), Lookup(t.index, n, original);
      assert i != -1 ==> NameIn(s.entries[i], original) == Some(n);
      assert j != -1 ==> NameIn(t.entries[j], original) == Some(n);
    }
    forall n
      ensures n in s.index <==> n in t.index
      ensures n in s.index && n in t.index ==> s.index[n] == t.index[n]
    {
      assert Lookup(s.index, n, true) == Lookup(t.index, n, true);
      assert Lookup(s.index, n, false) == Lookup(t.index, n, false);
    }
  }

  // --- how the index operations change lookups ---

  lemma AddLookups(m: Index, name: Name, index: nat, original: bool, n: Name, view: bool)
    requires CanAdd(m, name, original)
    ensures Lookup(Add(m, name, index, original), n, view) ==
            if n == name && (original || !view) then index else Lookup(m, n, view)
  {
  }

  lemma DeleteLookups(m: Index, name: Name, n: Name, view: bool)
    ensures Lookup(Delete(m, name), n, view) == if n == name && !view then -1 else Lookup(m, n, view)
  {
  }

  lemma RevertLookups(m: Index, n: Name, view: bool)
    ensures Lookup(Revert(m), n, view) == Lookup(m, n, true)
  {
  }

  // --- changing one entry ---

  // What the index must do when the current name of one entry changes.
  ghost predicate Follows(before: Index, after: Index, idx: nat, oldName: Option<Name>, newName: Option<Name>) {
    && (forall n :: Lookup(after, n, false) ==
          if newName == Some(n) then idx else if oldName == Some(n) then -1 else Lookup(before, n, false))
    && (forall n :: Lookup(after, n, true) == Lookup(before, n, true))
  }

  lemma OneEntryChanged(s: State, idx: nat, e: Entry, index: Index)
    requires Good(s) && idx < |s.entries| && Proper(index) && Consistent(e)
    requires e.orig == s.entries[idx].orig
    requires Follows(s.index, index, idx, CurrentName(s.entries[idx]), CurrentName(e))
    requires CurrentName(e).Some? ==>
               Lookup(s.index, CurrentName(e).value, false) == -1 || Lookup(s.index, CurrentName(e).value, false) == idx
    ensures Good(State(s.entries[idx := e], index))
  {
    hide ViewAgrees, Follows, CurrentName, Lookup, Proper, Consistent;
    CurrentViewChanged(s, idx, e, index);
    OriginalViewKept(s, idx, e, index);
  }

  lemma CurrentViewChanged(s: State, idx: nat, e: Entry, index: Index)
    requires ViewAgrees(s, false) && idx < |s.entries|
    requires Follows(s.index, index, idx, CurrentName(s.entries[idx]), CurrentName(e))
    requires CurrentName(e).Some? ==>
               Lookup(s.index, CurrentName(e).value, false) == -1 || Lookup(s.index, CurrentName(e).value, false) == idx
    ensures ViewAgrees(State(s.entries[idx := e], index), false)
  {
    hide CurrentName, Lookup;
    var t := State(s.entries[idx := e], index);
    forall i | 0 <= i < |t.entries| && CurrentName(t.entries[i]).Some?
      ensures Lookup(t.index, CurrentName(t.entries[i]).value, false) == i
    {
      assert NameIn(s.entries[i], false) == CurrentName(s.entries[i]);
    }
    forall n | Lookup(t.index, n, false) != -1
      ensures 0 <= Lookup(t.index, n, false) < |t.entries|
      ensures CurrentName(t.entries[Lookup(t.index, n, false)]) == Some(n)
    {
    }
  }

  lemma OriginalViewKept(s: State, idx: nat, e: Entry, index: Index)
    requires ViewAgrees(s, true) && idx < |s.entries| && e.orig == s.entries[idx].orig
    requires Follows(s.index, index, idx, CurrentName(s.entries[idx]), CurrentName(e))
    ensures ViewAgrees(State(s.entries[idx := e], index), true)
  {
    hide CurrentName, Lookup;
    var t := State(s.entries[idx := e], index);
    forall i | 0 <= i < |t.entries|
      ensures NameIn(t.entries[i], true) == NameIn(s.entries[i], true)
    {
    }
  }

  // An entry without a current name loses nothing by changing its flags or data.
  lemma SameName(s: State, idx: nat, e: Entry)
    requires Good(s) && idx < |s.entries| && Consistent(e) && e.orig == s.entries[idx].orig
    requires CurrentName(e) == CurrentName(s.entries[idx])
    ensures Good(Replace(s, idx, e))
  {
    hide CurrentName, Lookup;
    assert NameIn(s.entries[idx], false) == CurrentName(e);
    OneEntryChanged(s, idx, e, s.index);
  }

  // --- renaming ---

  // Renaming an entry whose current name is stored as the empty string leaves that name in the index
  // (lib/zip_set_name.c:121-137).
  predicate LeavesStale(s: State, idx: nat, name: Option<Name>, announced: Announced) {
    && idx < |s.entries| && idx <= INT64_MAX && Current(s.entries[idx]) == Some(None)
    && (name.Some? ==> |name.value| <= UINT16_MAX && !IsDirectory(name.value))
    && Located(s.index, name, Guess) < 0
    && var stored := NewString(name, announced);
       stored.Some? && CanAdd(s.index, NameOf(ShownAs(s.entries[idx], stored.value)), false)
  }

  // These are just the renamings from the empty name that succeed and change something.
  lemma StaleIsRenamed(s: State, idx: nat, name: Option<Name>, announced: Announced)
    requires Good(s) && idx < |s.entries| && Current(s.entries[idx]) == Some(None)
    ensures LeavesStale(s, idx, name, announced) <==>
            Rename(s, idx, name, announced).1.Done? && Located(s.index, name, Guess) != idx
  {
    hide NameOf, Located, NewString, Equal, CanAdd;
    NameOfEmpty();
  }

  // An entry that can be given a name: it has one now, or is new.
  predicate Nameable(e: Entry) {
    Current(e).Some? || e == NEW_ENTRY
  }

  lemma NewIndexFollows(index: Index, idx: nat, before: Stored, after: Stored)
    requires CanAdd(index, NameOf(after), false) && before.Some? && NameOf(before) != NameOf(after)
    ensures Follows(index, NewIndex(index, idx, before, after), idx, Some(NameOf(before)), Some(NameOf(after)))
  {
    hide NameOf, CanAdd, Add, Delete, Lookup;
    forall n, view
      ensures Lookup(NewIndex(index, idx, before, after), n, view) ==
              if view then Lookup(index, n, true)
              else if n == NameOf(after) then idx else if n == NameOf(before) then -1 else Lookup(index, n, false)
    {
      AddLookups(index, NameOf(after), idx, false, n, view);
      DeleteLookups(Add(index, NameOf(after), idx, false), NameOf(before), n, view);
    }
  }

  lemma NewIndexIsProper(index: Index, idx: nat, before: Stored, after: Stored)
    requires Proper(index)
    ensures Proper(NewIndex(index, idx, before, after))
  {
    AddKeepsProper(index, NameOf(after), idx, false);
    DeleteKeepsProper(Add(index, NameOf(after), idx, false), NameOf(before));
  }

  ghost predicate NamedTo(before: Entry, after: Entry, name: Stored) {
    Consistent(after) && after.orig == before.orig && Current(after) == Some(name)
  }

  // The entry that a successful renaming makes, and the name it shows.
  lemma RenamedEntry(e: Entry, name: Stored)
    requires Consistent(e) && Nameable(e)
    ensures Prepared(e, name).orig == e.orig && !Prepared(e, name).deleted
    ensures OldString(Prepared(e, name)) == if e == NEW_ENTRY then None else Current(e).value
    ensures IsOriginal(Prepared(e, name), name) ==>
              e.orig.Some? && NamedTo(e, WithoutNameChange(Prepared(e, name)), e.orig.value.filename)
    ensures !IsOriginal(Prepared(e, name), name) ==>
              Prepared(e, name).changes.Some? && NamedTo(e, WithName(Prepared(e, name), name), name)
    ensures e != NEW_ENTRY ==> Consistent(Prepared(e, name)) && Current(Prepared(e, name)) == Current(e)
  {
    hide Equal;
  }

  lemma PutNameIsGood(s: State, idx: nat, name: Stored)
    requires Good(s) && idx < |s.entries| && Nameable(s.entries[idx])
    requires Current(s.entries[idx]) != Some(None)
    ensures PutName(s, idx, name).1.Done? || s.entries[idx] != NEW_ENTRY ==> Good(PutName(s, idx, name).0)
    ensures PutName(s, idx, name).1.Failed? ==> PutName(s, idx, name).0.index == s.index
  {
    hide NameOf, CanAdd, Add, Delete, Lookup, Proper, NewIndex, WithName, WithoutNameChange, IsOriginal, Prepared,
         OldString, Consistent;
    var before := s.entries[idx];
    RenamedEntry(before, name);
    var e := Prepared(before, name);
    var shown := ShownAs(e, name);
    if idx > INT64_MAX || !CanAdd(s.index, NameOf(shown), false) {
      if before != NEW_ENTRY {
        SameName(s, idx, e);
      }
    } else {
      var after := if IsOriginal(e, name) then WithoutNameChange(e) else WithName(e, name);
      NewIndexIsProper(s.index, idx, OldString(e), shown);
      NotTaken(s, NameOf(shown));
      if before == NEW_ENTRY {
        NewEntryFollows(s.index, idx, shown);
      } else {
        assert NameIn(before, false) == Some(NameOf(OldString(e)));
        NewIndexFollows(s.index, idx, OldString(e), shown);
      }
      OneEntryChanged(s, idx, after, NewIndex(s.index, idx, OldString(e), shown));
    }
  }

  lemma NotTaken(s: State, name: Name)
    requires CanAdd(s.index, name, false)
    ensures Lookup(s.index, name, false) == -1
  {
  }

  lemma NewEntryFollows(index: Index, idx: nat, after: Stored)
    requires CanAdd(index, NameOf(after), false)
    ensures Follows(index, NewIndex(index, idx, None, after), idx, None, Some(NameOf(after)))
  {
  }

  lemma SetNameIsGood(s: State, idx: nat, name: Option<Name>, announced: Announced)
    requires Good(s) && idx < |s.entries| && Nameable(s.entries[idx])
    requires Current(s.entries[idx]) != Some(None) || Located(s.index, name, Guess) == idx
    ensures SetName(s, idx, name, announced).1.Done? || s.entries[idx] != NEW_ENTRY ==>
              Good(SetName(s, idx, name, announced).0)
    ensures SetName(s, idx, name, announced).1.Failed? ==> SetName(s, idx, name, announced).0.index == s.index
  {
    hide PutName, Located, NewString;
    var stored, i := NewString(name, announced), Located(s.index, name, Guess);
    if stored.Some? && i < 0 {
      PutNameIsGood(s, idx, stored.value);
    }
  }

  // A successful renaming from the empty name keeps the empty name in the index, which then disagrees.
  lemma StaleNameRemains(s: State, idx: nat, name: Option<Name>, announced: Announced)
    requires Good(s) && LeavesStale(s, idx, name, announced)
    ensures !ViewAgrees(Rename(s, idx, name, announced).0, false)
  {
    hide NewString, Located, Equal, Consistent;
    StaleIsRenamed(s, idx, name, announced);
    var e, t := s.entries[idx], Rename(s, idx, name, announced).0;
    var stored, i := NewString(name, announced).value, Located(s.index, name, Guess);
    assert NameIn(e, false) == Some([]) by {
      assert Text(None) == [];
    }
    assert Lookup(s.index, [], false) == idx;
    RenamedEntry(e, stored);
    var p := Prepared(e, stored);
    var shown := ShownAs(p, stored);
    NotTaken(s, NameOf(shown));
    AddLookups(s.index, NameOf(shown), idx, false, [], false);
    assert t.index == Add(s.index, NameOf(shown), idx, false);
    assert Current(t.entries[idx]) == Some(shown);
    assert Lookup(t.index, [], false) == idx && NameIn(t.entries[idx], false) != Some([]);
  }

  // A renaming keeps the agreement if and only if it is not one that leaves the empty name behind.
  lemma RenameAgrees(s: State, idx: nat, name: Option<Name>, announced: Announced)
    requires Good(s)
    ensures Good(Rename(s, idx, name, announced).0) <==> !LeavesStale(s, idx, name, announced)
  {
    hide SetName, Located, IsDirectory;
    if LeavesStale(s, idx, name, announced) {
      StaleNameRemains(s, idx, name, announced);
    } else if idx < |s.entries| && Current(s.entries[idx]) == Some(None) && Located(s.index, name, Guess) != idx {
      StaleIsRenamed(s, idx, name, announced);
      EmptyRenameFails(s, idx, name, announced);
    } else if idx < |s.entries| && Current(s.entries[idx]).Some? {
      SetNameIsGood(s, idx, name, announced);
    }
  }

  lemma ConsistentAt(s: State, idx: nat)
    requires Good(s) && idx < |s.entries|
    ensures Consistent(s.entries[idx])
  {
  }

  // A renaming that fails leaves at most an unflagged copy of the dirent.
  lemma EmptyRenameFails(s: State, idx: nat, name: Option<Name>, announced: Announced)
    requires Good(s) && idx < |s.entries| && Current(s.entries[idx]).Some?
    requires Rename(s, idx, name, announced).1.Failed?
    ensures Good(Rename(s, idx, name, announced).0)
  {
    hide NewString, Located, Equal, IsDirectory, Consistent, NameOf, CanAdd, Good, NewIndex, IsOriginal, Prepared,
         WithName, WithoutNameChange;
    var e := s.entries[idx];
    ConsistentAt(s, idx);
    var stored := NewString(name, announced);
    if stored.Some? {
      RenamedEntry(e, stored.value);
      SameName(s, idx, Prepared(e, stored.value));
    }
    assert s.entries[idx := e] == s.entries;
  }

  // --- the other edits ---

  lemma DeleteAgrees(s: State, idx: nat)
    requires Good(s)
    ensures Good(DeleteEntry(s, idx).0)
  {
    hide NameOf, Delete, Lookup, Proper;
    if idx < |s.entries| && Current(s.entries[idx]).Some? {
      var name := CurrentName(s.entries[idx]).value;
      var after := Reset(s.entries[idx]).(deleted := true);
      forall n, view
        ensures Lookup(Delete(s.index, name), n, view) == if n == name && !view then -1 else Lookup(s.index, n, view)
      {
        DeleteLookups(s.index, name, n, view);
      }
      DeleteKeepsProper(s.index, name);
      OneEntryChanged(s, idx, after, Delete(s.index, name));
    }
  }

  // Undoing the renaming or deletion of an entry that has an original name puts that name back.
  lemma UnchangeAgrees(s: State, idx: nat)
    requires Good(s)
    ensures Good(Unchange(s, idx).0)
  {
    hide NameOf, Located, Delete, Add, CanAdd, Lookup, Proper;
    if idx < |s.entries| {
      var e := s.entries[idx];
      assert NameIn(e, false) == CurrentName(e);
      if !Renamed(e) && !e.deleted {
        SameName(s, idx, Reset(e));
      } else if Unchange(s, idx).1.Done? {
        UnchangeFollows(s, idx);
        OneEntryChanged(s, idx, Reset(e), Unchange(s, idx).0.index);
      } else {
        UnchangeFindsName(s, idx);
      }
    }
  }

  lemma UnchangeFollows(s: State, idx: nat)
    requires Good(s) && idx < |s.entries| && (Renamed(s.entries[idx]) || s.entries[idx].deleted)
    requires Unchange(s, idx).1.Done?
    ensures var e, index := s.entries[idx], Unchange(s, idx).0.index;
            && Follows(s.index, index, idx, CurrentName(e), OriginalName(e)) && Proper(index)
            && (OriginalName(e).Some? ==> Lookup(s.index, OriginalName(e).value, false) == -1)
  {
    hide NameOf, Located, Delete, Add, CanAdd, Lookup, Proper;
    var e, t := s.entries[idx], Unchange(s, idx).0;
    var added := if e.orig.Some? then Add(s.index, OriginalName(e).value, idx, false) else s.index;
    if e.orig.Some? {
      var name := OriginalName(e).value;
      AddKeepsProper(s.index, name, idx, false);
      NotTaken(s, name);
      forall n, view
        ensures Lookup(added, n, view) == if n == name && !view then idx else Lookup(s.index, n, view)
      {
        AddLookups(s.index, name, idx, false, n, view);
      }
    }
    if Renamed(e) {
      var name := CurrentName(e).value;
      assert NameIn(e, false) == Some(name);
      DeleteKeepsProper(added, name);
      forall n, view
        ensures Lookup(t.index, n, view) == if n == name && !view then -1 else Lookup(added, n, view)
      {
        DeleteLookups(added, name, n, view);
      }
    }
  }

  // The current name of a renamed entry is in the index, so it is found when it is to be removed.
  lemma UnchangeFindsName(s: State, idx: nat)
    requires Good(s) && idx < |s.entries| && Unchange(s, idx).1.Failed?
    ensures Unchange(s, idx).0 == s
  {
    hide NameOf, Located, CanAdd, Delete;
    var e := s.entries[idx];
    assert NameIn(e, false) == CurrentName(e);
    assert CurrentName(e).Some? ==> Lookup(s.index, CurrentName(e).value, false) == idx;
  }

  lemma ReplaceDataAgrees(s: State, idx: nat, source: nat)
    requires Good(s) && idx < |s.entries|
    ensures Good(ReplaceData(s, idx, source).0)
  {
    hide NameOf;
    if Current(s.entries[idx]).Some? {
      SameName(s, idx, ReplaceData(s, idx, source).0.entries[idx]);
    }
  }

  lemma NewEntryAgrees(s: State)
    requires Good(s)
    ensures Good(s.(entries := s.entries + [NEW_ENTRY]))
  {
    hide NameOf, Lookup;
    var t := s.(entries := s.entries + [NEW_ENTRY]);
    forall i, view | 0 <= i < |t.entries| && NameIn(t.entries[i], view).Some?
      ensures Lookup(t.index, NameIn(t.entries[i], view).value, view) == i
    {
      assert i < |s.entries| && NameIn(s.entries[i], view) == NameIn(t.entries[i], view);
    }
    forall n, view | Lookup(t.index, n, view) != -1
      ensures 0 <= Lookup(t.index, n, view) < |t.entries|
      ensures NameIn(t.entries[Lookup(t.index, n, view)], view) == Some(n)
    {
      assert Lookup(s.index, n, view) == Lookup(t.index, n, view);
      assert NameIn(s.entries[Lookup(s.index, n, view)], view) == Some(n);
    }
  }

  // What an announced name is looked up as is not empty unless the name is.
  lemma KeyIsNotEmpty(name: Name, encoding: StringEncoding.Encoding)
    requires name != [] && 0 !in name
    ensures NameOf(Some(ZipString(name, encoding))) != []
  {
    assert name[0] in name;
    Cp437.NotZero(name[0]);
    var c := Cp437.Characters(name);
    assert Utf8.EncodeOne(c[0])[0] != 0;
    assert Utf8.Encode(c)[0] == Utf8.EncodeOne(c[0])[0];
  }

  // The entry to overwrite has a name, and not the empty one unless that is what was looked for.
  lemma OverwriteTarget(s: State, name: Name, announced: Announced)
    requires Good(s) && 0 !in name && Located(s.index, Some(name), announced) >= 0
    ensures var i := Located(s.index, Some(name), announced);
            && i < |s.entries| && Current(s.entries[i]).Some?
            && (Current(s.entries[i]) == Some(None) ==> Located(s.index, Some(name), Guess) == i)
  {
    hide NameOf, Lookup, CString;
    var i := Located(s.index, Some(name), announced);
    var key := if announced == Utf8 || name == [] then CString(name) else NameOf(New(name, announced).value);
    assert NameIn(s.entries[i], false) == Some(key);
    NameOfEmpty();
    if name != [] {
      KeyIsNotEmpty(name, StringEncoding.Unknown);
      KeyIsNotEmpty(name, StringEncoding.Cp437);
      WholeCString(name);
    }
  }

  lemma NameOfEmpty()
    ensures NameOf(None) == []
  {
    assert Text(None) == [];
  }

  lemma {:induction false} WholeCString(name: Name)
    requires 0 !in name
    ensures CString(name) == name
  {
    if name != [] {
      WholeCString(name[1..]);
    }
  }

  lemma SetNameTouchesOne(s: State, idx: nat, name: Option<Name>, announced: Announced)
    requires idx < |s.entries|
    ensures forall i :: 0 <= i < |s.entries| && i != idx ==>
              SetName(s, idx, name, announced).0.entries[i] == s.entries[i]
  {
    hide Located, NewString, Prepared, WithName, WithoutNameChange;
  }

  // Adding, with or without overwriting, keeps the agreement, and changes no name if it fails.
  lemma AddAgrees(s: State, name: Name, source: nat, overwrite: bool, announced: Announced)
    requires Good(s) && 0 !in name
    ensures Good(FileAdd(s, name, source, overwrite, announced).0)
    ensures FileAdd(s, name, source, overwrite, announced).1.Failed? ==>
              FileAdd(s, name, source, overwrite, announced).0.index == s.index
  {
    hide SetName, ReplaceData, Located, Good;
    var i := if overwrite then Located(s.index, Some(name), announced) else -1;
    if i < 0 {
      AddNewAgrees(s, name, source, announced);
    } else {
      OverwriteTarget(s, name, announced);
      SetNameIsGood(s, i, Some(name), announced);
      var t := SetName(s, i, Some(name), announced);
      assert t.0.entries[..|s.entries|] == t.0.entries;
      if t.1.Done? {
        ReplaceDataAgrees(t.0, i, source);
        SetNameKeepsCurrent(s, i, Some(name), announced);
        ReplaceDataWorks(t.0, i, source);
      }
    }
  }

  lemma SetNameKeepsCurrent(s: State, idx: nat, name: Option<Name>, announced: Announced)
    requires Good(s) && idx < |s.entries| && Nameable(s.entries[idx])
    requires SetName(s, idx, name, announced).1.Done?
    requires Current(s.entries[idx]).Some? || Located(s.index, name, Guess) != idx
    ensures Current(SetName(s, idx, name, announced).0.entries[idx]).Some?
  {
    hide Located, NewString, Equal;
    if Located(s.index, name, Guess) < 0 {
      RenamedEntry(s.entries[idx], NewString(name, announced).value);
    }
  }

  lemma ReplaceDataWorks(s: State, idx: nat, source: nat)
    requires idx < |s.entries| && Current(s.entries[idx]).Some?
    ensures ReplaceData(s, idx, source).1 == Done(idx) && ReplaceData(s, idx, source).0.index == s.index
    ensures ReplaceData(s, idx, source).0.entries[idx].source == Some(source)
  {
  }

  // A new entry that cannot be named is taken back altogether.
  lemma AddNewAgrees(s: State, name: Name, source: nat, announced: Announced)
    requires Good(s)
    ensures var before := s.(entries := s.entries + [NEW_ENTRY]);
            var (t, outcome) := SetName(before, |s.entries|, Some(name), announced);
            if outcome.Done? then
              Good(ReplaceData(t, |s.entries|, source).0) && ReplaceData(t, |s.entries|, source).1.Done?
            else t.(entries := t.entries[..|s.entries|]) == s
  {
    hide SetName, ReplaceData, Located, Good;
    var before, idx := s.(entries := s.entries + [NEW_ENTRY]), |s.entries|;
    NewEntryAgrees(s);
    var t := SetName(before, idx, Some(name), announced);
    NotLocatedNew(s, Some(name));
    SetNameIsGood(before, idx, Some(name), announced);
    SetNameTouchesOne(before, idx, Some(name), announced);
    if t.1.Done? {
      ReplaceDataAgrees(t.0, idx, source);
      SetNameKeepsCurrent(before, idx, Some(name), announced);
      ReplaceDataWorks(t.0, idx, source);
    } else {
      assert t.0.entries[..idx] == s.entries;
    }
  }

  lemma NotLocatedNew(s: State, name: Option<Name>)
    requires Good(s)
    ensures Located(s.index, name, Guess) < |s.entries|
  {
    hide NameOf, Lookup, CString;
  }
}
