// What counts as a change of an archive, and what each edit does to the entry it is about, told by names and fields.
module EntryChanges {
  import opened Bytes
  import opened NameMap
  import opened ZipString
  import opened ArchiveState
  import opened NameAgreement
  import opened EditRuns
  import A = ArchiveState
  import StringEncoding
  import Utf8

  // An entry that closing has to write: it is deleted, or has new data, or another name than in the archive.
  predicate Differs(e: Entry) {
    || e.deleted || e.source.Some?
    || (Current(e).Some? && (e.orig.None? || !Equal(e.orig.value.filename, Current(e).value)))
  }

  // The flags of a changed copy say what differs.
  predicate Flagged(e: Entry) {
    e.changes.Some? ==>
      && (e.changes.value.nameChanged <==> e.orig.None? || !Equal(e.orig.value.filename, e.changes.value.filename))
      && (e.changes.value.fieldsChanged ==> e.source.Some?)
  }

  ghost predicate AllFlagged(entries: seq<Entry>) {
    forall i :: 0 <= i < |entries| ==> Flagged(entries[i]) && Consistent(entries[i])
  }

  lemma EqualToItself(s: Stored)
    ensures Equal(s, s)
  {
  }

  lemma FlagsTell(e: Entry)
    requires Flagged(e) && Consistent(e)
    ensures HasChanges(e) <==> Differs(e)
  {
    if e.orig.Some? {
      EqualToItself(e.orig.value.filename);
    }
  }

  // --- the flags stay right ---

  lemma NamedFlags(e: Entry, name: Stored)
    requires Flagged(e) && Consistent(e) && Nameable(e)
    ensures var p := Prepared(e, name);
            && (e != NEW_ENTRY ==> Flagged(p) && Consistent(p))
            && (IsOriginal(p, name) ==> Flagged(WithoutNameChange(p)) && Consistent(WithoutNameChange(p)))
            && (!IsOriginal(p, name) ==> Flagged(WithName(p, name)) && Consistent(WithName(p, name)))
  {
    if e.orig.Some? {
      EqualToItself(e.orig.value.filename);
    }
    hide Equal;
    RenamedEntry(e, name);
  }

  lemma SetNameKeepsFlags(s: State, idx: nat, name: Option<Name>, announced: Announced)
    requires AllFlagged(s.entries) && (idx < |s.entries| ==> Nameable(s.entries[idx]))
    ensures || AllFlagged(SetName(s, idx, name, announced).0.entries)
            || (idx < |s.entries| && s.entries[idx] == NEW_ENTRY && SetName(s, idx, name, announced).1.Failed?)
  {
    hide Located, NewString, Flagged, Consistent, NameOf, CanAdd, NewIndex, Equal, Prepared, WithName,
         WithoutNameChange;
    var stored := NewString(name, announced);
    if idx < |s.entries| && stored.Some? {
      NamedFlags(s.entries[idx], stored.value);
    }
  }

  lemma EditKeepsFlags(s: State, edit: Edit)
    requires AllFlagged(s.entries) && Good(s)
    ensures AllFlagged(Apply(s, edit).entries)
  {
    hide NameOf, Located, SetName, NewString, IsDirectory;
    match edit {
      case RenameEntry(idx, name, announced) =>
        if idx < |s.entries| && Current(s.entries[idx]).Some? {
          NotNew(s.entries[idx]);
          SetNameKeepsFlags(s, idx, name, announced);
        }
      case AddFile(name, source, overwrite, announced) =>
        AddKeepsFlags(s, name, source, overwrite, announced);
      case ReplaceFile(idx, source) =>
        if idx < |s.entries| {
          ReplaceKeepsFlags(s, idx, source);
        }
      case _ =>
    }
  }

  lemma NotNew(e: Entry)
    requires Current(e).Some?
    ensures e != NEW_ENTRY
  {
  }

  lemma ReplaceKeepsFlags(s: State, idx: nat, source: nat)
    requires AllFlagged(s.entries) && idx < |s.entries|
    ensures AllFlagged(ReplaceData(s, idx, source).0.entries)
  {
    if s.entries[idx].orig.Some? {
      EqualToItself(s.entries[idx].orig.value.filename);
    }
  }

  lemma AddKeepsFlags(s: State, name: Name, source: nat, overwrite: bool, announced: Announced)
    requires AllFlagged(s.entries) && Good(s) && 0 !in name
    ensures AllFlagged(FileAdd(s, name, source, overwrite, announced).0.entries)
  {
    hide Located, SetName, ReplaceData, Flagged, Consistent, Good, Current;
    var i := if overwrite then Located(s.index, Some(name), announced) else -1;
    var idx := if i < 0 then |s.entries| else i;
    var before := if i < 0 then s.(entries := s.entries + [NEW_ENTRY]) else s;
    NewIsFlagged();
    if i >= 0 {
      OverwriteTarget(s, name, announced);
      NotNew(s.entries[i]);
    }
    SetNameKeepsFlags(before, idx, Some(name), announced);
    SetNameTouchesOne(before, idx, Some(name), announced);
    var (after, outcome) := SetName(before, idx, Some(name), announced);
    if outcome.Done? {
      ReplaceKeepsFlags(after, idx, source);
    }
  }

  lemma NewIsFlagged()
    ensures Flagged(NEW_ENTRY) && Consistent(NEW_ENTRY)
  {
  }

  lemma {:induction false} RunKeepsFlags(s: State, edits: seq<Edit>)
    requires AllFlagged(s.entries) && Good(s) && NeverStale(s, edits)
    ensures AllFlagged(Run(s, edits).entries)
    decreases |edits|
  {
    hide AllFlagged, Apply, Good, Stale;
    if edits != [] {
      EditKeepsFlags(s, edits[0]);
      EditAgrees(s, edits[0]);
      RunKeepsFlags(Apply(s, edits[0]), edits[1..]);
    }
  }

  // After any run of edits, the archive counts as changed if and only if some entry is deleted, has new data, or has
  // another name than in the archive.
  lemma ChangedExactly(originals: seq<Original>, edits: seq<Edit>)
    requires Distinct(Names(originals)) && NeverStale(Opened(originals), edits)
    ensures var t := Run(Opened(originals), edits);
            Changed(t.entries) <==> exists i :: 0 <= i < |t.entries| && Differs(t.entries[i])
  {
    hide Run, HasChanges, Differs, Flagged, Good, NeverStale, Distinct;
    var t := Run(Opened(originals), edits);
    OpenedIsFlagged(originals);
    OpenAgrees(originals);
    RunKeepsFlags(Opened(originals), edits);
    forall i | 0 <= i < |t.entries|
      ensures HasChanges(t.entries[i]) <==> Differs(t.entries[i])
    {
      FlagsTell(t.entries[i]);
    }
  }

  lemma OpenedIsFlagged(originals: seq<Original>)
    ensures AllFlagged(Opened(originals).entries)
  {
  }

  // --- what each edit does to its entry ---

  ghost predicate OthersStay(s: State, t: State, idx: nat) {
    forall i :: 0 <= i < |s.entries| && i != idx ==> i < |t.entries| && t.entries[i] == s.entries[i]
  }

  // A successful renaming that was not to the name the entry has gives it that name, and nothing else.
  lemma RenameGivesName(s: State, idx: nat, name: Option<Name>, announced: Announced)
    requires Good(s) && A.Rename(s, idx, name, announced).1.Done? && Located(s.index, name, Guess) != idx
    ensures idx < |s.entries| && NewString(name, announced).Some?
    ensures var t, e := A.Rename(s, idx, name, announced).0, s.entries[idx];
            && |t.entries| == |s.entries| && OthersStay(s, t, idx)
            && t.entries[idx].orig == e.orig && t.entries[idx].source == e.source && t.entries[idx].deleted == e.deleted
            && Current(t.entries[idx]).Some? && Equal(Current(t.entries[idx]).value, NewString(name, announced).value)
            && (CurrentName(t.entries[idx]) != OriginalName(e) ==> Changed(t.entries))
  {
    hide NameOf, Located, IsDirectory, NewString;
    var e, stored := s.entries[idx], NewString(name, announced).value;
    RenamedEntry(e, stored);
    EqualToItself(stored);
    var t := A.Rename(s, idx, name, announced).0;
    UnchangedMeans(t.entries[idx]);
    assert CurrentName(t.entries[idx]) != OriginalName(e) ==> HasChanges(t.entries[idx]);
  }

  // An entry of the archive that has no changes has its name, no new data, and is not deleted.
  lemma UnchangedMeans(e: Entry)
    requires Consistent(e)
    ensures !HasChanges(e) && e.orig.Some? ==> CurrentName(e) == OriginalName(e) && e.source.None? && !e.deleted
  {
    hide NameOf;
  }

  // A deleted entry, new or not, is marked so, has no name or data, and cannot be found.
  lemma DeleteMarks(s: State, idx: nat)
    requires Good(s) && A.DeleteEntry(s, idx).1.Done?
    ensures idx < |s.entries| && CurrentName(s.entries[idx]).Some?
    ensures var t := A.DeleteEntry(s, idx).0;
            && |t.entries| == |s.entries| && OthersStay(s, t, idx) && Changed(t.entries)
            && t.entries[idx].deleted && t.entries[idx].orig == s.entries[idx].orig
            && CurrentName(t.entries[idx]).None? && t.entries[idx].source.None?
            && Lookup(t.index, CurrentName(s.entries[idx]).value, false) == -1
  {
    hide NameOf;
    var t := A.DeleteEntry(s, idx).0;
    DeleteLookups(s.index, CurrentName(s.entries[idx]).value, CurrentName(s.entries[idx]).value, false);
    assert HasChanges(t.entries[idx]);
  }

  // New data is there, and the name stays.
  lemma ReplaceGivesData(s: State, idx: nat, source: nat)
    requires A.FileReplace(s, idx, source).1.Done?
    ensures idx < |s.entries|
    ensures var t := A.FileReplace(s, idx, source).0;
            && |t.entries| == |s.entries| && OthersStay(s, t, idx) && t.index == s.index && Changed(t.entries)
            && t.entries[idx].source == Some(source) && !t.entries[idx].deleted
            && Current(t.entries[idx]) == Current(s.entries[idx]) && t.entries[idx].orig == s.entries[idx].orig
  {
    var t := A.FileReplace(s, idx, source).0;
    assert HasChanges(t.entries[idx]);
  }

  // Adding gives an entry of that name with the data, the last one or the one that had the name.
  lemma AddGivesEntry(s: State, name: Name, source: nat, overwrite: bool, announced: Announced)
    requires Good(s) && 0 !in name && A.FileAdd(s, name, source, overwrite, announced).1.Done?
    ensures var (t, outcome) := A.FileAdd(s, name, source, overwrite, announced);
            var i := if overwrite then Located(s.index, Some(name), announced) else -1;
            && outcome.index == (if i < 0 then |s.entries| else i) && outcome.index < |t.entries|
            && |t.entries| == (if i < 0 then |s.entries| + 1 else |s.entries|)
            && OthersStay(s, t, outcome.index) && Changed(t.entries)
            && var e := t.entries[outcome.index];
               && e.source == Some(source) && !e.deleted && Current(e).Some?
               && (i < 0 ==> NewString(Some(name), announced).Some? && Current(e) == NewString(Some(name), announced))
  {
    hide NameOf, Located, NewString, Equal, CanAdd, NewIndex, Good;
    var (t, outcome) := A.FileAdd(s, name, source, overwrite, announced);
    var i := if overwrite then Located(s.index, Some(name), announced) else -1;
    var before := if i < 0 then s.(entries := s.entries + [NEW_ENTRY]) else s;
    if i >= 0 {
      OverwriteTarget(s, name, announced);
    } else {
      NewIsNotFound(s, name);
    }
    SetNameTouchesOne(before, outcome.index, Some(name), announced);
    assert HasChanges(t.entries[outcome.index]);
  }

  lemma NewIsNotFound(s: State, name: Name)
    requires Good(s)
    ensures Located(s.index, Some(name), Guess) < |s.entries|
  {
    hide NameOf, CString;
  }

  // Undoing gives an entry of the archive its name back, without changes.
  lemma UnchangeGivesOriginal(s: State, idx: nat)
    requires Good(s) && A.Unchange(s, idx).1.Done?
    ensures idx < |s.entries|
    ensures var t := A.Unchange(s, idx).0;
            && |t.entries| == |s.entries| && OthersStay(s, t, idx) && t.entries[idx].orig == s.entries[idx].orig
            && CurrentName(t.entries[idx]) == OriginalName(s.entries[idx]) && !HasChanges(t.entries[idx])
            && t.entries[idx].source.None?
  {
    hide NameOf, Located, Add, Delete, CanAdd;
  }

  // --- what a new name is stored as (lib/zip_set_name.c:60-76) ---

  // A name whose encoding is guessed is kept as it is; it counts as known to be UTF-8 if and only if it is well formed
  // and not all of it is 7-bit.
  lemma GuessedNameStored(name: Name)
    requires name != [] && |name| <= UINT16_MAX
    ensures var stored := NewString(Some(name), Guess);
            && stored.Some? && stored.value.Some? && stored.value.value.raw == name
            && var encoding := stored.value.value.encoding;
               && (encoding.Utf8Known? <==> Utf8.WellFormed(name) && !StringEncoding.AllAscii(name))
               && (encoding.Ascii? <==> StringEncoding.PlainAscii(name))
               && (encoding.Cp437? <==>
                   !StringEncoding.PlainAscii(name) && (StringEncoding.AllAscii(name) || !Utf8.WellFormed(name)))
  {
    hide Utf8.WellFormed;
  }

  // A name announced as UTF-8 is refused if and only if it is not well formed, one announced as code page 437 never.
  lemma AnnouncedNameStored(name: Name)
    requires name != [] && |name| <= UINT16_MAX
    ensures NewString(Some(name), Announced.Utf8) ==
            if Utf8.WellFormed(name) then Some(Some(ZipString(name, StringEncoding.Utf8Known))) else None
    ensures NewString(Some(name), Announced.Cp437) == Some(Some(ZipString(name, StringEncoding.Cp437)))
  {
    hide Utf8.WellFormed;
  }

  // The empty name is stored as no string, and one that is too long for a header not at all.
  lemma OtherNamesStored(name: Name, announced: Announced)
    ensures NewString(None, announced) == Some(None) && NewString(Some([]), announced) == Some(None)
    ensures |name| > UINT16_MAX ==> NewString(Some(name), announced) == None
  {
  }

  // --- renaming and directories ---

  predicate EndsInSlash(name: Name) {
    name != [] && name[|name| - 1] == 0x2F
  }

  // A renaming succeeds only between names of directories, or between names of files.
  lemma RenameKeepsKind(s: State, idx: nat, name: Option<Name>, announced: Announced)
    requires A.Rename(s, idx, name, announced).1.Done?
    ensures idx < |s.entries| && CurrentName(s.entries[idx]).Some?
    ensures (name.Some? && EndsInSlash(name.value)) == EndsInSlash(CurrentName(s.entries[idx]).value)
  {
    hide NameOf, SetName;
  }

  // A name that another entry is found under is refused, and an entry that has no dirent now can be neither renamed,
  // deleted, nor given data.
  lemma Refusals(s: State, idx: nat, name: Option<Name>, announced: Announced, source: nat)
    ensures var i := Located(s.index, name, Guess); i >= 0 && i != idx ==> A.Rename(s, idx, name, announced).1.Failed?
    ensures idx >= |s.entries| || Current(s.entries[idx]).None? ==>
              && A.Rename(s, idx, name, announced).1.Failed? && A.DeleteEntry(s, idx).1.Failed?
              && A.FileReplace(s, idx, source).1.Failed?
  {
    hide NameOf, Located, NewString, PutName, IsDirectory;
  }

  lemma NamedIsStored(name: Option<Name>, announced: Announced)
    requires name.Some? && name.value != []
    ensures NewString(name, announced).Some? ==> NewString(name, announced).value.Some?
  {
  }

  // Renaming an unmodified entry, and then back to the string it had, gives the archive as it was.
  lemma RenameBack(s: State, idx: nat, name: Option<Name>, announced: Announced, back: Option<Name>,
      announced': Announced)
    requires Good(s) && idx < |s.entries| && Unmodified(s.entries[idx])
    requires A.Rename(s, idx, name, announced).1.Done? && Located(s.index, name, Guess) != idx
    requires var t := A.Rename(s, idx, name, announced).0;
             A.Rename(t, idx, back, announced').1.Done? && Located(t.index, back, Guess) != idx
    requires s.entries[idx].orig.value.filename.Some? && name.Some? && name.value != []
    requires NewString(back, announced').Some?
    requires Equal(s.entries[idx].orig.value.filename, NewString(back, announced').value)
    ensures A.Rename(A.Rename(s, idx, name, announced).0, idx, back, announced').0 == s
  {
    hide NameOf, Located, NewString, IsDirectory, Equal;
    NamedIsStored(name, announced);
    var e, t := s.entries[idx], A.Rename(s, idx, name, announced).0;
    var u := A.Rename(t, idx, back, announced').0;
    var before, stored := OriginalName(e).value, NewString(name, announced).value;
    assert NameIn(e, true) == NameIn(e, false) == Some(before);
    assert s.index[before] == Slot(idx, idx);
    var now := NameOf(ShownAs(e, stored));
    assert CanAdd(s.index, now, false) && now != before;
    assert t.entries[idx].changes == Some(EditedDirent(stored, true, false)) && !IsOriginal(e, stored);
    assert u.entries[idx] == e && u.entries == s.entries;
    assert t.index == Delete(Add(s.index, now, idx, false), before);
    assert u.index == Delete(Add(t.index, before, idx, false), now);
    assert u.index == s.index;
  }
}
