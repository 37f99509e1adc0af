// Runs of edits on an archive: agreement of the index is kept, and undoing everything restores it.
module EditRuns {
  import opened Bytes
  import opened NameMap
  import opened ZipString
  import opened ArchiveState
  import opened NameAgreement
  import A = ArchiveState
  import StringEncoding
  import U = Utf8
  import Cp437

  type CStr = s: Name | 0 !in s

  datatype Edit =
    | RenameEntry(idx: nat, name: Option<CStr>, announced: Announced)
    | DeleteEntry(idx: nat)
    | UnchangeEntry(idx: nat)
    | UnchangeEverything
    | AddFile(newName: CStr, source: nat, overwrite: bool, announced: Announced)
    | ReplaceFile(idx: nat, source: nat)

  function Apply(s: State, edit: Edit): State {
    match edit
    case RenameEntry(idx, name, announced) => A.Rename(s, idx, name, announced).0
    case DeleteEntry(idx) => A.DeleteEntry(s, idx).0
    case UnchangeEntry(idx) => A.Unchange(s, idx).0
    case UnchangeEverything => A.UnchangeAll(s)
    case AddFile(name, source, overwrite, announced) => A.FileAdd(s, name, source, overwrite, announced).0
    case ReplaceFile(idx, source) => A.FileReplace(s, idx, source).0
  }

  function Run(s: State, edits: seq<Edit>): State
    decreases |edits|
  {
    if edits == [] then s else Run(Apply(s, edits[0]), edits[1..])
  }

  predicate Stale(s: State, edit: Edit) {
    edit.RenameEntry? && LeavesStale(s, edit.idx, edit.name, edit.announced)
  }

  // No step of the run renames an entry from the empty name.
  predicate NeverStale(s: State, edits: seq<Edit>)
    decreases |edits|
  {
    edits == [] || (!Stale(s, edits[0]) && NeverStale(Apply(s, edits[0]), edits[1..]))
  }

  lemma UnchangeAllKeepsOriginals(s: State)
    requires Proper(s.index) && ViewAgrees(s, true)
    ensures Good(A.UnchangeAll(s))
  {
    hide NameOf, Revert, Lookup, Proper;
    var t := A.UnchangeAll(s);
    RevertIsProper(s.index);
    forall n, view
      ensures Lookup(t.index, n, view) == Lookup(s.index, n, true)
    {
      RevertLookups(s.index, n, view);
    }
    forall i, view | 0 <= i < |s.entries|
      ensures NameIn(t.entries[i], view) == NameIn(s.entries[i], true)
    {
    }
    forall view: bool
      ensures ViewAgrees(t, view)
    {
    }
  }

  lemma RevertIsProper(m: Index)
    requires Proper(m)
    ensures Proper(Revert(m))
  {
  }

  // One edit keeps the agreement if and only if it is not such a renaming.
  lemma EditAgrees(s: State, edit: Edit)
    requires Good(s)
    ensures Good(Apply(s, edit)) <==> !Stale(s, edit)
  {
    hide Good, LeavesStale;
    match edit {
      case RenameEntry(idx, name, announced) => RenameAgrees(s, idx, name, announced);
      case DeleteEntry(idx) => DeleteAgrees(s, idx);
      case UnchangeEntry(idx) => UnchangeAgrees(s, idx);
      case UnchangeEverything =>
        GoodOriginals(s);
        UnchangeAllKeepsOriginals(s);
      case AddFile(name, source, overwrite, announced) => AddAgrees(s, name, source, overwrite, announced);
      case ReplaceFile(idx, source) => if idx < |s.entries| { ReplaceDataAgrees(s, idx, source); }
    }
  }

  lemma GoodOriginals(s: State)
    requires Good(s)
    ensures Proper(s.index) && ViewAgrees(s, true)
  {
  }

  // After any run of edits without such a renaming the index agrees with the entries.
  lemma {:induction false} RunAgrees(s: State, edits: seq<Edit>)
    requires Good(s) && NeverStale(s, edits)
    ensures Good(Run(s, edits))
    decreases |edits|
  {
    hide Good, Apply, Stale;
    if edits != [] {
      EditAgrees(s, edits[0]);
      RunAgrees(Apply(s, edits[0]), edits[1..]);
    }
  }

  // --- what UnchangeAll restores, whatever was done before ---

  // Entry i of a later state has the original of entry i before, and later entries have none.
  ghost predicate SameOriginals(s: State, t: State) {
    && |s.entries| <= |t.entries|
    && (forall i :: 0 <= i < |t.entries| ==>
          t.entries[i].orig == if i < |s.entries| then s.entries[i].orig else None)
    && (Proper(s.index) ==> Proper(t.index))
    && forall n :: Lookup(t.index, n, true) == Lookup(s.index, n, true)
  }

  lemma IndexKeepsOriginals(m: Index, name: Name, idx: nat)
    ensures forall n :: Lookup(Add(m, name, idx, false), n, true) == Lookup(m, n, true)
    ensures forall n :: Lookup(Delete(m, name), n, true) == Lookup(m, n, true)
    ensures Proper(m) ==> Proper(Add(m, name, idx, false)) && Proper(Delete(m, name))
  {
    forall n
      ensures Lookup(Delete(m, name), n, true) == Lookup(m, n, true)
    {
      DeleteLookups(m, name, n, true);
    }
  }

  lemma SetNameKeepsOriginals(s: State, idx: nat, name: Option<Name>, announced: Announced)
    ensures SameOriginals(s, SetName(s, idx, name, announced).0)
  {
    hide NameOf, Lookup, Located, NewString, Equal, Add, Delete, Proper, CanAdd;
    var stored, i := NewString(name, announced), Located(s.index, name, Guess);
    if idx < |s.entries| && stored.Some? && i < 0 {
      var e := Prepared(s.entries[idx], stored.value);
      var shown := ShownAs(e, stored.value);
      IndexKeepsOriginals(s.index, NameOf(shown), idx);
      IndexKeepsOriginals(Add(s.index, NameOf(shown), idx, false), NameOf(OldString(e)), idx);
    }
  }

  lemma EditKeepsOriginals(s: State, edit: Edit)
    ensures SameOriginals(s, Apply(s, edit))
  {
    hide NameOf, Lookup, Located, SetName, Add, Delete, Revert, Proper, CanAdd;
    match edit {
      case RenameEntry(idx, name, announced) => SetNameKeepsOriginals(s, idx, name, announced);
      case DeleteEntry(idx) =>
        if idx < |s.entries| && Current(s.entries[idx]).Some? {
          IndexKeepsOriginals(s.index, CurrentName(s.entries[idx]).value, 0);
        }
      case UnchangeEntry(idx) =>
        if idx < |s.entries| {
          var e := s.entries[idx];
          var added := if e.orig.Some? then Add(s.index, OriginalName(e).value, idx, false) else s.index;
          if e.orig.Some? {
            IndexKeepsOriginals(s.index, OriginalName(e).value, idx);
            IndexKeepsOriginals(added, OriginalName(e).value, idx);
          }
          if Renamed(e) {
            IndexKeepsOriginals(added, CurrentName(e).value, 0);
          }
        }
      case UnchangeEverything =>
        forall n
          ensures Lookup(Revert(s.index), n, true) == Lookup(s.index, n, true)
        {
          RevertLookups(s.index, n, true);
        }
        if Proper(s.index) {
          RevertIsProper(s.index);
        }
      case AddFile(name, source, overwrite, announced) =>
        var i := if overwrite then Located(s.index, Some(name), announced) else -1;
        var idx := if i < 0 then |s.entries| else i;
        var before := if i < 0 then s.(entries := s.entries + [NEW_ENTRY]) else s;
        SetNameKeepsOriginals(before, idx, Some(name), announced);
      case ReplaceFile(idx, source) =>
    }
  }

  lemma {:induction false} RunKeepsOriginals(s: State, edits: seq<Edit>)
    ensures SameOriginals(s, Run(s, edits))
    decreases |edits|
  {
    hide Apply, Lookup, Proper;
    if edits != [] {
      EditKeepsOriginals(s, edits[0]);
      RunKeepsOriginals(Apply(s, edits[0]), edits[1..]);
    }
  }

  lemma SameOriginalsAgree(s: State, t: State)
    requires ViewAgrees(s, true) && Proper(s.index) && SameOriginals(s, t)
    ensures ViewAgrees(t, true) && Proper(t.index)
  {
    hide NameOf, Lookup, Proper;
    forall i | 0 <= i < |t.entries| && NameIn(t.entries[i], true).Some?
      ensures Lookup(t.index, NameIn(t.entries[i], true).value, true) == i
    {
      assert NameIn(s.entries[i], true) == NameIn(t.entries[i], true);
    }
    forall n | Lookup(t.index, n, true) != -1
      ensures 0 <= Lookup(t.index, n, true) < |t.entries|
      ensures NameIn(t.entries[Lookup(t.index, n, true)], true) == Some(n)
    {
      assert NameIn(s.entries[Lookup(s.index, n, true)], true) == Some(n);
    }
  }

  // Undoing everything after any run, even one that left a stale name, gives an unchanged archive whose two
  // views are the same and agree with the entries.
  lemma UnchangeAllRestores(s: State, edits: seq<Edit>)
    requires Proper(s.index) && ViewAgrees(s, true)
    ensures var t := A.UnchangeAll(Run(s, edits));
            && Good(t) && !Changed(t.entries)
            && (forall n :: Lookup(t.index, n, false) == Lookup(t.index, n, true) == Lookup(s.index, n, true))
            && |s.entries| <= |t.entries|
            && forall i :: 0 <= i < |t.entries| ==>
                 t.entries[i] == if i < |s.entries| then Entry(s.entries[i].orig, None, None, false) else NEW_ENTRY
  {
    hide Lookup, Revert, Run;
    var r := Run(s, edits);
    RunKeepsOriginals(s, edits);
    SameOriginalsAgree(s, r);
    UnchangeAllKeepsOriginals(r);
    forall n, view
      ensures Lookup(Revert(r.index), n, view) == Lookup(s.index, n, true)
    {
      RevertLookups(r.index, n, view);
    }
  }

  // --- opening (lib/zip_open.c:234-254) ---

  function Names(originals: seq<Original>): seq<Name> {
    seq(|originals|, i requires 0 <= i < |originals| => NameOf(originals[i].filename))
  }

  // The index after the first count names were added as original names; a name that is there already is skipped.
  function OpenedIndex(names: seq<Name>): Index {
    if names == [] then map[]
    else Add(OpenedIndex(names[..|names| - 1]), names[|names| - 1], |names| - 1, true)
  }

  function Opened(originals: seq<Original>): State {
    State(seq(|originals|, i requires 0 <= i < |originals| => Entry(Some(originals[i]), None, None, false)),
          OpenedIndex(Names(originals)))
  }

  predicate Distinct(names: seq<Name>) {
    forall i, j :: 0 <= i < j < |names| ==> names[i] != names[j]
  }

  function FirstAt(names: seq<Name>, n: Name): (i: int)
    ensures -1 <= i < |names|
    ensures if i == -1 then n !in names else names[i] == n && n !in names[..i]
  {
    if names == [] then -1
    else
      var i := FirstAt(names[..|names| - 1], n);
      if i == -1 && names[|names| - 1] == n then |names| - 1 else i
  }

  // The index covers the first entry of each name.
  lemma {:induction false} OpenedFindsFirst(names: seq<Name>)
    ensures Proper(OpenedIndex(names))
    ensures forall n, view :: Lookup(OpenedIndex(names), n, view) == FirstAt(names, n)
  {
    hide Proper, Lookup;
    if names != [] {
      var before, last := OpenedIndex(names[..|names| - 1]), names[|names| - 1];
      OpenedFindsFirst(names[..|names| - 1]);
      AddKeepsProper(before, last, |names| - 1, true);
      forall n, view
        ensures Lookup(OpenedIndex(names), n, view) == FirstAt(names, n)
      {
        OpenedStep(before, last, |names| - 1, FirstAt(names[..|names| - 1], last), n, view);
      }
    } else {
      NothingFound();
    }
  }

  lemma NothingFound()
    ensures forall n, view :: Lookup(map[], n, view) == -1
    ensures Proper(map[])
  {
  }

  lemma OpenedStep(before: Index, last: Name, idx: nat, first: int, n: Name, view: bool)
    requires Lookup(before, last, false) == first && Lookup(before, last, true) == first
    ensures Lookup(Add(before, last, idx, true), n, view) ==
            if first == -1 && n == last then idx else Lookup(before, n, view)
  {
    if first == -1 {
      AddLookups(before, last, idx, true, n, view);
    }
  }

  lemma NoNamesYet(names: seq<Name>)
    ensures OpenedIndex(names[..0]) == map[]
  {
  }

  // The next name cannot be added if and only if it is a repeated one.
  lemma NextName(names: seq<Name>, i: nat)
    requires i < |names|
    ensures OpenedIndex(names[..i + 1]) == Add(OpenedIndex(names[..i]), names[i], i, true)
    ensures CanAdd(OpenedIndex(names[..i]), names[i], true) <==> names[i] !in names[..i]
    ensures names[i] in names[..i] ==> OpenedIndex(names[..i + 1]) == OpenedIndex(names[..i])
    ensures Distinct(names[..i]) ==> (Distinct(names[..i + 1]) <==> names[i] !in names[..i])
    ensures !Distinct(names[..i + 1]) ==> !Distinct(names)
  {
    hide Proper;
    assert names[..i + 1][..i] == names[..i];
    OpenedFindsFirst(names[..i]);
    assert Lookup(OpenedIndex(names[..i]), names[i], true) == Lookup(OpenedIndex(names[..i]), names[i], false) ==
           FirstAt(names[..i], names[i]);
    CanAddIfNotFound(OpenedIndex(names[..i]), names[i]);
  }

  lemma CanAddIfNotFound(m: Index, name: Name)
    requires Proper(m) && Lookup(m, name, true) == Lookup(m, name, false)
    ensures CanAdd(m, name, true) <==> Lookup(m, name, true) == -1
  {
  }

  // A freshly opened archive is in agreement if and only if no two entries have the same name.
  lemma OpenAgrees(originals: seq<Original>)
    ensures Good(Opened(originals)) <==> Distinct(Names(originals))
  {
    hide NameOf, OpenedIndex, Lookup, Proper;
    var s, names := Opened(originals), Names(originals);
    OpenedFindsFirst(names);
    assert forall i, view :: 0 <= i < |names| ==> NameIn(s.entries[i], view) == Some(names[i]);
    if Distinct(names) {
      forall i | 0 <= i < |names|
        ensures FirstAt(names, names[i]) == i
      {
      }
    } else {
      var i, j :| 0 <= i < j < |names| && names[i] == names[j];
      assert NameIn(s.entries[i], false) == NameIn(s.entries[j], false);
    }
  }

  // From a freshly opened archive without duplicate names, any edits without a stale renaming keep the agreement.
  lemma EditsAfterOpen(originals: seq<Original>, edits: seq<Edit>)
    requires Distinct(Names(originals)) && NeverStale(Opened(originals), edits)
    ensures Good(Run(Opened(originals), edits))
  {
    OpenAgrees(originals);
    RunAgrees(Opened(originals), edits);
  }

  // The renaming of an entry without a name leaves the index wrong: the entry is still found under the empty name.
  lemma EmptyNameCounterexample()
    ensures var s, t := Opened([Original(None)]), A.Rename(Opened([Original(None)]), 0, Some([0x78]), Utf8);
            && Good(s) && t.1 == Done(0) && !Good(t.0)
            && Lookup(t.0.index, [], false) == 0 && CurrentName(t.0.entries[0]) == Some([0x78])
  {
    var s, x := Opened([Original(None)]), ZipString([0x78], StringEncoding.Utf8Known);
    OpenAgrees([Original(None)]);
    NameOfEmpty();
    var names: seq<Name> := [[]];
    assert Names([Original(None)]) == names && names[..0] == [];
    assert s.index == map[[] := Slot(0, 0)];
    KeyIsNotEmpty([0x78], StringEncoding.Unknown);
    assert [0x78][1..] == [];
    assert U.CharLength([0x78]) == 1 && U.WellFormed([0x78]);
    assert NameOf(Some(x)) == [0x78];
    StaleNameRemains(s, 0, Some([0x78]), Utf8);
  }

  // --- undoing one edit ---

  predicate Unmodified(e: Entry) {
    e.orig.Some? && e.changes.None? && e.source.None? && !e.deleted
  }

  // Undoing the deletion of an unmodified entry restores the archive, unless its name, guessed anew, is that of
  // another entry (lib/zip_unchange.c:64-68).
  lemma DeleteThenUnchange(s: State, idx: nat)
    requires Good(s) && idx <= INT64_MAX && idx < |s.entries| && Unmodified(s.entries[idx])
    ensures var deleted := A.DeleteEntry(s, idx).0;
            var i := Located(deleted.index, OriginalName(s.entries[idx]), Guess);
            A.Unchange(deleted, idx) == if i == -1 || i == idx then (s, Done(0)) else (deleted, Failed(Exists))
  {
    hide NameOf, Located;
    var e, name := s.entries[idx], OriginalName(s.entries[idx]).value;
    var deleted := A.DeleteEntry(s, idx).0;
    assert NameIn(e, true) == NameIn(e, false) == Some(name);
    LocatedRange(deleted.index, Some(name), Guess);
    assert s.index[name] == Slot(idx, idx);
    assert Add(deleted.index, name, idx, false) == s.index;
    assert Reset(deleted.entries[idx]) == e && deleted.entries[idx := e] == s.entries;
  }

  lemma LocatedRange(index: Index, name: Option<Name>, announced: Announced)
    requires Proper(index)
    ensures Located(index, name, announced) >= -1
  {
    hide NameOf, CString;
  }

  // Undoing the renaming of an unmodified entry restores the archive under the same condition; an entry whose
  // original name is empty cannot be undone at all.
  lemma RenameThenUnchange(s: State, idx: nat, name: Option<Name>, announced: Announced)
    requires Good(s) && idx < |s.entries| && Unmodified(s.entries[idx])
    requires A.Rename(s, idx, name, announced).1.Done? && Located(s.index, name, Guess) != idx
    ensures var renamed := A.Rename(s, idx, name, announced).0;
            var i := Located(renamed.index, OriginalName(s.entries[idx]), Guess);
            A.Unchange(renamed, idx) ==
              if s.entries[idx].orig.value.filename.Some? && (i == -1 || i == idx) then (s, Done(0))
              else (renamed, Failed(Exists))
  {
    hide NameOf, Located, NewString, IsDirectory, Equal;
    var e, renamed := s.entries[idx], A.Rename(s, idx, name, announced).0;
    var before, stored := OriginalName(e).value, NewString(name, announced).value;
    assert NameIn(e, true) == NameIn(e, false) == Some(before);
    RenameKeepsProper(s, idx, name, announced);
    LocatedRange(renamed.index, Some(before), Guess);
    assert s.index[before] == Slot(idx, idx);
    var shown := ShownAs(e, stored);
    var now := NameOf(shown);
    assert CanAdd(s.index, now, false) && now != before;
    assert !IsOriginal(e, stored);
    assert renamed.entries[idx].changes == Some(EditedDirent(stored, true, false));
    if e.orig.value.filename.Some? {
      assert CanAdd(renamed.index, before, false);
      assert Delete(Add(renamed.index, before, idx, false), now) == s.index;
      assert Reset(renamed.entries[idx]) == e && renamed.entries[idx := e] == s.entries;
    } else {
      assert renamed.index[before].current == idx;
    }
  }

  // A control character that is taken for code page 437 stands for U+263A.
  const CONTROL: Stored := Some(ZipString([0x01], StringEncoding.Utf8Known))
  const SMILEY: Stored := Some(ZipString([0xE2, 0x98, 0xBA], StringEncoding.Utf8Known))

  lemma ControlIsGuessedSmiley()
    ensures NameOf(CONTROL) == [0x01] && NameOf(SMILEY) == [0xE2, 0x98, 0xBA]
    ensures NameOf(Some(ZipString([0x01], StringEncoding.Unknown))) == NameOf(SMILEY)
  {
    hide StringEncoding.Classify, U.Encode, Cp437.Characters;
    var raw: Name, smiley: Name := [0x01], [0xE2, 0x98, 0xBA];
    WholeCString(raw);
    WholeCString(smiley);
    ControlIsGuessed();
    ControlIsSmiley();
  }

  lemma ControlIsGuessed()
    ensures StringEncoding.Classify([0x01], StringEncoding.Unknown) == StringEncoding.Cp437
  {
    var raw: Name := [0x01];
    assert StringEncoding.IsControl(raw[0]);
  }

  lemma ControlIsSmiley()
    ensures U.Encode(Cp437.Characters([0x01])) == [0xE2, 0x98, 0xBA]
  {
    assert U.EncodeOne(0x263A) == [0xE2, 0x98, 0xBA];
    hide U.EncodeOne;
    var c := [Cp437.Unicode(0x01)];
    assert Cp437.Characters([0x01]) == c && c[1..] == [];
    assert U.Encode(c) == U.EncodeOne(0x263A) + U.Encode([]);
  }

  // Two entries with distinct names: neither the deletion nor a renaming of the first can be undone, as its name is
  // guessed to be that of the second.
  lemma UndoRefusedCounterexample()
    ensures var s := Opened([Original(CONTROL), Original(SMILEY)]);
            var deleted, renamed := A.DeleteEntry(s, 0), A.Rename(s, 0, Some([0x78]), Utf8);
            && Good(s) && deleted.1.Done? && renamed.1.Done?
            && A.Unchange(deleted.0, 0) == (deleted.0, Failed(Exists))
            && A.Unchange(renamed.0, 0) == (renamed.0, Failed(Exists))
  {
    hide CString, Text;
    var originals := [Original(CONTROL), Original(SMILEY)];
    var s := Opened(originals);
    ControlIsGuessedSmiley();
    var names := [NameOf(CONTROL), NameOf(SMILEY)];
    assert Names(originals) == names;
    OpenAgrees(originals);
    OpenedFindsFirst(names);
    assert s.index == OpenedIndex(names);
    assert NameIn(s.entries[0], false) == Some(names[0]) && NameIn(s.entries[1], false) == Some(names[1]);
    DeleteThenUnchange(s, 0);
    PlainName(0x78);
    RenameThenUnchange(s, 0, Some([0x78]), Utf8);
  }

  // A letter is known by itself.
  lemma PlainName(b: byte)
    requires 0x20 < b < 0x7F
    ensures NewString(Some([b]), Utf8) == Some(Some(ZipString([b], StringEncoding.Utf8Known)))
    ensures forall encoding :: encoding != StringEncoding.Cp437 ==> NameOf(Some(ZipString([b], encoding))) == [b]
  {
    assert [b][1..] == [];
    assert U.CharLength([b]) == 1 && U.WellFormed([b]);
    WholeCString([b]);
    assert StringEncoding.PlainAscii([b]);
  }

  // Undoing an addition restores the index, but leaves an entry without a dirent (lib/zip_unchange.c:55-93), with which
  // the archive cannot be written any more: see ClosePlan.NothingToCopy.
  lemma UndoneAdditionStays(s: State, name: CStr, source: nat, announced: Announced)
    requires Good(s) && A.FileAdd(s, name, source, false, announced).1.Done?
    ensures A.Unchange(A.FileAdd(s, name, source, false, announced).0, |s.entries|) ==
            (State(s.entries + [NEW_ENTRY], s.index), Done(0))
  {
    hide NameOf, Located, NewString, Equal;
    var before := s.(entries := s.entries + [NEW_ENTRY]);
    var stored, added := NewString(Some(name), announced).value, A.FileAdd(s, name, source, false, announced).0;
    LocatedRange(s.index, Some(name), Guess);
    assert Located(s.index, Some(name), Guess) == -1;
    var e := EditedDirent(stored, true, true);
    assert added.entries == s.entries + [Entry(None, Some(e), Some(source), false)];
    assert added.index == Add(s.index, NameOf(stored), |s.entries|, false);
    assert Delete(added.index, NameOf(stored)) == s.index;
    assert added.entries[|s.entries| := NEW_ENTRY] == s.entries + [NEW_ENTRY];
  }

  lemma RenameKeepsProper(s: State, idx: nat, name: Option<Name>, announced: Announced)
    requires Proper(s.index)
    ensures Proper(A.Rename(s, idx, name, announced).0.index)
  {
    SetNameKeepsOriginals(s, idx, name, announced);
  }
}
