// The entries of an open archive and the index of their names, as values, and what each edit makes of them
// (lib/zip_set_name.c, lib/zip_file_rename.c, lib/zip_delete.c, lib/zip_unchange.c, lib/zip_unchange_all.c,
// lib/zip_file_replace.c, lib/zip_name_locate.c).
module ArchiveState {
  import opened Bytes
  import opened NameMap
  import opened ZipString
  import StringEncoding

  // What of a directory entry takes part in edits: the name it has in the archive, and in the changed copy the
  // name and which fields differ.
  datatype Original = Original(filename: Stored)
  datatype EditedDirent = EditedDirent(filename: Stored, nameChanged: bool, fieldsChanged: bool)

  // The dirent read from the archive, its changed copy, replacement data, and whether the entry is deleted.
  datatype Entry = Entry(orig: Option<Original>, changes: Option<EditedDirent>, source: Option<nat>, deleted: bool)

  const NEW_ENTRY := Entry(None, None, None, false)

  datatype Error = Invalid | Exists | Deleted | NoEntry
  datatype Outcome = Done(index: nat) | Failed(error: Error)

  datatype State = State(entries: seq<Entry>, index: Index)

  // --- views of an entry ---

  // The name in the dirent of an entry as it is now, if it has one (lib/zip_dirent.c:1245-1269).
  function Current(e: Entry): Option<Stored> {
    if e.changes.Some? then Some(e.changes.value.filename)
    else if e.deleted || e.orig.None? then None
    else Some(e.orig.value.filename)
  }

  // The error when there is none.
  function WhyNot(e: Entry): Error {
    if e.orig.None? then Invalid else Deleted
  }

  function CurrentName(e: Entry): Option<Name> {
    if Current(e).None? then None else Some(NameOf(Current(e).value))
  }

  function OriginalName(e: Entry): Option<Name> {
    if e.orig.None? then None else Some(NameOf(e.orig.value.filename))
  }

  function NameIn(e: Entry, original: bool): Option<Name> {
    if original then OriginalName(e) else CurrentName(e)
  }

  // (lib/zipint.h:515-519)
  predicate HasChanges(e: Entry) {
    e.source.Some? || e.deleted || (e.changes.Some? && (e.changes.value.nameChanged || e.changes.value.fieldsChanged))
  }

  predicate Changed(entries: seq<Entry>) {
    exists i :: 0 <= i < |entries| && HasChanges(entries[i])
  }

  // --- looking up a name (lib/zip_name_locate.c:48-116) ---

  function Located(index: Index, name: Option<Name>, announced: Announced): int {
    if name.None? || |name.value| > UINT16_MAX then -1
    else if announced == Utf8 || name.value == [] then Lookup(index, CString(name.value), false)
    else Lookup(index, NameOf(New(name.value, announced).value), false)
  }

  // --- changing the name of an entry (lib/zip_set_name.c:41-165) ---

  // The string a new name is stored as; text that looks like UTF-8 is then taken to be UTF-8.
  function NewString(name: Option<Name>, announced: Announced): Option<Stored> {
    if name.None? || name.value == [] then Some(None)
    else if |name.value| > UINT16_MAX then None
    else if announced == Guess then
      var guessed := StringEncoding.Classify(name.value, StringEncoding.Unknown);
      var encoding := if guessed == StringEncoding.Utf8Guessed then StringEncoding.Utf8Known else guessed;
      Some(Some(ZipString(name.value, encoding)))
    else New(name.value, announced)
  }

  function Clone(orig: Option<Original>): EditedDirent {
    if orig.None? then EditedDirent(None, false, false) else EditedDirent(orig.value.filename, false, false)
  }

  // Going back to the original name drops the copy if nothing else was changed.
  function WithoutNameChange(e: Entry): Entry
    requires e.orig.Some?
  {
    if e.changes.None? || !e.changes.value.nameChanged then e
    else if !e.changes.value.fieldsChanged then e.(changes := None)
    else e.(changes := Some(e.changes.value.(filename := e.orig.value.filename, nameChanged := false)))
  }

  function WithName(e: Entry, name: Stored): Entry
    requires e.changes.Some?
  {
    e.(changes := Some(e.changes.value.(filename := name, nameChanged := true)))
  }

  function Replace(s: State, idx: nat, e: Entry): State
    requires idx < |s.entries|
  {
    s.(entries := s.entries[idx := e])
  }

  function SetName(s: State, idx: nat, name: Option<Name>, announced: Announced): (r: (State, Outcome))
    ensures |r.0.entries| == |s.entries| && (r.1.Done? ==> idx < |s.entries|)
  {
    var stored := NewString(name, announced);
    var i := Located(s.index, name, Guess);
    if idx >= |s.entries| || stored.None? then (s, Failed(Invalid))
    else if i >= 0 then (s, if i == idx then Done(0) else Failed(Exists))
    else PutName(s, idx, stored.value)
  }

  // Whether a string is the original name of an entry.
  predicate IsOriginal(e: Entry, name: Stored) {
    e.orig.Some? && Equal(e.orig.value.filename, name)
  }

  // The string an entry has after being renamed: its original one if that is equal.
  function ShownAs(e: Entry, name: Stored): Stored {
    if IsOriginal(e, name) then e.orig.value.filename else name
  }

  // The entry with a copy to change, unless it gets its original name back.
  function Prepared(e: Entry, name: Stored): Entry {
    if !IsOriginal(e, name) && e.changes.None? then e.(changes := Some(Clone(e.orig))) else e
  }

  function OldString(e: Entry): Stored {
    if e.changes.Some? then e.changes.value.filename else if e.orig.Some? then e.orig.value.filename else None
  }

  function NewIndex(index: Index, idx: nat, before: Stored, after: Stored): Index {
    var added := Add(index, NameOf(after), idx, false);
    if before.Some? then Delete(added, NameOf(before)) else added
  }

  function PutName(s: State, idx: nat, name: Stored): (State, Outcome)
    requires idx < |s.entries|
  {
    var e := Prepared(s.entries[idx], name);
    var shown := ShownAs(e, name);
    if idx > INT64_MAX then (Replace(s, idx, e), Failed(Invalid))
    else if !CanAdd(s.index, NameOf(shown), false) then (Replace(s, idx, e), Failed(Exists))
    else
      var renamed := if IsOriginal(e, name) then WithoutNameChange(e) else WithName(e, name);
      (State(s.entries[idx := renamed], NewIndex(s.index, idx, OldString(e), shown)), Done(0))
  }

  predicate IsDirectory(name: Name) {
    name != [] && name[|name| - 1] == '/' as int
  }

  // (lib/zip_file_rename.c:40-68)
  function Rename(s: State, idx: nat, name: Option<Name>, announced: Announced): (State, Outcome) {
    if idx >= |s.entries| || (name.Some? && |name.value| > UINT16_MAX) then (s, Failed(Invalid))
    else if Current(s.entries[idx]).None? then (s, Failed(WhyNot(s.entries[idx])))
    else if (name.Some? && IsDirectory(name.value)) != IsDirectory(CurrentName(s.entries[idx]).value) then
      (s, Failed(Invalid))
    else SetName(s, idx, name, announced)
  }

  // --- deleting and undoing ---

  // (lib/zip_unchange.c:90-93)
  function Reset(e: Entry): Entry {
    e.(changes := None, source := None, deleted := false)
  }

  // (lib/zip_delete.c:38-68)
  function DeleteEntry(s: State, idx: nat): (State, Outcome) {
    if idx >= |s.entries| then (s, Failed(Invalid))
    else if Current(s.entries[idx]).None? then (s, Failed(WhyNot(s.entries[idx])))
    else
      var name := CurrentName(s.entries[idx]).value;
      if name !in s.index then (s, Failed(NoEntry))
      else (State(s.entries[idx := Reset(s.entries[idx]).(deleted := true)], Delete(s.index, name)), Done(0))
  }

  predicate Renamed(e: Entry) {
    e.changes.Some? && e.changes.value.nameChanged
  }

  // (lib/zip_unchange.c:45-96)
  function Unchange(s: State, idx: nat): (State, Outcome) {
    if idx >= |s.entries| then (s, Failed(Invalid))
    else
      var e := s.entries[idx];
      if !Renamed(e) && !e.deleted then (Replace(s, idx, Reset(e)), Done(0))
      else
        var i := Located(s.index, OriginalName(e), Guess);
        if e.orig.Some? && i >= 0 && i != idx then (s, Failed(Exists))
        else if e.orig.Some? && idx > INT64_MAX then (s, Failed(Invalid))
        else if e.orig.Some? && !CanAdd(s.index, OriginalName(e).value, false) then (s, Failed(Exists))
        else
          var added := if e.orig.Some? then Add(s.index, OriginalName(e).value, idx, false) else s.index;
          if !Renamed(e) then (State(s.entries[idx := Reset(e)], added), Done(0))
          else if CurrentName(e).value !in added then
            (s.(index := if e.orig.Some? then Delete(added, OriginalName(e).value) else added), Failed(NoEntry))
          else (State(s.entries[idx := Reset(e)], Delete(added, CurrentName(e).value)), Done(0))
  }

  // (lib/zip_unchange_all.c:38-54)
  function UnchangeAll(s: State): State {
    State(seq(|s.entries|, i requires 0 <= i < |s.entries| => Reset(s.entries[i])), Revert(s.index))
  }

  // --- adding and replacing (lib/zip_file_replace.c:38-100) ---

  // New data for an entry, whose extra fields go with the old data (lines 87-99).
  function ReplaceData(s: State, idx: nat, source: nat): (State, Outcome)
    requires idx < |s.entries|
  {
    var e := s.entries[idx];
    if Current(e).None? then (s, Failed(WhyNot(e)))
    else
      var copy := if e.changes.Some? then e.changes.value else Clone(e.orig);
      (Replace(s, idx, Entry(e.orig, Some(copy.(fieldsChanged := true)), Some(source), false)), Done(idx))
  }

  function FileReplace(s: State, idx: nat, source: nat): (State, Outcome) {
    if idx >= |s.entries| then (s, Failed(Invalid)) else ReplaceData(s, idx, source)
  }

  function FileAdd(s: State, name: Name, source: nat, overwrite: bool, announced: Announced): (State, Outcome) {
    var i := if overwrite then Located(s.index, Some(name), announced) else -1;
    var idx := if i < 0 then |s.entries| else i;
    var before := if i < 0 then s.(entries := s.entries + [NEW_ENTRY]) else s;
    var (after, outcome) := SetName(before, idx, Some(name), announced);
    if outcome.Failed? then (after.(entries := after.entries[..|s.entries|]), outcome)
    else ReplaceData(after, idx, source)
  }
}
