// The reference model of the name index: a map from names to the original and the current entry index.
module NameMap {
  import opened Bytes

  type Name = seq<byte>

  // Indices of -1 mean that the name is not used in that view.
  datatype Slot = Slot(orig: int, current: int)

  type Index = map<Name, Slot>

  function Lookup(m: Index, name: Name, original: bool): int {
    if name !in m then -1 else if original then m[name].orig else m[name].current
  }

  // A name may be added unless it is in use in the current view, or is added as original and has one already.
  predicate CanAdd(m: Index, name: Name, original: bool) {
    name in m ==> m[name].current == -1 && (original ==> m[name].orig == -1)
  }

  function Add(m: Index, name: Name, index: nat, original: bool): Index {
    if !CanAdd(m, name, original) then m
    else m[name := Slot(if original then index else Lookup(m, name, true), index)]
  }

  function Delete(m: Index, name: Name): Index {
    if name !in m then m
    else if m[name].orig == -1 then m - {name}
    else m[name := m[name].(current := -1)]
  }

  function Revert(m: Index): Index {
    map n | n in m && m[n].orig != -1 :: Slot(m[n].orig, m[n].orig)
  }

  // No name is kept that is used in neither view.
  ghost predicate Proper(m: Index) {
    forall n :: n in m ==> m[n].orig >= -1 && m[n].current >= -1 && !(m[n].orig == -1 && m[n].current == -1)
  }

  lemma AddKeepsProper(m: Index, name: Name, index: nat, original: bool)
    requires Proper(m)
    ensures Proper(Add(m, name, index, original))
  {
  }

  lemma DeleteKeepsProper(m: Index, name: Name)
    requires Proper(m)
    ensures Proper(Delete(m, name))
  {
  }

  lemma SizeWithout(m: Index, name: Name)
    requires name in m
    ensures |m - {name}| == |m| - 1 && (m - {name}).Keys == m.Keys - {name}
  {
    assert (m - {name}).Keys == m.Keys - {name};
  }

  // How far a revert has come: entries still have their original index, if any, and the others may be gone.
  ghost predicate Reverting(before: Index, now: Index) {
    && (forall n :: n in now ==> n in before && now[n].orig == before[n].orig)
    && (forall n :: n in before && before[n].orig != -1 ==> n in now)
  }

  lemma RevertingNothing(m: Index)
    ensures Reverting(m, m)
  {
  }

  lemma RevertingDrop(before: Index, now: Index, name: Name)
    requires Reverting(before, now) && name in now && now[name].orig == -1
    ensures Reverting(before, now - {name})
  {
  }

  lemma RevertingReset(before: Index, now: Index, name: Name)
    requires Reverting(before, now) && name in now
    ensures Reverting(before, now[name := Slot(now[name].orig, now[name].orig)])
  {
  }

  lemma RevertDone(before: Index, now: Index)
    requires Reverting(before, now) && Proper(before)
    requires forall n :: n in now ==> now[n].orig != -1 && now[n].current == now[n].orig
    ensures now == Revert(before) && Proper(now)
  {
  }
}
