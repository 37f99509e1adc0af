// Extra fields: their bytes, and edits of a list of them (lib/zip_extra_field.c; section 4.5.1 of APPNOTE.TXT).
module ExtraField {
  import opened Bytes
  import opened LittleEndian

  type Data = d: seq<byte> | |d| <= UINT16_MAX

  datatype Field = Field(id: uint16, data: Data)

  const EF_ZIP64: uint16 := 0x0001
  const EF_UTF_8_COMMENT: uint16 := 0x6375
  const EF_UTF_8_NAME: uint16 := 0x7075
  const EF_WINZIP_AES: uint16 := 0x9901

  // Any number of fields of any id, and the position after the last (lib/zip.h:121-122).
  const ALL: uint16 := 0xFFFF
  const NEW: uint16 := 0xFFFF

  predicate IsInternal(id: uint16) {
    id == EF_UTF_8_COMMENT || id == EF_UTF_8_NAME || id == EF_WINZIP_AES || id == EF_ZIP64
  }

  // --- bytes ---

  function WriteField(f: Field): (b: seq<byte>)
    ensures |b| == 4 + |f.data|
  {
    Put16(f.id) + Put16(|f.data|) + f.data
  }

  // (lines 301-332)
  function Write(fields: seq<Field>): seq<byte> {
    if fields == [] then [] else WriteField(fields[0]) + Write(fields[1..])
  }

  predicate AllZero(b: seq<byte>) {
    forall k :: 0 <= k < |b| ==> b[k] == 0
  }

  // The fields of a block of bytes; less than four zero bytes may follow them (lines 179-246).
  function Parse(b: seq<byte>): Option<seq<Field>> {
    if |b| < 4 then if AllZero(b) then Some([]) else None
    else
      var length := U16(b, 2);
      if 4 + length > |b| then None
      else
        var rest := Parse(b[4 + length..]);
        if rest.None? then None else Some([Field(U16(b, 0), b[4..4 + length])] + rest.value)
  }

  lemma ReadField(f: Field, rest: seq<byte>)
    ensures var b := WriteField(f) + rest;
            U16(b, 0) == f.id && U16(b, 2) == |f.data| && b[4..4 + |f.data|] == f.data && b[4 + |f.data|..] == rest
  {
    hide U16, Put16;
    var b := WriteField(f) + rest;
    assert b[0..2] == Put16(f.id) && b[2..4] == Put16(|f.data|);
    Read16(b, 0, f.id);
    Read16(b, 2, |f.data|);
  }

  // Written fields are read back, also when padded.
  lemma {:induction false} ParseOfWrite(fields: seq<Field>, padding: seq<byte>)
    requires IsPadding(padding)
    ensures Parse(Write(fields) + padding) == Some(fields)
  {
    hide WriteField, U16;
    if fields == [] {
      assert Write(fields) + padding == padding;
    } else {
      var rest := Write(fields[1..]) + padding;
      assert Write(fields) + padding == WriteField(fields[0]) + rest;
      ReadField(fields[0], rest);
      ParseOfWrite(fields[1..], padding);
      assert [fields[0]] + fields[1..] == fields;
    }
  }

  predicate IsPadding(b: seq<byte>) {
    |b| < 4 && AllZero(b)
  }

  lemma {:induction false} PaddingOf(b: seq<byte>) returns (padding: seq<byte>)
    requires Parse(b).Some?
    ensures IsPadding(padding) && b == Write(Parse(b).value) + padding
  {
    hide Put16, U16;
    if |b| < 4 {
      padding := b;
      assert Write([]) == [];
    } else {
      var length := U16(b, 2);
      var f, rest := Field(U16(b, 0), b[4..4 + length]), b[4 + length..];
      padding := PaddingOf(rest);
      Write16(b, 0);
      Write16(b, 2);
      assert Parse(b).value[1..] == Parse(rest).value;
      assert WriteField(f) == b[..4 + length];
      assert b == WriteField(f) + rest;
    }
  }

  // Bytes are accepted as certain fields if and only if they are those fields written, and padding.
  lemma AcceptedIsWritten(b: seq<byte>, fields: seq<Field>)
    ensures Parse(b) == Some(fields) <==> exists padding :: IsPadding(padding) && b == Write(fields) + padding
  {
    if Parse(b) == Some(fields) {
      var padding := PaddingOf(b);
    }
    forall padding | IsPadding(padding) && b == Write(fields) + padding
      ensures Parse(b) == Some(fields)
    {
      ParseOfWrite(fields, padding);
    }
  }

  // (lines 286-298)
  function Size(fields: seq<Field>): nat {
    if fields == [] then 0 else 4 + |fields[0].data| + Size(fields[1..])
  }

  lemma {:induction false} SizeIsLength(fields: seq<Field>)
    ensures Size(fields) == |Write(fields)|
  {
    if fields != [] {
      SizeIsLength(fields[1..]);
    }
  }

  // --- edits, as sequence operations ---

  predicate Matches(f: Field, id: uint16) {
    f.id == id || id == ALL
  }

  // The position of the field with the given id that has idx such fields before it, -1 if there is none.
  function Find(fields: seq<Field>, id: uint16, idx: nat): (i: int)
    ensures -1 <= i < |fields|
  {
    if fields == [] then -1
    else if fields[0].id == id && idx == 0 then 0
    else
      var i := Find(fields[1..], id, if fields[0].id == id then idx - 1 else idx);
      if i == -1 then -1 else i + 1
  }

  function WithoutInternal(fields: seq<Field>): seq<Field> {
    if fields == [] then []
    else (if IsInternal(fields[0].id) then [] else [fields[0]]) + WithoutInternal(fields[1..])
  }

  // Drop all fields that match, or only the one that idx matching fields precede.
  function WithoutId(fields: seq<Field>, id: uint16, idx: uint16, seen: nat): seq<Field> {
    if fields == [] then []
    else if !Matches(fields[0], id) then [fields[0]] + WithoutId(fields[1..], id, idx, seen)
    else if idx == ALL then WithoutId(fields[1..], id, idx, seen)
    else if seen == idx then fields[1..]
    else [fields[0]] + WithoutId(fields[1..], id, idx, seen + 1)
  }

  // The field in place of the one at position k, or after the last one.
  function ReplacedAt(fields: seq<Field>, k: nat, f: Field): seq<Field>
    requires k <= |fields|
  {
    fields[..k] + [f] + fields[Min(k + 1, |fields|)..]
  }

  function SetField(fields: seq<Field>, id: uint16, idx: uint16, data: Data): Option<seq<Field>> {
    var k := Find(fields, id, idx);
    if (k == -1 && idx != NEW) || Size(fields) > UINT16_MAX then None
    else
      var after := ReplacedAt(fields, if k == -1 then |fields| else k, Field(id, data));
      if Size(after) > UINT16_MAX then None else Some(after)
  }

  lemma {:induction false} SizeOfReplaced(fields: seq<Field>, k: nat, f: Field)
    requires k <= |fields|
    ensures Size(ReplacedAt(fields, k, f)) ==
            Size(fields) - (if k < |fields| then 4 + |fields[k].data| else 0) + 4 + |f.data|
  {
    var after := ReplacedAt(fields, k, f);
    if k == 0 {
      assert fields == [] ==> after == [f];
      assert after[1..] == fields[Min(1, |fields|)..];
    } else {
      SizeOfReplaced(fields[1..], k - 1, f);
      assert after[1..] == ReplacedAt(fields[1..], k - 1, f);
    }
  }

  // --- what callers see of the edits: the data of the fields with an id, in order ---

  function Select(fields: seq<Field>, id: uint16): seq<Data> {
    if fields == [] then []
    else (if fields[0].id == id then [fields[0].data] else []) + Select(fields[1..], id)
  }

  lemma {:induction false} FindSelects(fields: seq<Field>, id: uint16, idx: nat)
    ensures var i := Find(fields, id, idx);
            if idx < |Select(fields, id)| then
              i >= 0 && fields[i] == Field(id, Select(fields, id)[idx]) && |Select(fields[..i], id)| == idx
            else i == -1
  {
    if fields != [] && !(fields[0].id == id && idx == 0) {
      FindSelects(fields[1..], id, if fields[0].id == id then idx - 1 else idx);
      var i := Find(fields, id, idx);
      assert i > 0 ==> fields[..i][1..] == fields[1..][..i - 1];
    }
  }

  lemma {:induction false} SelectWithoutInternal(fields: seq<Field>, id: uint16)
    ensures Select(WithoutInternal(fields), id)
         == if id in {0x0001, 0x6375, 0x7075, 0x9901} then [] else Select(fields, id)
  {
    if fields != [] {
      SelectWithoutInternal(fields[1..], id);
      SelectSplit((if IsInternal(fields[0].id) then [] else [fields[0]]), WithoutInternal(fields[1..]), id);
    }
  }

  lemma {:induction false} SelectSplit(a: seq<Field>, b: seq<Field>, id: uint16)
    ensures Select(a + b, id) == Select(a, id) + Select(b, id)
  {
    if a == [] {
      assert a + b == b;
    } else {
      assert (a + b)[1..] == a[1..] + b;
      SelectSplit(a[1..], b, id);
    }
  }

  lemma SelectOne(f: Field, id: uint16)
    ensures Select([f], id) == if f.id == id then [f.data] else []
  {
    assert [f][1..] == [];
  }

  lemma SelectBefore(f: Field, rest: seq<Field>, id: uint16)
    ensures Select([f] + rest, id) == if f.id == id then [f.data] + Select(rest, id) else Select(rest, id)
  {
    assert ([f] + rest)[1..] == rest;
  }

  // What is left of the fields of an id, numbered from seen on, when all or the one of index idx are deleted.
  function Left(before: seq<Data>, idx: uint16, seen: nat): seq<Data>
    requires idx != ALL ==> seen <= idx
  {
    if idx == ALL then []
    else if idx - seen < |before| then before[..idx - seen] + before[idx - seen + 1..]
    else before
  }

  lemma LeftLater(first: Data, before: seq<Data>, idx: uint16, seen: nat)
    requires idx != ALL && seen < idx
    ensures Left([first] + before, idx, seen) == [first] + Left(before, idx, seen + 1)
  {
    var k := idx - seen;
    assert k <= |before| ==> ([first] + before)[k + 1..] == before[k..];
  }

  lemma LeftNow(first: Data, before: seq<Data>, idx: uint16)
    requires idx != ALL
    ensures Left([first] + before, idx, idx) == before
  {
  }

  lemma LeftAll(before: seq<Data>, seen: nat)
    ensures Left(before, ALL, seen) == []
  {
  }

  // Deleting takes away all fields of the id, or the one asked for if there is one, and no other.
  lemma {:induction false} SelectWithoutId(fields: seq<Field>, id: uint16, idx: uint16, seen: nat, other: uint16)
    requires id != ALL && (idx != ALL ==> seen <= idx)
    ensures var before, after := Select(fields, other), Select(WithoutId(fields, id, idx, seen), other);
            after == if other == id then Left(before, idx, seen) else before
  {
    if fields != [] {
      hide Select, Left;
      var f, rest := fields[0], fields[1..];
      assert fields == [f] + rest;
      SelectBefore(f, rest, other);
      if f.id != id {
        SelectWithoutId(rest, id, idx, seen, other);
        SelectBefore(f, WithoutId(rest, id, idx, seen), other);
      } else if idx == ALL {
        SelectWithoutId(rest, id, idx, seen, other);
        LeftAll(Select(fields, other), seen);
        LeftAll(Select(rest, other), seen);
      } else if seen != idx {
        SelectWithoutId(rest, id, idx, seen + 1, other);
        SelectBefore(f, WithoutId(rest, id, idx, seen + 1), other);
        LeftLater(f.data, Select(rest, other), idx, seen);
      } else {
        LeftNow(f.data, Select(rest, other), idx);
      }
    }
  }

  // Setting changes or appends the field asked for, and no other; the fields still fit a header.
  lemma SelectSetField(fields: seq<Field>, id: uint16, idx: uint16, data: Data, other: uint16)
    requires SetField(fields, id, idx, data).Some?
    ensures var before, after := Select(fields, other), Select(SetField(fields, id, idx, data).value, other);
            if other != id then after == before
            else if idx < |before| then after == before[idx := data]
            else idx == NEW && after == before + [data]
    ensures Size(SetField(fields, id, idx, data).value) <= UINT16_MAX
  {
    var k := Find(fields, id, idx);
    FindSelects(fields, id, idx);
    if k == -1 {
      assert ReplacedAt(fields, |fields|, Field(id, data)) == fields + [Field(id, data)];
      SelectSplit(fields, [Field(id, data)], other);
    } else {
      SelectReplaced(fields, id, idx, data, other);
    }
    SelectOne(Field(id, data), other);
  }

  lemma SelectReplaced(fields: seq<Field>, id: uint16, idx: nat, data: Data, other: uint16)
    requires Find(fields, id, idx) >= 0
    ensures var before := Select(fields, other);
            var after := Select(ReplacedAt(fields, Find(fields, id, idx), Field(id, data)), other);
            idx < |Select(fields, id)| && if other != id then after == before else after == before[idx := data]
  {
    hide Find, Select;
    var k, f := Find(fields, id, idx), Field(id, data);
    FindSelects(fields, id, idx);
    var head, tail := fields[..k], fields[k + 1..];
    assert fields == head + [fields[k]] + tail && ReplacedAt(fields, k, f) == head + [f] + tail;
    SelectSplit(head + [f], tail, other);
    SelectSplit(head, [f], other);
    SelectSplit(head + [fields[k]], tail, other);
    SelectSplit(head, [fields[k]], other);
    SelectOne(f, other);
    SelectOne(fields[k], other);
  }
}
