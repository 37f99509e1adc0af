// The linked list of extra fields, edited in place (lib/zip_extra_field.c).
module ExtraFieldList {
  import opened Bytes
  import opened LittleEndian
  import opened ZipBuffer
  import opened ExtraField

  class Node {
    const id: uint16
    const data: Data
    var next: Node?

    constructor (id: uint16, data: Data)
      ensures this.id == id && this.data == data && next == null
    {
      this.id, this.data, next := id, data, null;
    }
  }

  function NodeAt(chain: seq<Node>, k: nat): Node? {
    if k < |chain| then chain[k] else null
  }

  // The list from head on consists of the nodes of the chain.
  ghost predicate Linked(head: Node?, chain: seq<Node>)
    reads chain
  {
    head == NodeAt(chain, 0) && forall k :: 0 <= k < |chain| ==> chain[k].next == NodeAt(chain, k + 1)
  }

  ghost predicate Distinct(chain: seq<Node>) {
    forall j, k :: 0 <= j < k < |chain| ==> chain[j] != chain[k]
  }

  ghost predicate List(head: Node?, chain: seq<Node>)
    reads chain
  {
    Linked(head, chain) && Distinct(chain)
  }

  function FieldOf(n: Node): Field {
    Field(n.id, n.data)
  }

  function Fields(chain: seq<Node>): (fields: seq<Field>)
    ensures |fields| == |chain|
  {
    seq(|chain|, k requires 0 <= k < |chain| => FieldOf(chain[k]))
  }

  function Before(chain: seq<Node>, k: nat): Node? {
    if 0 < k <= |chain| then chain[k - 1] else null
  }

  lemma FieldsBehind(chain: seq<Node>, k: nat)
    requires k < |chain|
    ensures Fields(chain[k..])[0] == FieldOf(chain[k]) && Fields(chain[k..])[1..] == Fields(chain[k + 1..])
  {
  }

  // Where the field sought is, the end of the list if there is none.
  function Place(chain: seq<Node>, id: uint16, idx: uint16): (k: nat)
    ensures Find(Fields(chain), id, idx) == if k < |chain| then k else -1
    ensures k <= |chain|
  {
    var i := Find(Fields(chain), id, idx);
    if i == -1 then |chain| else i
  }

  // The field sought and the one before it, or the last one (lines 114-132).
  method FindNode(head: Node?, id: uint16, idx: uint16, ghost chain: seq<Node>)
    returns (ef: Node?, prev: Node?, ghost k: nat)
    requires List(head, chain)
    ensures k == Place(chain, id, idx)
    ensures ef == NodeAt(chain, Place(chain, id, idx)) && prev == Before(chain, Place(chain, id, idx))
  {
    hide Distinct, Fields;
    var i := 0;
    ef, prev, k := head, null, 0;
    assert chain[0..] == chain;
    while ef != null
      invariant k <= |chain| && ef == NodeAt(chain, k) && prev == Before(chain, k) && i <= idx
      invariant var rest := Find(Fields(chain[k..]), id, idx - i);
        Find(Fields(chain), id, idx) == if rest == -1 then -1 else k + rest
      decreases |chain| - k
    {
      FieldsBehind(chain, k);
      if ef.id == id {
        if i == idx {
          return;
        }
        i := i + 1;
      }
      prev, ef, k := ef, ef.next, k + 1;
    }
  }

  // Nodes at different places are different.
  lemma LinksOf(chain: seq<Node>)
    requires Distinct(chain)
    ensures forall j: nat, k: nat :: j < k && k < |chain| ==> NodeAt(chain, j) != NodeAt(chain, k)
  {
  }

  lemma TakenOut(kept: seq<Node>, ef: Node, rest: seq<Node>)
    requires Distinct(kept + [ef] + rest)
    ensures Distinct(kept + rest) && ef !in kept + rest
    ensures forall k: nat :: NodeAt(kept + rest, k) == NodeAt(kept + [ef] + rest, if k < |kept| then k else k + 1)
  {
    var before, after := kept + [ef] + rest, kept + rest;
    assert before[|kept|] == ef;
    assert forall k :: 0 <= k < |after| ==> after[k] == before[if k < |kept| then k else k + 1];
  }

  // Take out the node between the kept ones and the rest.
  method Unlink(head: Node?, prev: Node?, ef: Node, ghost kept: seq<Node>, ghost rest: seq<Node>) returns (head': Node?)
    requires List(head, kept + [ef] + rest) && prev == Before(kept, |kept|)
    modifies {ef} + if prev == null then {} else {prev}
    ensures List(head', kept + rest) && ef !in kept + rest
  {
    hide Distinct;
    ghost var before, after := kept + [ef] + rest, kept + rest;
    TakenOut(kept, ef, rest);
    LinksOf(before);
    assert NodeAt(before, |kept|) == ef;
    head' := head;
    if prev != null {
      assert prev == NodeAt(before, |kept| - 1);
      prev.next := ef.next;
    } else {
      head' := ef.next;
    }
    ef.next := null;
    forall k | 0 <= k < |after|
      ensures after[k].next == NodeAt(after, k + 1)
    {
      assert NodeAt(after, k) == NodeAt(before, if k < |kept| then k else k + 1);
    }
  }

  // The fields kept, and what deletion makes of the rest, are what it makes of all.
  ghost predicate Deleting(all: seq<Field>, id: uint16, idx: uint16, kept: seq<Field>, rest: seq<Field>, seen: nat) {
    WithoutId(all, id, idx, 0) == kept + WithoutId(rest, id, idx, seen)
  }

  lemma DeletingNothing(all: seq<Field>, id: uint16, idx: uint16)
    ensures Deleting(all, id, idx, [], all, 0)
  {
    assert [] + WithoutId(all, id, idx, 0) == WithoutId(all, id, idx, 0);
  }

  lemma DeletingStep(all: seq<Field>, id: uint16, idx: uint16, kept: seq<Field>, rest: seq<Field>, seen: nat)
    requires Deleting(all, id, idx, kept, rest, seen) && rest != []
    ensures if !Matches(rest[0], id) then Deleting(all, id, idx, kept + [rest[0]], rest[1..], seen)
            else if idx == ALL then Deleting(all, id, idx, kept, rest[1..], seen)
            else if seen == idx then WithoutId(all, id, idx, 0) == kept + rest[1..]
            else Deleting(all, id, idx, kept + [rest[0]], rest[1..], seen + 1)
  {
    var tail, next := WithoutId(rest[1..], id, idx, seen), WithoutId(rest[1..], id, idx, seen + 1);
    assert kept + ([rest[0]] + tail) == kept + [rest[0]] + tail;
    assert kept + ([rest[0]] + next) == kept + [rest[0]] + next;
  }

  lemma DeletingDone(all: seq<Field>, id: uint16, idx: uint16, kept: seq<Field>, seen: nat)
    requires Deleting(all, id, idx, kept, [], seen)
    ensures WithoutId(all, id, idx, 0) == kept
  {
  }

  // Delete the fields with an id, or any id, all of them or one (lines 67-100).
  method DeleteById(head: Node?, id: uint16, idx: uint16, ghost chain: seq<Node>)
    returns (head': Node?, ghost kept: seq<Node>)
    requires List(head, chain)
    modifies chain
    ensures List(head', kept) && (forall n :: n in kept ==> n in chain)
    ensures Fields(kept) == WithoutId(Fields(chain), id, idx, 0)
  {
    hide Distinct, Linked, Fields, WithoutId, Deleting;
    EmptyList();
    DeletingNothing(Fields(chain), id, idx);
    head', kept := head, [];
    var i, prev: Node?, ef := 0, null, head;
    ghost var rest: seq<Node> := chain;
    assert kept + rest == chain;
    HeadOf(head, chain);
    while ef != null
      invariant List(head', kept + rest)
      invariant (forall n :: n in kept ==> n in chain) && (forall n :: n in rest ==> n in chain)
      invariant ef == NodeAt(rest, 0) && prev == Before(kept, |kept|) && (idx != ALL ==> i <= idx)
      invariant Deleting(Fields(chain), id, idx, Fields(kept), Fields(rest), i)
      decreases |rest|
    {
      FieldsStep(kept, rest);
      NextOf(head', kept, rest);
      DeletingStep(Fields(chain), id, idx, Fields(kept), Fields(rest), i);
      var next := ef.next;
      assert ef in rest && (prev != null ==> prev in kept);
      if ef.id == id || id == ALL {
        if idx == ALL || i == idx {
          head' := Unlink(head', prev, ef, kept, rest[1..]);
          rest := rest[1..];
          if idx == ALL {
            ef := next;
            continue;
          }
          kept := kept + rest;
          return;
        }
        i := i + 1;
      }
      prev := ef;
      kept, rest := kept + [ef], rest[1..];
      ef := next;
    }
    DeletingDone(Fields(chain), id, idx, Fields(kept), i);
    assert kept + rest == kept;
  }

  lemma HeadOf(head: Node?, chain: seq<Node>)
    requires Linked(head, chain)
    ensures head == NodeAt(chain, 0)
  {
  }

  lemma FieldsStep(kept: seq<Node>, rest: seq<Node>)
    requires rest != []
    ensures Fields(rest)[1..] == Fields(rest[1..]) && Fields(rest)[0] == FieldOf(rest[0])
    ensures Fields(kept + [rest[0]]) == Fields(kept) + [FieldOf(rest[0])]
    ensures Fields(kept + rest[1..]) == Fields(kept) + Fields(rest[1..])
    ensures kept + rest == kept + [rest[0]] + rest[1..]
  {
  }

  lemma InternalStep(kept: seq<Node>, rest: seq<Node>)
    ensures WithoutInternal([]) == []
    ensures rest != [] ==>
              Fields(kept) + WithoutInternal(Fields(rest)) ==
              Fields(if IsInternal(rest[0].id) then kept else kept + [rest[0]]) + WithoutInternal(Fields(rest[1..]))
  {
    if rest != [] {
      hide Fields;
      FieldsStep(kept, rest);
    }
  }

  lemma FieldsAppend(chain: seq<Node>, node: Node)
    ensures Fields(chain + [node]) == Fields(chain) + [FieldOf(node)]
  {
  }

  lemma NextOf(head: Node?, kept: seq<Node>, rest: seq<Node>)
    requires Linked(head, kept + rest) && rest != []
    ensures rest[0].next == NodeAt(rest, 1)
  {
    assert (kept + rest)[|kept|] == rest[0];
    assert NodeAt(kept + rest, |kept| + 1) == NodeAt(rest, 1);
  }

  // Delete the fields that libzip writes itself (lines 249-276).
  method RemoveInternal(head: Node?, ghost chain: seq<Node>) returns (head': Node?, ghost kept: seq<Node>)
    requires List(head, chain)
    modifies chain
    ensures List(head', kept) && (forall n :: n in kept ==> n in chain)
    ensures Fields(kept) == WithoutInternal(Fields(chain))
  {
    hide Distinct, Linked, Fields, WithoutInternal;
    EmptyList();
    InternalStep(chain, []);
    head', kept := head, [];
    var prev: Node?, ef := null, head;
    ghost var rest: seq<Node> := chain;
    assert kept + rest == chain;
    HeadOf(head, chain);
    while ef != null
      invariant List(head', kept + rest)
      invariant (forall n :: n in kept ==> n in chain) && (forall n :: n in rest ==> n in chain)
      invariant ef == NodeAt(rest, 0) && prev == Before(kept, |kept|)
      invariant WithoutInternal(Fields(chain)) == Fields(kept) + WithoutInternal(Fields(rest))
      decreases |rest|
    {
      FieldsStep(kept, rest);
      InternalStep(kept, rest);
      NextOf(head', kept, rest);
      var next := ef.next;
      assert ef in rest && (prev != null ==> prev in kept);
      if IsInternal(ef.id) {
        head' := Unlink(head', prev, ef, kept, rest[1..]);
        rest := rest[1..];
      } else {
        prev := ef;
        kept, rest := kept + [ef], rest[1..];
      }
      ef := next;
    }
    assert kept + rest == kept;
  }

  // The size of the fields written, -1 if it is over the limit of a header (lines 286-298).
  method SizeOf(head: Node?, ghost chain: seq<Node>) returns (size: int)
    requires List(head, chain)
    ensures size == if Size(Fields(chain)) > UINT16_MAX then -1 else Size(Fields(chain))
  {
    hide Distinct, Linked;
    size := 0;
    var ef := head;
    ghost var kept: seq<Node>, rest: seq<Node> := [], chain;
    assert kept + rest == chain;
    HeadOf(head, chain);
    while ef != null
      invariant kept + rest == chain && ef == NodeAt(rest, 0)
      invariant 0 <= size <= UINT16_MAX && Size(Fields(chain)) == size + Size(Fields(rest))
      decreases |rest|
    {
      FieldsStep(kept, rest);
      NextOf(head, kept, rest);
      size := size + 4 + |ef.data|;
      if size > UINT16_MAX {
        return -1;
      }
      kept, rest := kept + [ef], rest[1..];
      ef := ef.next;
    }
  }

  // Put a field in the place of another, or at the end (lines 510-531).
  method Insert(head: Node?, prev: Node?, ef: Node?, node: Node, ghost chain: seq<Node>,
      ghost k: nat) returns (head': Node?, ghost chain': seq<Node>)
    requires List(head, chain) && k <= |chain| && ef == NodeAt(chain, k) && prev == Before(chain, k)
    requires node !in chain && node.next == null
    modifies chain, node
    ensures chain' == chain[..k] + [node] + chain[Min(k + 1, |chain|)..] && List(head', chain')
  {
    hide Distinct;
    Inserted(chain, k, node);
    LinksOf(chain);
    chain' := chain[..k] + [node] + chain[Min(k + 1, |chain|)..];
    head' := head;
    if ef != null {
      node.next := ef.next;
      ef.next := null;
    } else if prev != null {
      node.next := prev.next;
    }
    if prev != null {
      prev.next := node;
    } else {
      head' := node;
    }
    forall j | 0 <= j < |chain'|
      ensures chain'[j].next == NodeAt(chain', j + 1)
    {
      assert NodeAt(chain', j) == if j == k then node else NodeAt(chain, j);
      assert NodeAt(chain', j + 1) == if j + 1 == k then node else NodeAt(chain, j + 1);
      assert old(chain'[j].next) == NodeAt(chain, j + 1) || j == k;
    }
  }

  lemma Inserted(chain: seq<Node>, k: nat, node: Node)
    requires Distinct(chain) && k <= |chain| && node !in chain
    ensures var after := chain[..k] + [node] + chain[Min(k + 1, |chain|)..];
            Distinct(after) && forall j: nat :: NodeAt(after, j) == if j == k then node else NodeAt(chain, j)
  {
  }

  lemma FieldsReplaced(chain: seq<Node>, k: nat, node: Node)
    requires k <= |chain|
    ensures Fields(chain[..k] + [node] + chain[Min(k + 1, |chain|)..]) ==
            ReplacedAt(Fields(chain), k, Field(node.id, node.data))
  {
  }

  // Set a field, or append a new one, unless that makes the fields too large (lines 472-532).
  method Set(head: Node?, id: uint16, idx: uint16, data: Data, ghost chain: seq<Node>)
    returns (ok: bool, head': Node?, ghost chain': seq<Node>)
    requires List(head, chain)
    modifies chain
    ensures ok <==> SetField(Fields(chain), id, idx, data).Some?
    ensures List(head', chain')
            && Fields(chain') == if ok then SetField(Fields(chain), id, idx, data).value else Fields(chain)
  {
    hide Distinct, Linked;
    var ef, prev, k := FindNode(head, id, idx, chain);
    if ef == null && idx != NEW {
      return false, head, chain;
    }
    var newLength := SizeOf(head, chain);
    if newLength < 0 {
      return false, head, chain;
    }
    if ef != null {
      newLength := newLength - (|ef.data| + 4);
    }
    newLength := newLength + |data| + 4;
    SizeOfReplaced(Fields(chain), k, Field(id, data));
    if newLength > UINT16_MAX {
      return false, head, chain;
    }
    var node := new Node(id, data);
    head', chain' := Insert(head, prev, ef, node, chain, k);
    FieldsReplaced(chain, k, node);
    ok := true;
  }

  lemma EmptyList()
    ensures List(null, []) && Fields([]) == []
  {
  }

  lemma NextAt(head: Node?, chain: seq<Node>, k: nat)
    requires Linked(head, chain) && k < |chain|
    ensures chain[k].next == NodeAt(chain, k + 1)
  {
  }

  // A copy of the list (lines 40-64).
  method Clone(head: Node?, ghost chain: seq<Node>) returns (copy: Node?, ghost copies: seq<Node>)
    requires List(head, chain)
    ensures List(copy, copies) && fresh(copies) && Fields(copies) == Fields(chain)
  {
    hide Distinct, Linked;
    HeadOf(head, chain);
    copy, copies := null, [];
    var prev: Node?, ef := null, head;
    EmptyList();
    while ef != null
      invariant |copies| <= |chain| && ef == NodeAt(chain, |copies|) && prev == Before(copies, |copies|)
      invariant List(copy, copies) && fresh(copies) && Fields(copies) == Fields(chain)[..|copies|]
      decreases |chain| - |copies|
    {
      NextAt(head, chain, |copies|);
      var def := new Node(ef.id, ef.data);
      copy, copies := Insert(copy, prev, null, def, copies, |copies|);
      prev := def;
      ef := ef.next;
    }
  }

  // What is known of a block of bytes when some of its fields were taken from it.
  ghost predicate Remaining(all: seq<byte>, done: seq<Field>, b: seq<byte>) {
    Parse(all) == if Parse(b).None? then None else Some(done + Parse(b).value)
  }

  lemma NothingTaken(all: seq<byte>)
    ensures Remaining(all, [], all)
  {
    assert Parse(all).Some? ==> [] + Parse(all).value == Parse(all).value;
  }

  lemma TakeNext(all: seq<byte>, done: seq<Field>, b: seq<byte>)
    requires Remaining(all, done, b) && |b| >= 4
    ensures var length := U16(b, 2);
            if 4 + length > |b| then Parse(all).None?
            else Remaining(all, done + [Field(U16(b, 0), b[4..4 + length])], b[4 + length..])
  {
    hide U16;
    if Parse(b).Some? {
      var length := U16(b, 2);
      assert done + Parse(b).value == done + [Field(U16(b, 0), b[4..4 + length])] + Parse(b[4 + length..]).value;
    }
  }

  lemma NoneLeft(all: seq<byte>, done: seq<Field>, b: seq<byte>)
    requires Remaining(all, done, b) && |b| < 4
    ensures Parse(all) == if AllZero(b) then Some(done) else None
  {
    assert done + [] == done;
  }

  // Read the next field (lines 194-203).
  method TakeField(buffer: Buffer) returns (f: Option<Field>)
    requires buffer.Valid() && buffer.ok && buffer.Left() >= 4
    modifies buffer
    ensures buffer.Valid()
    ensures var b, length := old(buffer.Ahead()), U16(old(buffer.Ahead()), 2);
            if 4 + length > |b| then f.None?
            else f == Some(Field(U16(b, 0), b[4..4 + length])) && buffer.ok && buffer.Ahead() == b[4 + length..]
  {
    ghost var b, at := buffer.Ahead(), buffer.offset;
    assert U16(b, 0) == U16(buffer.data[..], at) && U16(b, 2) == U16(buffer.data[..], at + 2);
    hide U16;
    var id := buffer.Get16();
    var length := buffer.Get16();
    var bytes := buffer.Get(length);
    if bytes.None? {
      return None;
    }
    assert bytes.value == b[4..4 + length];
    return Some(Field(id, bytes.value));
  }

  // Less than four zero bytes may follow the fields (lines 221-234).
  method CheckPadding(buffer: Buffer) returns (ok: bool)
    requires buffer.Valid() && buffer.ok
    modifies buffer
    ensures ok == (|old(buffer.Ahead())| < 4 && AllZero(old(buffer.Ahead())))
  {
    if buffer.Eof() {
      return true;
    }
    ghost var b := buffer.Ahead();
    var garbage := buffer.Get(buffer.Left());
    assert garbage.Some? ==> garbage.value == b;
    ok := garbage.Some? && |garbage.value| < 4 && AllZero(garbage.value);
  }

  lemma AtTheEnd(chain: seq<Node>, node: Node)
    ensures chain[..|chain|] + [node] + chain[Min(|chain| + 1, |chain|)..] == chain + [node]
  {
  }

  // (lines 179-246)
  method ParseList(data: array<byte>) returns (ok: bool, head: Node?, ghost chain: seq<Node>)
    requires data.Length <= UINT16_MAX
    ensures ok <==> Parse(data[..]).Some?
    ensures ok ==> List(head, chain) && fresh(chain) && Fields(chain) == Parse(data[..]).value
  {
    hide Distinct, Linked, U16, Parse, Remaining, Fields;
    var buffer := new Buffer(data);
    var ef: Node?;
    head, ef, chain := null, null, [];
    EmptyList();
    assert buffer.Ahead() == data[..];
    NothingTaken(data[..]);
    while buffer.ok && buffer.Left() >= 4
      invariant buffer.Valid() && fresh(buffer) && buffer.data == data && buffer.ok
      invariant List(head, chain) && fresh(chain) && ef == Before(chain, |chain|)
      invariant Remaining(data[..], Fields(chain), buffer.Ahead())
      decreases |buffer.Ahead()|
    {
      TakeNext(data[..], Fields(chain), buffer.Ahead());
      ghost var before := chain;
      var f := TakeField(buffer);
      if f.None? {
        return false, null, [];
      }
      var ef2 := new Node(f.value.id, f.value.data);
      head, chain := Insert(head, ef, null, ef2, chain, |chain|);
      AtTheEnd(before, ef2);
      FieldsAppend(before, ef2);
      ef := ef2;
    }
    NoneLeft(data[..], Fields(chain), buffer.Ahead());
    ok := CheckPadding(buffer);
  }

  // Write one field with a buffer for its header (lines 310-327).
  method WriteNode(buffer: Buffer, ef: Node, written: seq<byte>) returns (written': seq<byte>)
    requires buffer.Valid() && buffer.data.Length == 4
    modifies buffer, buffer.data
    ensures buffer.Valid() && written' == written + WriteField(FieldOf(ef))
  {
    hide Put16;
    buffer.SetOffset(0);
    buffer.Put(Put16(ef.id));
    buffer.Put(Put16(|ef.data|));
    written' := written + buffer.data[..];
    if |ef.data| > 0 {
      written' := written' + ef.data;
    }
    assert written' == written + WriteField(FieldOf(ef));
  }

  // (lines 301-332)
  method WriteList(head: Node?, written: seq<byte>, ghost chain: seq<Node>) returns (written': seq<byte>)
    requires List(head, chain)
    ensures written' == written + Write(Fields(chain))
  {
    hide Distinct, Linked, Fields, WriteField;
    written' := written;
    var b := new byte[4];
    var buffer := new Buffer(b);
    var ef := head;
    ghost var kept: seq<Node>, rest: seq<Node> := [], chain;
    assert kept + rest == chain;
    HeadOf(head, chain);
    while ef != null
      invariant kept + rest == chain && ef == NodeAt(rest, 0) && fresh(buffer) && fresh(b) && buffer.data == b
      invariant buffer.Valid()
      invariant written + Write(Fields(chain)) == written' + Write(Fields(rest))
      decreases |rest|
    {
      FieldsStep(kept, rest);
      NextOf(head, kept, rest);
      written' := WriteNode(buffer, ef, written');
      kept, rest := kept + [ef], rest[1..];
      ef := ef.next;
    }
  }
}
