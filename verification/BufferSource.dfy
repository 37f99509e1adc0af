// The buffer source: what is read, what is being written, and the commands of read_data
// (lib/zip_source_buffer.c) behind the checks of the zip_source_* functions that issue them.
module BufferSource {
  import opened Bytes
  import opened SourceSeek
  import opened FlatFile
  import opened SourceBuffer
  import opened WriteSession

  class ReadData {
    const heap: Heap
    var input: Buffer
    var output: Buffer?

    constructor (heap: Heap, input: Buffer)
      requires input.Valid() && input.sharedBuffer == null && Linear(input.fragments)
      requires OwnedBy(input.fragments) <= heap.live
      ensures Valid() && this.heap == heap && this.input == input && output == null
    {
      this.heap, this.input, output := heap, input, null;
    }

    // Nothing the output may write to is part of the input, and only one of them is to free a block.
    ghost predicate Linked()
      reads this, input, output
    {
      && Linear(input.fragments)
      && (output == null ==> input.sharedBuffer == null)
      && (output != null ==>
            && output != input
            && (output.sharedBuffer == null || output.sharedBuffer == input)
            && output.Writable()
            && output.exclusive !! input.blocks
            && input.sharedBuffer == (if output.sharedBuffer == null then null else output))
    }

    ghost predicate Valid()
      reads this, heap, input, output, input.blocks, if output == null then {} else output.blocks
    {
      && Linked()
      && input.Valid()
      && (output != null ==> output.Valid())
      && Owned() <= heap.live
    }

    // The blocks this source is to free.
    ghost function Owned(): set<array<byte>>
      reads this, input, output
    {
      OwnedBy(input.fragments) + if output == null then {} else output.exclusive
    }

    ghost function Exclusive(): set<array<byte>>
      reads this, output
    {
      if output == null then {} else output.exclusive
    }

    ghost function View(): (s: State)
      requires Valid()
      reads this, heap, input, output, input.blocks, if output == null then {} else output.blocks
      ensures Within(s, UINT64_MAX)
    {
      State(input.Flat(), if output == null then None else Some(output.Flat()))
    }

    // Start writing an empty file (lines 205-211).
    method BeginWrite()
      requires Valid() && output == null
      modifies this`output
      ensures Valid() && View() == old(View()).(output := Some(File([], 0)))
      ensures Owned() == old(Owned()) && fresh(output) && Exclusive() == {}
    {
      output := new Buffer();
    }

    // Start writing after a prefix of the input (lines 213-219).
    method BeginWriteCloning(length: nat) returns (ok: bool)
      requires Valid() && output == null
      modifies this`output, input`sharedBuffer
      ensures Valid() && Owned() == old(Owned()) && input == old(input)
      ensures (output == null || fresh(output)) && Exclusive() == {}
      ensures ok <==> length <= input.size && !(length > 0 && old(input.WastesMoreThanItKeeps(length)))
      ensures View() ==
              if ok then State(old(input.Flat()), Some(File(old(input.Flat()).bytes[..length], length)))
              else old(View())
    {
      hide Separated, Linear, OwnedBy, Joins, PrefixSums, Buffer.WastesMoreThanItKeeps;
      var clone := input.Clone(length);
      if clone.None? {
        return false;
      }
      output := clone.value;
      assert input.Flat().bytes[..length] == input.memory[..length];
      output.offset := length;
      output.currentFragment := |output.fragments|;
      return true;
    }

    // Drop the input and make the output the input (lines 224-228).
    method CommitWrite()
      requires Valid() && output != null
      modifies this, heap, output`sharedBuffer
      ensures Valid() && View() == State(old(output.Flat()), None) && input == old(output) && output == null
      ensures heap.live - Owned() == old(heap.live - Owned())
    {
      hide Separated, Linear, OwnedBy, Releases, Joins, PrefixSums, CursorIn;
      if output.sharedBuffer == null {
        NothingToInherit(output.fragments, output.exclusive, input.fragments);
      } else {
        CloneInherits(output.fragments, output.exclusive, input.fragments, input.blocks);
      }
      OwnedAreBlocks(input.blocks, input.fragments, input.contents);
      input.FreeBlocks(heap);
      if input.sharedBuffer != null {
        input.sharedBuffer.sharedBuffer := null;
      }
      input := output;
      output := null;
    }

    // Drop the output (lines 271-274).
    method RollbackWrite()
      requires Valid() && output != null
      modifies this, heap, input`sharedBuffer
      ensures Valid() && View() == old(View()).(output := None) && input == old(input)
      ensures heap.live - Owned() == old(heap.live - Owned())
    {
      hide Separated, Linear, OwnedBy, Releases, Joins, PrefixSums, CursorIn;
      ReleasesAreExclusive(output.fragments, output.exclusive, output.Peer(), output.PeerBlocks());
      if output.sharedBuffer == null {
        NothingToInherit(output.fragments, output.exclusive, input.fragments);
      } else {
        CloneInherits(output.fragments, output.exclusive, input.fragments, input.blocks);
      }
      OwnedAreBlocks(input.blocks, input.fragments, input.contents);
      output.FreeBlocks(heap);
      if output.sharedBuffer != null {
        output.sharedBuffer.sharedBuffer := null;
      }
      output := null;
    }

    // Replace the input by an empty one (lines 260-269; lib/zip_source_remove.c:53-55 rolls back first).
    method Remove()
      requires Valid() && output == null
      modifies this, heap
      ensures Valid() && View() == State(File([], 0), None) && fresh(input) && output == null
      ensures heap.live - Owned() == old(heap.live - Owned())
    {
      hide Joins, PrefixSums;
      ghost var fragments := input.fragments;
      var empty := new Buffer();
      NothingShared(fragments);
      input.FreeBlocks(heap);
      input := empty;
    }

    // Free both buffers (lines 708-719): all that is left is what this source never was to free.
    method FreeAll()
      requires Valid()
      modifies heap, input, output
      ensures heap.live == old(heap.live - Owned())
    {
      hide Separated, Linear, OwnedBy, Releases, Joins, PrefixSums, CursorIn;
      if output == null {
        NothingShared(input.fragments);
        input.FreeBlocks(heap);
        return;
      }
      if output.sharedBuffer == null {
        NothingToInherit(output.fragments, output.exclusive, input.fragments);
      } else {
        CloneInherits(output.fragments, output.exclusive, input.fragments, input.blocks);
      }
      OwnedAreBlocks(input.blocks, input.fragments, input.contents);
      input.FreeBlocks(heap);
      if input.sharedBuffer != null {
        input.sharedBuffer.sharedBuffer := null;
      }
      NothingShared(output.fragments);
      output.FreeBlocks(heap);
    }

    // Write at the cursor of the output (lines 321-326).
    method Write(data: seq<byte>) returns (r: Reply)
      requires Valid() && output != null && |data| <= INT64_MAX && output.offset <= SIZE_LIMIT
      modifies output, heap, output.exclusive
      ensures Valid() && r == if CanWrite(old(output.Flat()), data) then Number(|data|) else Refused
      ensures View() ==
              if r == Refused then old(View()) else old(View()).(output := Some(old(output.Flat()).Write(data)))
      ensures fresh(Exclusive() - old(Exclusive()))
      ensures heap.live - Owned() == old(heap.live - Owned())
    {
      hide Separated, Linear, OwnedBy, Joins, PrefixSums;
      var n := output.Write(heap, data);
      r := if n < 0 then Refused else Number(n);
    }

    // Move the cursor of the output (lines 279-280).
    method SeekWrite(delta: int64, whence: Whence) returns (r: Reply)
      requires Valid() && output != null
      modifies output`offset, output`currentFragment
      ensures Valid() && Exclusive() == old(Exclusive()) && Owned() == old(Owned())
      ensures match SeekTo(old(output.Flat()), delta, whence)
              case Some(f) => r == Done && View() == old(View()).(output := Some(f))
              case None => r == Refused && View() == old(View())
    {
      hide Separated, Linear, OwnedBy, Joins, PrefixSums;
      var ok := output.Seek(delta, whence);
      r := if ok then Done else Refused;
    }

    ghost function Footprint(): set<object?>
      reads this, output
    {
      {this, heap, input} + (if output == null then {} else {output} + output.exclusive)
    }

    // The commands that only look at the input (lines 202-203, 248-258, 276-277, 282-311).
    method ExecuteReading(c: Command) returns (r: Reply)
      requires Valid() && (c.Open? || c.Read? || c.Seek? || c.Tell? || c.AtEof? || c.Stat?)
      modifies input`offset, input`currentFragment
      ensures Valid() && Owned() == old(Owned())
      ensures Step(old(View()), c, r, View())
    {
      hide Separated, Linear, OwnedBy, Joins, PrefixSums;
      match c
      case Open =>
        OpenAtStart();
        return Done;
      case Read(length) =>
        if length > INT64_MAX {
          return Refused;
        }
        var bytes := ReadBytes(length);
        return Data(bytes);
      case Seek(delta, whence) =>
        var ok := input.Seek(delta, whence);
        return if ok then Done else Refused;
      case Tell =>
        return if input.offset > INT64_MAX then Refused else Number(input.offset);
      case AtEof =>
        return Number(if input.offset == input.size then 1 else 0);
      case Stat =>
        return Number(input.size);
    }

    method ReadBytes(length: nat) returns (bytes: seq<byte>)
      requires Valid() && length <= INT64_MAX
      modifies input`offset, input`currentFragment
      ensures Valid()
      ensures var n := old(View().input.Available(length));
              && bytes == old(View()).input.bytes[old(input.offset)..old(input.offset) + n]
              && View() == old(View()).(input := old(View()).input.(pos := old(input.offset) + n))
    {
      hide Separated, Linear, OwnedBy, Joins, PrefixSums;
      var dst := new byte[length];
      var n := input.Read(dst, length);
      bytes := dst[..n];
      assert bytes == old(View()).input.bytes[old(input.offset)..old(input.offset) + n];
    }

    method OpenAtStart()
      requires Valid()
      modifies input`offset, input`currentFragment
      ensures Valid() && View() == old(View()).(input := old(input.Flat()).(pos := 0))
    {
      hide Joins, Separated, Linear, OwnedBy;
      input.offset, input.currentFragment := 0, 0;
    }

    // The commands that work on the output (lines 279-280, 314-326).
    method ExecuteWriting(c: Command) returns (r: Reply)
      requires Valid() && (c.Write? || c.SeekWrite? || c.TellWrite?)
      requires Within(View(), SIZE_LIMIT)
      modifies Footprint() - {this, input}
      ensures Valid() && fresh(Exclusive() - old(Exclusive()))
      ensures Step(old(View()), c, r, View())
      ensures heap.live - Owned() == old(heap.live - Owned())
    {
      hide Separated, Linear, OwnedBy, Joins, PrefixSums, ReadStep;
      match c
      case Write(data) =>
        if output == null || |data| > INT64_MAX {
          return Refused;
        }
        r := Write(data);
      case SeekWrite(delta, whence) =>
        if output == null {
          return Refused;
        }
        r := SeekWrite(delta, whence);
      case TellWrite =>
        return if output == null || output.offset > INT64_MAX then Refused else Number(output.offset);
    }

    // Dispatch a command (lines 198-332), with the checks the zip_source_* function issuing it makes first.
    method Execute(c: Command) returns (r: Reply)
      requires Valid()
      requires Within(View(), SIZE_LIMIT)
      modifies Footprint()
      ensures Valid() && fresh(Footprint() - old(Footprint()))
      ensures Step(old(View()), c, r, View())
      ensures heap.live - Owned() == old(heap.live - Owned())
    {
      hide Separated, Linear, OwnedBy, Joins, PrefixSums;
      match c
      case BeginWrite =>
        if output != null {
          return Refused;
        }
        BeginWrite();
        return Done;
      case BeginWriteCloning(length) =>
        if output != null {
          return Refused;
        }
        var ok := BeginWriteCloning(length);
        return if ok then Done else Refused;
      case CommitWrite =>
        if output == null {
          return Refused;
        }
        CommitWrite();
        return Done;
      case RollbackWrite =>
        if output != null {
          RollbackWrite();
        }
        return Done;
      case Remove =>
        if output != null {
          RollbackWrite();
        }
        Remove();
        return Done;
      case Write(_) =>
        r := ExecuteWriting(c);
      case SeekWrite(_, _) =>
        r := ExecuteWriting(c);
      case TellWrite =>
        r := ExecuteWriting(c);
      case _ =>
        r := ExecuteReading(c);
    }

    // Any sequence of commands behaves as it does on flat files; nothing leaks and nothing is freed twice.
    method ExecuteAll(cs: seq<Command>) returns (rs: seq<Reply>)
      requires Valid() && Within(View(), SIZE_LIMIT)
      modifies Footprint()
      ensures Valid() && fresh(Footprint() - old(Footprint()))
      ensures |rs| == |cs| && Run(old(View()), cs, rs, View())
      ensures heap.live - Owned() == old(heap.live - Owned())
    {
      hide Run, Step, Within, ReadData.Linked, Buffer.Valid, Buffer.Consistent, ReadData.Owned;
      ghost var start := View();
      rs := [];
      assert cs[..0] == [];
      RunOfNothing(start);
      for i := 0 to |cs|
        invariant Valid() && fresh(Footprint() - old(Footprint()))
        invariant |rs| == i && Run(start, cs[..i], rs, View())
        invariant Within(View(), SIZE_LIMIT)
        invariant heap.live - Owned() == old(heap.live - Owned())
      {
        ghost var before := View();
        FarBelow(before);
        var r := Execute(cs[i]);
        StepStaysWithin(before, cs[i], r, View(), SIZE_LIMIT);
        RunExtends(start, cs[..i], rs, before, cs[i], r, View());
        assert cs[..i + 1] == cs[..i] + [cs[i]];
        rs := rs + [r];
      }
      assert cs[..|cs|] == cs;
    }
  }

  lemma FarBelow(s: State)
    requires Within(s, SIZE_LIMIT)
    ensures Within(s, UINT64_MAX)
  {
  }

  // The caller hands over blocks that are live and passes each of them once.
  ghost predicate HandsOver(fs: seq<UserFragment>, live: set<array<byte>>) {
    && UserBlocks(fs) <= live
    && forall i, k :: 0 <= i < k < |fs| && fs[i].data != null ==> fs[i].data != fs[k].data
  }

  // The blocks of the empty, and of the other fragments among the first n.
  ghost function EmptyBlocks(fs: seq<UserFragment>, n: nat): set<array<byte>>
    requires n <= |fs|
  {
    set i | 0 <= i < n && fs[i].length == 0 && fs[i].data != null :: fs[i].data
  }

  ghost function KeptBlocks(fs: seq<UserFragment>, n: nat): set<array<byte>>
    requires n <= |fs|
  {
    set i | 0 <= i < n && fs[i].length > 0 && fs[i].data != null :: fs[i].data
  }

  lemma BlocksNext(fs: seq<UserFragment>, n: nat)
    requires n < |fs| && HandsOver(fs, UserBlocks(fs))
    ensures EmptyBlocks(fs, n + 1) == EmptyBlocks(fs, n) +
      if fs[n].length == 0 && fs[n].data != null then {fs[n].data} else {}
    ensures KeptBlocks(fs, n + 1) == KeptBlocks(fs, n) +
      if fs[n].length > 0 && fs[n].data != null then {fs[n].data} else {}
    ensures fs[n].data != null ==> fs[n].data !in EmptyBlocks(fs, n) && fs[n].data !in KeptBlocks(fs, n)
  {
  }

  lemma EmptyOrKept(fs: seq<UserFragment>)
    requires HandsOver(fs, UserBlocks(fs))
    ensures UserBlocks(fs) == EmptyBlocks(fs, |fs|) + KeptBlocks(fs, |fs|)
    ensures EmptyBlocks(fs, |fs|) !! KeptBlocks(fs, |fs|)
  {
  }

  lemma LinearAppend(fragments: seq<Fragment>, f: Fragment)
    requires Linear(fragments) && f.data !in OwnedBy(fragments)
    requires forall i :: 0 <= i < |fragments| ==> fragments[i].freeData == f.freeData
    ensures Linear(fragments + [f])
    ensures OwnedBy(fragments + [f]) == OwnedBy(fragments) + if f.freeData then {f.data} else {}
  {
    var after := fragments + [f];
    assert after[|fragments|] == f;
    assert forall i :: 0 <= i < |fragments| ==> after[i] == fragments[i];
    assert forall i :: 0 <= i < |fragments| && fragments[i].freeData ==> fragments[i].data in OwnedBy(fragments);
    forall b | b in OwnedBy(fragments)
      ensures b in OwnedBy(after)
    {
      var i :| 0 <= i < |fragments| && fragments[i].freeData && fragments[i].data == b;
      assert after[i].data == b;
    }
  }

  lemma {:induction false} KeptAreOwned(fs: seq<UserFragment>, freeData: bool, n: nat)
    requires n <= |fs| && (freeData ==> HandsOver(fs, UserBlocks(fs)))
    ensures var kept := Kept(fs, freeData, n);
            && Linear(kept)
            && OwnedBy(kept) == (if freeData then KeptBlocks(fs, n) else {})
            && forall i :: 0 <= i < |kept| ==> kept[i].freeData == freeData
  {
    hide Linear, OwnedBy, UserBlocks;
    if n > 0 {
      KeptAreOwned(fs, freeData, n - 1);
      if freeData {
        BlocksNext(fs, n - 1);
      }
      var last := fs[n - 1];
      if last.length > 0 && last.data != null {
        LinearAppend(Kept(fs, freeData, n - 1), Fragment(last.data, last.length, freeData));
      } else {
        assert Kept(fs, freeData, n) == Kept(fs, freeData, n - 1);
      }
    } else {
      NothingKept();
    }
  }

  lemma NothingKept()
    ensures Linear([]) && OwnedBy([]) == {}
  {
  }

  // Free the blocks that are not kept (lines 181-188).
  method FreeEmptyBlocks(heap: Heap, fs: seq<UserFragment>)
    requires HandsOver(fs, UserBlocks(fs)) && EmptyBlocks(fs, |fs|) <= heap.live
    modifies heap
    ensures heap.live == old(heap.live) - EmptyBlocks(fs, |fs|)
  {
    for i := 0 to |fs|
      invariant heap.live == old(heap.live) - EmptyBlocks(fs, i)
    {
      BlocksNext(fs, i);
      if fs[i].length == 0 && fs[i].data != null {
        assert fs[i].data in EmptyBlocks(fs, |fs|);
        heap.Free(fs[i].data);
      }
    }
  }

  // Create a source for the caller's fragments (lines 150-191). With freep it takes over all their blocks,
  // but only if it succeeds; the ones of empty fragments are not kept, so they are freed at once.
  method Create(heap: Heap, fs: seq<UserFragment>, freep: bool) returns (r: Option<ReadData>)
    requires Readable(fs) && (freep ==> HandsOver(fs, heap.live))
    modifies heap
    ensures r.None? <==> DataMissing(fs) || UserLength(fs, |fs|) > UINT64_MAX
    ensures r.None? ==> heap.live == old(heap.live)
    ensures r.Some? ==>
      var ctx := r.value;
      && fresh(ctx) && ctx.heap == heap && ctx.Valid() && ctx.output == null && fresh(ctx.input)
      && ctx.View() == State(File(UserBytes(fs, |fs|), 0), None)
      && heap.live - ctx.Owned() == old(heap.live) - if freep then UserBlocks(fs) else {}
  {
    hide Joins, PrefixSums, DataMissing, UserLength, Linear, OwnedBy;
    var buffer := NewBuffer(fs, freep);
    if buffer.None? {
      return None;
    }
    KeptAreOwned(fs, freep, |fs|);
    if freep {
      EmptyOrKept(fs);
    }
    var ctx := new ReadData(heap, buffer.value);
    if freep {
      FreeEmptyBlocks(heap, fs);
    }
    return Some(ctx);
  }
}
