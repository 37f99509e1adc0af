// The layer that compresses data, or stores it if compressing does not make it smaller (lib/zip_source_compress.c).
module CompressSource {
  import opened Bytes
  import opened SourceRead

  const BUFSIZE: nat := 8192

  datatype Status = More | NeedData | Ended | Broken

  // A compression algorithm as its driver sees it: a state that takes input, is told of its end, and delivers output.
  datatype Codec<!S> = Codec(
    start: S, input: (S, seq<byte>) -> S, endOfInput: S -> S, process: (S, nat) -> (S, Status, seq<byte>),
    decode: seq<byte> -> Option<seq<byte>>)

  // A state in which the codec was given some input, perhaps all, and has delivered some output.
  type Account<!S> = (S, seq<byte>, bool, seq<byte>) -> bool

  // What is expected of a codec: it does not end before the input does, and then all its output decodes to all its
  // input. It delivers something whenever it says there is more to come, and asks for no input behind the end.
  ghost predicate Lawful<S(!new)>(codec: Codec<S>, account: Account<S>) {
    && account(codec.start, [], false, [])
    && (forall s, fed, out, x {:trigger account(codec.input(s, x), fed + x, false, out)} ::
          account(s, fed, false, out) ==>
          account(codec.input(s, x), fed + x, false, out))
    && (forall s, fed, out {:trigger account(codec.endOfInput(s), fed, true, out)} :: account(s, fed, false, out) ==>
          account(codec.endOfInput(s), fed, true, out))
    && (forall s, fed, ended, out, room: nat {:trigger account(s, fed, ended, out), codec.process(s, room)} ::
          account(s, fed, ended, out) ==> Delivers(codec, account, fed, ended, out, room, codec.process(s, room)))
  }

  ghost predicate Delivers<S(!new)>(codec: Codec<S>, account: Account<S>, fed: seq<byte>, ended: bool, out: seq<byte>,
      room: nat, r: (S, Status, seq<byte>)) {
    && |r.2| <= room && (r.1 != Broken ==> account(r.0, fed, ended, out + r.2))
    && (r.1 == Ended ==> ended && codec.decode(out + r.2) == Some(fed))
    && (r.1 == More && room > 0 ==> r.2 != []) && (r.1 == NeedData ==> !ended)
  }

  // There are lawful codecs: one that copies its input.
  function Copying(): Codec<(seq<byte>, bool)> {
    Codec(([], false), (s: (seq<byte>, bool), x: seq<byte>) => (s.0 + x, s.1), (s: (seq<byte>, bool)) => (s.0, true),
          (s: (seq<byte>, bool), room: nat) =>
            if s.0 != [] then ((s.0[Min(room, |s.0|)..], s.1), More, s.0[..Min(room, |s.0|)])
            else (s, if s.1 then Ended else NeedData, []),
          (b: seq<byte>) => Some(b))
  }

  lemma CopyingIsLawful()
    ensures Lawful(Copying(), (s: (seq<byte>, bool), fed: seq<byte>, ended: bool, out: seq<byte>) =>
                     s.1 == ended && fed == out + s.0)
  {
    var codec := Copying();
    var account := (s: (seq<byte>, bool), fed: seq<byte>, ended: bool, out: seq<byte>) =>
      s.1 == ended && fed == out + s.0;
    forall s, fed: seq<byte>, out: seq<byte>, x: seq<byte> | account(s, fed, false, out)
      ensures account(codec.input(s, x), fed + x, false, out)
    {
      assert out + s.0 + x == out + (s.0 + x);
    }
    forall s, fed: seq<byte>, ended: bool, out: seq<byte>, room: nat | account(s, fed, ended, out)
      ensures Delivers(codec, account, fed, ended, out, room, codec.process(s, room))
    {
      var n := Min(room, |s.0|);
      assert out + s.0 == out + s.0[..n] + s.0[n..];
    }
  }

  lemma ProcessDelivers<S(!new)>(codec: Codec<S>, account: Account<S>, s: S, fed: seq<byte>, ended: bool,
      out: seq<byte>, room: nat)
    requires Lawful(codec, account) && account(s, fed, ended, out)
    ensures Delivers(codec, account, fed, ended, out, room, codec.process(s, room))
  {
  }

  class CompressSource<S(!new)> {
    const codec: Codec<S>
    const source: Source
    ghost const account: Account<S>
    var state: S
    var failed: bool
    var endOfInput: bool
    var endOfStream: bool
    var canStore: bool
    var isStored: bool
    var size: nat
    var firstRead: int
    var buffer: seq<byte>

    // All output so far.
    ghost var delivered: seq<byte>

    // What the codec was given of the data, which is what was read.
    ghost function Fed(): seq<byte>
      reads this, source, source.callback
    {
      source.callback.content[..Max(0, Min(source.Position(), |source.callback.content|))]
    }

    // All data fits the buffer.
    ghost predicate Small()
      reads source, source.callback
    {
      |source.callback.content| <= BUFSIZE
    }

    // As long as storing is possible nothing was delivered, and the buffer holds all input.
    ghost predicate Valid()
      reads this, source, source.callback
    {
      && source.Valid() && Lawful(codec, account) && size == |delivered| && |buffer| <= BUFSIZE
      && (canStore && !endOfStream ==>
          delivered == [] && if firstRead < 0 then Fed() == [] else buffer == Fed() && firstRead == |buffer|)
      && (endOfInput ==> source.Position() == |source.callback.content| && firstRead >= 0)
      && (canStore && firstRead >= 0 && Small() ==> source.Position() == |source.callback.content|)
      && (!endOfStream && !failed ==> account(state, Fed(), endOfInput, delivered))
      && (endOfStream && !failed ==> Truthful()) && (!endOfStream ==> !isStored)
    }

    // All data was taken, and the output means this data by the method that is reported.
    ghost predicate Truthful()
      reads this, source, source.callback
    {
      source.Position() == |source.callback.content|
        && if isStored then delivered == Fed() else codec.decode(delivered) == Some(Fed())
    }

    // Storing is possible with the default method (lines 156-179, 320-340).
    constructor (codec: Codec<S>, source: Source, mayStore: bool, ghost account: Account<S>)
      requires source.Valid() && source.Position() == 0 && Lawful(codec, account)
      ensures Valid() && this.source == source && this.codec == codec && delivered == [] && !endOfStream && !failed
      ensures canStore == mayStore
    {
      this.codec, this.source, this.account := codec, source, account;
      state, failed, endOfInput, endOfStream := codec.start, false, false, false;
      canStore, isStored, size, firstRead, buffer := mayStore, false, 0, -1, [];
      delivered := [];
    }

    // Give the codec more input, or tell it that there is no more (lines 269-291).
    method Feed(ghost out: seq<byte>)
      requires source.Valid() && Lawful(codec, account) && !endOfInput
      requires canStore ==> if firstRead < 0 then Fed() == [] else buffer == Fed() && firstRead == |buffer|
      requires account(state, Fed(), false, out)
      requires canStore && firstRead >= 0 && Small() ==> source.Position() == |source.callback.content|
      modifies this`state, this`endOfInput, this`firstRead, this`canStore, this`buffer, source, source.callback
      ensures source.Valid() && (canStore ==> old(canStore)) && firstRead >= 0
      ensures |buffer| <= BUFSIZE || buffer == old(buffer)
      ensures canStore ==> buffer == Fed() && firstRead == |buffer|
      ensures (old(canStore) && Small() ==> canStore)
      ensures (canStore && Small() ==> source.Position() == |source.callback.content|)
      ensures account(state, Fed(), endOfInput, out)
      ensures if endOfInput then source.Position() == |source.callback.content|
              else source.Position() > old(source.Position())
    {
      ghost var before, at := Fed(), source.Position();
      var chunk := source.ReadBytes(BUFSIZE);
      assert Fed() == before + chunk;
      if chunk == [] {
        assert before + chunk == before;
        endOfInput := true;
        state := codec.endOfInput(state);
        if firstRead < 0 {
          firstRead := 0;
          buffer := [];
        }
      } else {
        if firstRead >= 0 {
          canStore := false;
        } else {
          firstRead := |chunk|;
        }
        buffer := chunk;
        assert canStore ==> before + chunk == chunk;
        state := codec.input(state, chunk);
      }
    }

    // Where the layer is while a read goes on that has some output so far.
    ghost predicate Running(out: seq<byte>)
      reads this, source, source.callback
    {
      && source.Valid() && Lawful(codec, account) && size == |delivered| && |buffer| <= BUFSIZE
      && (canStore ==>
          delivered == [] && if firstRead < 0 then Fed() == [] else buffer == Fed() && firstRead == |buffer|)
      && (endOfInput ==> source.Position() == |source.callback.content| && firstRead >= 0)
      && (canStore && firstRead >= 0 && Small() ==> source.Position() == |source.callback.content|)
      && (!failed && !endOfStream ==> account(state, Fed(), endOfInput, delivered + out))
      && (endOfStream ==> !failed && endOfInput && codec.decode(delivered + out) == Some(Fed()))
    }

    // One turn of the loop (lines 213-301).
    method Turn(out: seq<byte>, room: nat) returns (more: seq<byte>)
      requires Running(out) && !failed && !endOfStream && room > 0
      modifies this`state, this`endOfInput, this`firstRead, this`canStore, this`buffer, this`failed, this`endOfStream,
               source, source.callback
      ensures Running(out + more) && |more| <= room && delivered == old(delivered)
      ensures (old(canStore) && Small() ==> canStore)
      ensures old(endOfInput) ==> endOfInput
      ensures old(source.Position()) <= source.Position() <= |source.callback.content|
      ensures failed || endOfStream || more != [] || source.Position() > old(source.Position())
              || (endOfInput && !old(endOfInput))
    {
      hide Lawful;
      ProcessDelivers(codec, account, state, Fed(), endOfInput, delivered + out, room);
      var (next, status, bytes) := codec.process(state, room);
      assert delivered + out + bytes == delivered + (out + bytes);
      state := next;
      more := if status == Broken then [] else bytes;
      match status {
        case Ended => endOfStream := true;
        case More =>
        case NeedData => Feed(delivered + (out + bytes));
        case Broken => failed := true;
      }
    }

    // The loop (lines 209-302).
    method Drive(len: nat) returns (out: seq<byte>)
      requires Running([]) && !failed && !endOfStream && len > 0
      modifies this`state, this`endOfInput, this`firstRead, this`canStore, this`buffer, this`failed, this`endOfStream,
               source, source.callback
      ensures Running(out) && |out| <= len && delivered == old(delivered) && (out == [] ==> failed || endOfStream)
      ensures old(canStore) && Small() ==> canStore
    {
      hide Lawful, Running;
      out := [];
      while !(failed || endOfStream) && |out| < len
        invariant Running(out) && |out| <= len && delivered == old(delivered) && (old(canStore) && Small() ==> canStore)
        decreases |source.callback.content| - source.Position(), if endOfInput then 0 else 1, len - |out|,
                  if failed || endOfStream then 0 else 1
      {
        var more := Turn(out, len - |out|);
        out := out + more;
      }
    }

    // Deliver up to len bytes (lines 194-311); None is an error. If storing is possible, all data fits the buffer and
    // the first read reaches the end, then no more is delivered than the data.
    method Read(len: nat) returns (r: Option<seq<byte>>)
      requires Valid()
      modifies this, source, source.callback
      ensures Valid() && (old(failed) ==> r.None?) && (r.None? ==> failed && delivered == old(delivered))
      ensures r.Some? ==> delivered == old(delivered) + r.value && |r.value| <= len
      ensures r == Some([]) && len > 0 ==> endOfStream
      ensures old(endOfStream) ==> endOfStream && delivered == old(delivered)
      ensures old(canStore) && Small() && !old(endOfStream) && endOfStream && r.Some? ==>
                |delivered| <= |source.callback.content|
    {
      hide Lawful;
      if failed {
        return None;
      }
      assert delivered + [] == delivered;
      if len == 0 || endOfStream {
        return Some([]);
      }
      var out := Drive(len);
      if endOfStream && canStore && firstRead <= |out| {
        isStored, size, delivered := true, firstRead, buffer;
        return Some(buffer);
      }
      if out != [] {
        canStore := false;
        size := size + |out|;
        delivered := delivered + out;
        return Some(out);
      }
      return if failed then None else Some([]);
    }

    // The method and size that are reported at the end of the stream (lines 351-364).
    method Stat() returns (known: bool, stored: bool, compSize: nat)
      requires Valid()
      ensures known == endOfStream
      ensures known && !failed ==> compSize == |delivered|
      ensures known && !failed ==>
                if stored then delivered == source.callback.content
                else codec.decode(delivered) == Some(source.callback.content)
    {
      assert source.callback.content[..|source.callback.content|] == source.callback.content;
      return endOfStream, isStored, size;
    }
  }
}
