// The reference model of a memory source with a write session: what can be read, and what is being written.
module WriteSession {
  import opened Bytes
  import opened FlatFile
  import opened SourceSeek

  datatype Command =
    | Open
    | Read(length: nat)
    | Seek(delta: int64, whence: Whence)
    | Tell
    | AtEof
    | Stat
    | BeginWrite
    | BeginWriteCloning(length: nat)
    | Write(data: seq<byte>)
    | SeekWrite(delta: int64, whence: Whence)
    | TellWrite
    | CommitWrite
    | RollbackWrite
    | Remove

  datatype Reply = Done | Refused | Number(n: nat) | Data(bytes: seq<byte>)

  datatype State = State(input: File, output: Option<File>)

  function SeekTo(f: File, delta: int64, whence: Whence): Option<File>
    requires f.Valid()
  {
    var position := ComputeOffset(f.pos, |f.bytes|, delta, whence);
    if position >= 0 then Some(f.(pos := position)) else None
  }

  function PositionOf(f: File): Reply {
    if f.pos > INT64_MAX then Refused else Number(f.pos)
  }

  // The commands that only look at the input.
  predicate IsReading(c: Command) {
    c.Open? || c.Read? || c.Seek? || c.Tell? || c.AtEof? || c.Stat?
  }

  // What such a command replies and does on a file of its own.
  function ReadStep(f: File, c: Command): (File, Reply)
    requires IsReading(c) && f.pos <= |f.bytes| <= UINT64_MAX
  {
    match c
    case Open => (f.(pos := 0), Done)
    case Read(length) =>
      if length > INT64_MAX then (f, Refused) else (f.(pos := f.pos + f.Available(length)), Data(f.Next(length)))
    case Seek(delta, whence) =>
      (match SeekTo(f, delta, whence)
       case Some(g) => (g, Done)
       case None => (f, Refused))
    case Tell => (f, PositionOf(f))
    case AtEof => (f, Number(if f.pos == |f.bytes| then 1 else 0))
    case Stat => (f, Number(|f.bytes|))
  }

  // What a command may reply and do. Only cloning has a choice: it may refuse a non-empty prefix.
  ghost predicate Step(s: State, c: Command, r: Reply, s': State)
    requires Within(s, UINT64_MAX)
  {
    match c
    case Open | Read(_) | Seek(_, _) | Tell | AtEof | Stat =>
      (s', r) == (s.(input := ReadStep(s.input, c).0), ReadStep(s.input, c).1)
    case BeginWrite =>
      if s.output.Some? then r == Refused && s' == s else r == Done && s' == s.(output := Some(File([], 0)))
    case BeginWriteCloning(length) =>
      || (r == Refused && s' == s && (s.output.Some? || length > 0))
      || (&& r == Done && s.output.None? && length <= |s.input.bytes|
          && s' == s.(output := Some(File(s.input.bytes[..length], length))))
    case Write(data) =>
      if s.output.None? || !CanWrite(s.output.value, data) then r == Refused && s' == s
      else r == Number(|data|) && s' == s.(output := Some(s.output.value.Write(data)))
    case SeekWrite(delta, whence) =>
      if s.output.None? then r == Refused && s' == s
      else
        (match SeekTo(s.output.value, delta, whence)
         case Some(f) => r == Done && s' == s.(output := Some(f))
         case None => r == Refused && s' == s)
    case TellWrite => r == (if s.output.None? then Refused else PositionOf(s.output.value)) && s' == s
    case CommitWrite =>
      if s.output.None? then r == Refused && s' == s else r == Done && s' == State(s.output.value, None)
    case RollbackWrite => r == Done && s' == s.(output := None)
    case Remove => r == Done && s' == State(File([], 0), None)
  }

  // Written data has to end this far before 2^64 (lib/zip_source_buffer.c:586-591).
  const SIZE_LIMIT: int := TWO_64 - 0x1_0000

  predicate CanWrite(f: File, data: seq<byte>) {
    |data| <= INT64_MAX && f.pos + |data| <= SIZE_LIMIT
  }

  // States a source can be in while at most limit bytes are involved.
  ghost predicate Within(s: State, limit: int)
    ensures Within(s, limit) ==> s.input.pos <= |s.input.bytes| <= UINT64_MAX
  {
    && s.input.Valid() && |s.input.bytes| <= limit
    && (s.output.Some? ==> s.output.value.Valid() && |s.output.value.bytes| <= limit)
  }

  // s' is reached from s by a run of commands with these replies.
  ghost predicate Run(s: State, cs: seq<Command>, rs: seq<Reply>, s': State)
    requires |cs| == |rs|
    decreases |cs|
  {
    if cs == [] then s' == s
    else
      exists m :: Within(m, UINT64_MAX) && Run(s, cs[..|cs| - 1], rs[..|rs| - 1], m)
        && Step(m, cs[|cs| - 1], rs[|rs| - 1], s')
  }

  // No run of commands makes a source outgrow the limit.
  lemma StepStaysWithin(s: State, c: Command, r: Reply, s': State, limit: int)
    requires SIZE_LIMIT <= limit <= UINT64_MAX && Within(s, limit) && Step(s, c, r, s')
    ensures Within(s', limit)
  {
  }

  lemma RunOfNothing(s: State)
    ensures Run(s, [], [], s)
  {
  }

  lemma RunExtends(s: State, cs: seq<Command>, rs: seq<Reply>, m: State, c: Command, r: Reply, s': State)
    requires |cs| == |rs| && Run(s, cs, rs, m) && Within(m, UINT64_MAX) && Step(m, c, r, s')
    ensures Run(s, cs + [c], rs + [r], s')
  {
    assert (cs + [c])[..|cs|] == cs && (rs + [r])[..|rs|] == rs;
  }

  // ---- What a write session does

  // Commands after which the input may be another one, or which end the session.
  predicate EndsSession(c: Command) {
    c.CommitWrite? || c.RollbackWrite? || c.Remove?
  }

  ghost predicate KeepsSession(cs: seq<Command>) {
    forall i :: 0 <= i < |cs| ==> !EndsSession(cs[i])
  }

  // The effect of a single command on the file being written.
  function EditStep(f: File, c: Command): File {
    if c.Write? && CanWrite(f, c.data) && f.pos <= |f.bytes| then f.Write(c.data)
    else if c.SeekWrite? && f.pos <= |f.bytes| <= UINT64_MAX then
      (match SeekTo(f, c.delta, c.whence)
       case Some(g) => g
       case None => f)
    else f
  }

  // The file that results from the writes and seeks among the commands.
  function Edited(f: File, cs: seq<Command>): File {
    if cs == [] then f else EditStep(Edited(f, cs[..|cs| - 1]), cs[|cs| - 1])
  }

  lemma StepInSession(s: State, c: Command, r: Reply, s': State)
    requires Within(s, UINT64_MAX) && Step(s, c, r, s') && s.output.Some? && !EndsSession(c)
    ensures s'.input.bytes == s.input.bytes && s'.output == Some(EditStep(s.output.value, c))
  {
  }

  // Whatever is read, sought or written, and in whatever order: the input's bytes stay as they are,
  // and the output is what the writes and seeks among the commands make of it.
  lemma {:induction false} SessionIsolation(s: State, cs: seq<Command>, rs: seq<Reply>, s': State)
    requires |cs| == |rs| && Run(s, cs, rs, s') && KeepsSession(cs)
    requires s.output.Some?
    ensures s'.input.bytes == s.input.bytes
    ensures s'.output == Some(Edited(s.output.value, cs))
    decreases |cs|
  {
    hide Step, EditStep, Within;
    if cs != [] {
      var n := |cs| - 1;
      var m :| Within(m, UINT64_MAX) && Run(s, cs[..n], rs[..n], m) && Step(m, cs[n], rs[n], s');
      SessionIsolation(s, cs[..n], rs[..n], m);
      StepInSession(m, cs[n], rs[n], s');
    }
  }

  // The reading commands alone, on a file that nothing else is done to: the file after them and their replies.
  function ReadAlone(f: File, cs: seq<Command>): (r: (File, seq<Reply>))
    requires f.pos <= |f.bytes| <= UINT64_MAX
    ensures r.0.bytes == f.bytes && r.0.pos <= |f.bytes|
  {
    if cs == [] then (f, [])
    else
      var (g, replies) := ReadAlone(f, cs[..|cs| - 1]);
      var c := cs[|cs| - 1];
      if !IsReading(c) then (g, replies) else (ReadStep(g, c).0, replies + [ReadStep(g, c).1])
  }

  // The replies to the reading commands among others.
  function ReadReplies(cs: seq<Command>, rs: seq<Reply>): seq<Reply>
    requires |cs| == |rs|
    decreases |cs|
  {
    if cs == [] then []
    else
      var n := |cs| - 1;
      ReadReplies(cs[..n], rs[..n]) + if IsReading(cs[n]) then [rs[n]] else []
  }

  lemma InputStep(s: State, c: Command, r: Reply, s': State)
    requires Within(s, UINT64_MAX) && Step(s, c, r, s') && !EndsSession(c)
    ensures if IsReading(c) then s'.input == ReadStep(s.input, c).0 && r == ReadStep(s.input, c).1
            else s'.input == s.input
  {
  }

  // All that is seen of the input in a session is what would be seen of it had nothing been written: the replies to
  // the reading commands, and the input with its cursor afterwards, are those of the reading commands alone.
  lemma {:induction false} ReadsSeeTheSnapshot(s: State, cs: seq<Command>, rs: seq<Reply>, s': State)
    requires |cs| == |rs| && Run(s, cs, rs, s') && KeepsSession(cs) && Within(s, UINT64_MAX)
    ensures s'.input == ReadAlone(s.input, cs).0 && ReadReplies(cs, rs) == ReadAlone(s.input, cs).1
    decreases |cs|
  {
    hide Step, ReadStep, Within;
    if cs != [] {
      var n := |cs| - 1;
      var m :| Within(m, UINT64_MAX) && Run(s, cs[..n], rs[..n], m) && Step(m, cs[n], rs[n], s');
      ReadsSeeTheSnapshot(s, cs[..n], rs[..n], m);
      InputStep(m, cs[n], rs[n], s');
      assert ReadReplies(cs[..n], rs[..n]) + [] == ReadReplies(cs[..n], rs[..n]);
    }
  }

  // The file a session starts to write.
  function Started(input: File, begin: Command): File
    requires begin.BeginWrite? || (begin.BeginWriteCloning? && begin.length <= |input.bytes|)
  {
    if begin.BeginWrite? then File([], 0) else File(input.bytes[..begin.length], begin.length)
  }

  // A session is atomic: a commit makes the source the edited file, a rollback leaves the bytes it had.
  lemma {:induction false} SessionIsAtomic(s: State, begin: Command, cs: seq<Command>, end: Command, rs: seq<Reply>,
      s': State)
    requires |rs| == |cs| + 2 && Run(s, [begin] + cs + [end], rs, s') && KeepsSession(cs)
    requires Within(s, UINT64_MAX) && s.output.None?
    requires begin.BeginWrite? || begin.BeginWriteCloning?
    requires rs[0] == Done
    requires end.CommitWrite? || end.RollbackWrite?
    ensures begin.BeginWriteCloning? ==> begin.length <= |s.input.bytes|
    ensures s'.output.None?
    ensures s'.input.bytes == if end.CommitWrite? then Edited(Started(s.input, begin), cs).bytes else s.input.bytes
  {
    hide Edited, Started, Step, Within;
    var all := [begin] + cs + [end];
    var n := |cs| + 1;
    assert all[..n] == [begin] + cs;
    var m :| Within(m, UINT64_MAX) && Run(s, all[..n], rs[..n], m) && Step(m, all[n], rs[n], s');
    var b := RunFromFirst(s, begin, cs, rs[..n], m);
    SessionStarts(s, begin, rs[0], b);
    SessionIsolation(b, cs, rs[1..n], m);
    SessionEnds(m, end, rs[n], s');
  }

  lemma SessionStarts(s: State, begin: Command, r: Reply, s': State)
    requires Within(s, UINT64_MAX) && Step(s, begin, r, s') && r == Done
    requires begin.BeginWrite? || begin.BeginWriteCloning?
    ensures begin.BeginWriteCloning? ==> begin.length <= |s.input.bytes|
    ensures s' == State(s.input, Some(Started(s.input, begin)))
  {
  }

  lemma SessionEnds(s: State, end: Command, r: Reply, s': State)
    requires Within(s, UINT64_MAX) && Step(s, end, r, s') && s.output.Some?
    requires end.CommitWrite? || end.RollbackWrite?
    ensures s' == if end.CommitWrite? then State(s.output.value, None) else State(s.input, None)
  {
  }

  // A run can be split after its first command.
  lemma {:induction false} RunFromFirst(s: State, c: Command, cs: seq<Command>, rs: seq<Reply>, s': State)
      returns (b: State)
    requires |rs| == |cs| + 1 && Run(s, [c] + cs, rs, s') && Within(s, UINT64_MAX)
    ensures Step(s, c, rs[0], b) && Run(b, cs, rs[1..], s')
    decreases |cs|
  {
    var all := [c] + cs;
    var n := |cs|;
    var m :| Within(m, UINT64_MAX) && Run(s, all[..n], rs[..n], m) && Step(m, all[n], rs[n], s');
    if n == 0 {
      assert m == s;
      b := s';
    } else {
      assert all[..n] == [c] + cs[..n - 1];
      b := RunFromFirst(s, c, cs[..n - 1], rs[..n], m);
      assert rs[..n][1..] == rs[1..][..n - 1];
    }
  }
}
