// A window on a part of another source (lib/zip_source_window.c). Several windows may share one seekable source.
module WindowSource {
  import opened Bytes
  import opened SourceSeek
  import opened SourceRead

  // A window as if it had the content for itself: where it starts and ends, if it does, and its cursor.
  datatype View = View(content: seq<byte>, start: nat, end: Option<nat>, offset: nat)

  datatype Command = Read(len: nat) | Seek(delta: int64, whence: Whence)
  datatype Reply = Data(bytes: seq<byte>) | Moved | Failed

  predicate InWindow(v: View) {
    && v.start <= v.offset <= INT64_MAX && (v.end.Some? ==> v.offset <= v.end.value <= INT64_MAX)
    && |v.content| <= INT64_MAX
  }

  // The data of a window that ends behind its source breaks off with an error.
  function ReadView(v: View, len: nat): (View, Reply)
    requires InWindow(v)
  {
    var wanted := if v.end.Some? then Min(len, v.end.value - v.offset) else len;
    if wanted == 0 then (v, Data([]))
    else if v.offset > |v.content| || (v.offset == |v.content| && v.end.Some?) then (v, Failed)
    else
      var n := Min(wanted, |v.content| - v.offset);
      (v.(offset := v.offset + n), Data(v.content[v.offset..v.offset + n]))
  }

  function Limit(v: View): int {
    (if v.end.Some? then v.end.value else |v.content|) - v.start
  }

  function SeekView(v: View, delta: int64, whence: Whence): (View, Reply)
    requires InWindow(v)
  {
    var to := delta + match whence case SeekSet => 0 case SeekCur => v.offset - v.start case SeekEnd => Limit(v);
    if 0 <= to <= Limit(v) then (v.(offset := v.start + to), Moved) else (v, Failed)
  }

  function StepView(v: View, c: Command): (r: (View, Reply))
    requires InWindow(v)
    ensures InWindow(r.0) && r.0.(offset := v.offset) == v
  {
    match c
    case Read(len) => ReadView(v, len)
    case Seek(delta, whence) => SeekView(v, delta, whence)
  }

  // Commands for several windows one after another: each is for the window with the given number.
  type Schedule = seq<(nat, Command)>

  ghost predicate AllInWindow(views: seq<View>) {
    forall w :: 0 <= w < |views| ==> InWindow(views[w])
  }

  ghost predicate ForThese(schedule: Schedule, count: nat) {
    forall i :: 0 <= i < |schedule| ==>
        schedule[i].0 < count && (schedule[i].1.Read? ==> schedule[i].1.len <= INT64_MAX)
  }

  // All windows and all replies after a schedule was executed.
  ghost function RunViews(views: seq<View>, schedule: Schedule): (r: (seq<View>, seq<Reply>))
    requires AllInWindow(views) && ForThese(schedule, |views|)
    ensures |r.0| == |views| && AllInWindow(r.0) && |r.1| == |schedule|
  {
    if schedule == [] then (views, [])
    else
      var last := |schedule| - 1;
      var (before, replies) := RunViews(views, schedule[..last]);
      var (w, c) := schedule[last];
      var (after, reply) := StepView(before[w], c);
      (before[w := after], replies + [reply])
  }

  // One window and its replies if it is used alone.
  ghost function RunAlone(view: View, commands: seq<Command>): (r: (View, seq<Reply>))
    requires InWindow(view)
    ensures InWindow(r.0)
  {
    if commands == [] then (view, [])
    else
      var last := |commands| - 1;
      var (before, replies) := RunAlone(view, commands[..last]);
      var (after, reply) := StepView(before, commands[last]);
      (after, replies + [reply])
  }

  // The commands for one window.
  function CommandsFor(schedule: Schedule, w: nat): seq<Command> {
    if schedule == [] then []
    else
      CommandsFor(schedule[..|schedule| - 1], w) +
      if schedule[|schedule| - 1].0 == w then [schedule[|schedule| - 1].1] else []
  }

  // The replies to them.
  function RepliesFor(schedule: Schedule, replies: seq<Reply>, w: nat): seq<Reply>
    requires |schedule| == |replies|
  {
    if schedule == [] then []
    else
      var last := |schedule| - 1;
      RepliesFor(schedule[..last], replies[..last], w) + if schedule[last].0 == w then [replies[last]] else []
  }

  // However the use of the windows is interleaved, each gets the replies it would get alone.
  lemma {:induction false} WindowsAreIndependent(views: seq<View>, schedule: Schedule, w: nat)
    requires AllInWindow(views) && ForThese(schedule, |views|) && w < |views|
    ensures var (after, replies) := RunViews(views, schedule);
            RunAlone(views[w], CommandsFor(schedule, w)) == (after[w], RepliesFor(schedule, replies, w))
  {
    hide StepView, InWindow;
    if schedule != [] {
      var last := |schedule| - 1;
      WindowsAreIndependent(views, schedule[..last], w);
      var replies := RunViews(views, schedule).1;
      assert replies[..last] == RunViews(views, schedule[..last]).1;
      if schedule[last].0 == w {
        var commands := CommandsFor(schedule, w);
        assert commands[..|commands| - 1] == CommandsFor(schedule[..last], w);
      } else {
        assert CommandsFor(schedule, w) == CommandsFor(schedule[..last], w);
        assert RepliesFor(schedule, replies, w) == RepliesFor(schedule[..last], replies[..last], w);
      }
    }
  }

  class Window {
    const source: Source
    var start: nat
    var end: Option<nat>
    var offset: nat

    // Where the data starts in the source, if the window is relative to the data of an archive entry and was not
    // opened yet.
    var dataOffset: Option<nat>

    ghost predicate Valid()
      reads this, source, source.callback
    {
      source.Valid() && source.canSeek && InWindow(Current())
    }

    ghost function Current(): View
      reads this
    {
      View(source.callback.content, start, end, offset)
    }

    constructor (source: Source, start: nat, length: Option<nat>, dataOffset: Option<nat>)
      requires source.Valid() && source.canSeek
      requires start + (if length.Some? then length.value else 0)
               + (if dataOffset.Some? then dataOffset.value else 0) <= INT64_MAX
      ensures Valid() && this.source == source && this.start == start && this.dataOffset == dataOffset
      ensures end == if length.Some? then Some(start + length.value) else None
    {
      this.source, this.start, this.dataOffset := source, start, dataOffset;
      end := if length.Some? then Some(start + length.value) else None;
      offset := start;
    }

    // (lines 194-239)
    method Open()
      requires Valid()
      requires dataOffset.Some? ==> dataOffset.value + (if end.Some? then end.value else start) <= INT64_MAX
      modifies this
      ensures Valid() && dataOffset.None? && offset == start
      ensures var shift := if old(dataOffset).Some? then old(dataOffset).value else 0;
              start == old(start) + shift && end == if old(end).Some? then Some(old(end).value + shift) else None
    {
      if dataOffset.Some? {
        if end.Some? {
          end := Some(end.value + dataOffset.value);
        }
        start := start + dataOffset.value;
        dataOffset := None;
      }
      offset := start;
    }

    // Whatever was read from the source before, the data is that at the cursor of the window (lines 241-274).
    method Read(len: nat) returns (reply: Reply)
      requires Valid() && len <= INT64_MAX
      modifies this`offset, source, source.callback
      ensures Valid() && (Current(), reply) == ReadView(old(Current()), len)
    {
      var wanted := len;
      if end.Some? && len > end.value - offset {
        wanted := end.value - offset;
      }
      if wanted == 0 {
        return Data([]);
      }
      var ok := source.Seek(offset, SeekSet);
      if !ok {
        return Failed;
      }
      var bytes := source.ReadBytes(wanted);
      if bytes == [] && end.Some? && offset < end.value {
        return Failed;
      }
      assert bytes == source.callback.content[offset..offset + |bytes|];
      offset := offset + |bytes|;
      return Data(bytes);
    }

    // (lines 276-327)
    method Seek(delta: int64, whence: Whence) returns (reply: Reply)
      requires Valid()
      modifies this`offset, source, source.callback
      ensures Valid() && (Current(), reply) == SeekView(old(Current()), delta, whence)
    {
      if end.None? && whence == SeekEnd {
        var ok := source.Seek(delta, whence);
        if !ok {
          return Failed;
        }
        var lower := source.Tell();
        if lower < start {
          return Failed;
        }
        offset := lower;
        return Moved;
      }
      var length := if end.Some? then end.value - start else INT64_MAX;
      ComputeOffsetIsExact(offset - start, length, delta, whence);
      var moved := ComputeOffset(offset - start, length, delta, whence);
      if moved < 0 {
        return Failed;
      }
      var to := moved + start;
      if end.None? {
        if to > INT64_MAX {
          return Failed;
        }
        var ok := source.Seek(to, SeekSet);
        if !ok {
          return Failed;
        }
      }
      offset := to;
      return Moved;
    }

    method Execute(c: Command) returns (reply: Reply)
      requires Valid() && (c.Read? ==> c.len <= INT64_MAX)
      modifies this`offset, source, source.callback
      ensures Valid() && (Current(), reply) == StepView(old(Current()), c)
    {
      match c {
        case Read(len) => reply := Read(len);
        case Seek(delta, whence) => reply := Seek(delta, whence);
      }
    }
  }

  ghost predicate Share(windows: seq<Window>, source: Source)
    reads windows, source, source.callback
  {
    && (forall w :: 0 <= w < |windows| ==> windows[w].source == source && windows[w].Valid())
    && (forall v, w :: 0 <= v < w < |windows| ==> windows[v] != windows[w])
  }

  ghost function Views(windows: seq<Window>): (views: seq<View>)
    reads windows
    ensures |views| == |windows| && forall w :: 0 <= w < |windows| ==> views[w] == windows[w].Current()
  {
    seq(|windows|, w requires 0 <= w < |windows| reads windows => windows[w].Current())
  }

  // Any schedule of commands for windows that share a source.
  method RunSchedule(windows: seq<Window>, schedule: Schedule, source: Source) returns (replies: seq<Reply>)
    requires Share(windows, source) && ForThese(schedule, |windows|)
    modifies windows, source, source.callback
    ensures Share(windows, source) && AllInWindow(old(Views(windows)))
    ensures (Views(windows), replies) == RunViews(old(Views(windows)), schedule)
  {
    hide StepView, InWindow;
    replies := [];
    for i := 0 to |schedule|
      invariant Share(windows, source) && AllInWindow(old(Views(windows))) && ForThese(schedule[..i], |windows|)
      invariant (Views(windows), replies) == RunViews(old(Views(windows)), schedule[..i])
    {
      var (w, c) := schedule[i];
      ghost var before := Views(windows);
      var reply := windows[w].Execute(c);
      replies := replies + [reply];
      assert schedule[..i + 1][..i] == schedule[..i];
      assert Views(windows) == before[w := windows[w].Current()];
    }
    assert schedule[..|schedule|] == schedule;
  }
}
