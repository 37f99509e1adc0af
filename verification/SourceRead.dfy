// Reading from a source through its callback (lib/zip_source_read.c, lib/zip_source_at_eof.c, lib/zip_source_seek.c,
// lib/zip_source_tell.c).
module SourceRead {
  import opened Bytes
  import opened SourceSeek

  // The function behind a source. It has some content and a position in it, and delivers as many bytes at a time as it
  // likes, but at least one before the end.
  class Callback {
    const content: seq<byte>
    var position: nat

    ghost predicate Valid()
      reads this
    {
      position <= |content| <= INT64_MAX
    }

    constructor (content: seq<byte>)
      requires |content| <= INT64_MAX
      ensures Valid() && this.content == content && position == 0
    {
      this.content, position := content, 0;
    }

    method Read(len: nat) returns (bytes: seq<byte>)
      requires Valid() && 0 < len
      modifies this`position
      ensures Valid() && |bytes| <= len && position == old(position) + |bytes|
      ensures bytes == content[old(position)..position]
      ensures bytes == [] <==> old(position) == |content|
    {
      if position == |content| {
        return [];
      }
      var n: nat :| 1 <= n <= len && n <= |content| - position;
      position := position + n;
      return content[position - n..position];
    }
  }

  class Source {
    const callback: Callback
    const canSeek: bool
    const canAtEof: bool
    var eof: bool
    var bytesRead: uint64
    var haveNextByte: bool
    var nextByte: byte

    // A byte that was pushed back is the one before the position of the callback. The number of bytes read is the
    // position unless the source can seek.
    ghost predicate Valid()
      reads this, callback
    {
      && callback.Valid()
      && (haveNextByte ==>
          !canSeek && !canAtEof && callback.position > 0 && nextByte == callback.content[callback.position - 1])
      && (eof ==> Position() == |callback.content|)
      && (!canSeek ==> bytesRead == Position())
    }

    // Where the next byte comes from.
    ghost function Position(): int
      reads this, callback
    {
      callback.position - if haveNextByte then 1 else 0
    }

    ghost function Ahead(): seq<byte>
      requires Valid()
      reads this, callback
    {
      callback.content[Position()..]
    }

    constructor (callback: Callback, canSeek: bool, canAtEof: bool)
      requires callback.Valid() && callback.position == 0
      ensures Valid() && this.callback == callback && this.canSeek == canSeek && this.canAtEof == canAtEof
      ensures Position() == 0
    {
      this.callback, this.canSeek, this.canAtEof := callback, canSeek, canAtEof;
      eof, bytesRead, haveNextByte, nextByte := false, 0, false, 0;
    }

    // However little the callback delivers at a time, a read fills the buffer as far as there is data
    // (lib/zip_source_read.c:38-94).
    method Read(data: array<byte>, start: nat, len: nat) returns (n: nat)
      requires Valid() && start + len <= data.Length && len <= INT64_MAX
      modifies this, callback`position, data
      ensures Valid() && n == Min(len, |old(Ahead())|) && Position() == old(Position()) + n
      ensures forall k :: start <= k < start + n ==> data[k] == old(Ahead())[k - start]
      ensures forall k :: 0 <= k < data.Length && !(start <= k < start + n) ==> data[k] == old(data[k])
      ensures eof == (n < len || old(eof)) && (n > 0 ==> !haveNextByte)
    {
      if eof || len == 0 {
        return 0;
      }
      ghost var at := Position();
      n := 0;
      if haveNextByte {
        data[start] := nextByte;
        n := 1;
        haveNextByte := false;
      }
      while n < len
        invariant callback.Valid() && !haveNextByte && !eof && n <= len && callback.position == at + n
        invariant !canSeek ==> bytesRead == at
        invariant forall k :: start <= k < start + n ==> data[k] == callback.content[at + k - start]
        invariant forall k :: 0 <= k < data.Length && !(start <= k < start + n) ==> data[k] == old(data[k])
        decreases len - n
      {
        var got := callback.Read(len - n);
        if got == [] {
          eof := true;
          break;
        }
        forall k | 0 <= k < |got| {
          data[start + n + k] := got[k];
        }
        n := n + |got|;
      }
      bytesRead := if bytesRead + n > UINT64_MAX then UINT64_MAX else bytesRead + n;
    }

    // Read into a buffer of its own.
    method ReadBytes(len: nat) returns (bytes: seq<byte>)
      requires Valid() && len <= INT64_MAX
      modifies this, callback`position
      ensures Valid() && bytes == old(Ahead())[..Min(len, |old(Ahead())|)] && Position() == old(Position()) + |bytes|
      ensures eof == (|bytes| < len || old(eof))
    {
      var data := new byte[len];
      var n := Read(data, 0, len);
      return data[..n];
    }

    // Move to any place between the start and the end (lib/zip_source_seek.c:39-60).
    method Seek(offset: int64, whence: Whence) returns (ok: bool)
      requires Valid() && canSeek
      modifies this`eof, callback`position
      ensures Valid()
      ensures var target := Base(old(Position()), |callback.content|, whence) + offset;
        && ok == (0 <= target <= |callback.content|)
        && Position() == if ok then target else old(Position())
    {
      ComputeOffsetIsExact(callback.position, |callback.content|, offset, whence);
      var to := ComputeOffset(callback.position, |callback.content|, offset, whence);
      if to < 0 {
        return false;
      }
      callback.position := to;
      eof := false;
      return true;
    }

    // Whether the end is reached; nothing is lost or repeated by finding out (lib/zip_source_at_eof.c:3-43). What the
    // callback itself answers is taken to be right.
    method AtEof() returns (r: bool)
      requires Valid()
      modifies this, callback`position
      ensures Valid() && r == (old(Ahead()) == []) && Position() == old(Position())
    {
      if !eof {
        if canAtEof {
          if callback.position == |callback.content| {
            eof := true;
          }
        } else {
          var d := new byte[1];
          var n := Read(d, 0, 1);
          if n > 0 {
            assert d[0] == callback.content[old(Position())];
            if canSeek {
              var _ := Seek(-1, SeekCur);
            } else {
              haveNextByte := true;
              nextByte := d[0];
              bytesRead := bytesRead - 1;
            }
          }
        }
      }
      return eof;
    }

    // (lib/zip_source_tell.c:38-56)
    method Tell() returns (position: nat)
      requires Valid()
      ensures position == Position()
    {
      if !canSeek {
        return bytesRead;
      }
      return callback.position;
    }
  }
}
