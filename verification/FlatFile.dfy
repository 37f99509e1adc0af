// The reference model of a byte source: a flat sequence of bytes and a cursor.
module FlatFile {
  import opened Bytes

  datatype File = File(bytes: seq<byte>, pos: nat) {
    ghost predicate Valid() {
      pos <= |bytes| <= UINT64_MAX
    }

    // The number of bytes a read of the given length delivers.
    function Available(length: nat): nat
      requires pos <= |bytes|
    {
      Min(length, |bytes| - pos)
    }

    // The bytes such a read delivers.
    function Next(length: nat): seq<byte>
      requires pos <= |bytes|
    {
      bytes[pos..pos + Available(length)]
    }

    function Write(data: seq<byte>): File
      requires pos <= |bytes|
    {
      File(Overwrite(bytes, pos, data), pos + |data|)
    }
  }

  // Replace bytes from position at on by data, extending the sequence when data reaches past its end.
  function Overwrite(bytes: seq<byte>, at: nat, data: seq<byte>): (r: seq<byte>)
    requires at <= |bytes|
    ensures |r| == Max(|bytes|, at + |data|)
  {
    bytes[..at] + data + if at + |data| <= |bytes| then bytes[at + |data|..] else []
  }

  lemma OverwriteNothing(bytes: seq<byte>, at: nat, data: seq<byte>)
    requires at <= |bytes| && data == []
    ensures Overwrite(bytes, at, data) == bytes
  {
  }

  // Writing a first part and then the rest is writing the whole.
  lemma OverwriteInParts(bytes: seq<byte>, at: nat, data: seq<byte>, first: nat, next: nat)
    requires first <= next <= |data| && at + next <= |bytes|
    ensures Overwrite(Overwrite(bytes, at, data[..first]), at + first, data[first..next]) ==
            Overwrite(bytes, at, data[..next])
  {
    assert data[..next] == data[..first] + data[first..next];
  }

  // Two writes are one of both parts.
  lemma WriteTwice(f: File, a: seq<byte>, b: seq<byte>)
    requires f.pos <= |f.bytes|
    ensures f.Write(a).Write(b) == f.Write(a + b)
  {
    var bytes, at := f.bytes, f.pos;
    var first, both := Overwrite(bytes, at, a), Overwrite(bytes, at, a + b);
    assert first[..at + |a|] == bytes[..at] + a;
    assert at + |a| + |b| <= |bytes| ==> first[at + |a| + |b|..] == bytes[at + |a| + |b|..];
  }

  // What was written is overwritten from its start.
  lemma OverwriteStart(bytes: seq<byte>, at: nat, a: seq<byte>, b: seq<byte>)
    requires at <= |bytes| && |b| <= |a|
    ensures Overwrite(Overwrite(bytes, at, a), at, b) == Overwrite(bytes, at, b + a[|b|..])
  {
  }

  // Overwriting a sequence that goes on past the data, cut to what was there before or is there now.
  lemma OverwritePrefix(bytes: seq<byte>, size: nat, at: nat, data: seq<byte>)
    requires at <= size <= |bytes| && at + |data| <= |bytes|
    ensures Overwrite(bytes, at, data)[..Max(size, at + |data|)] == Overwrite(bytes[..size], at, data)
  {
  }
}
