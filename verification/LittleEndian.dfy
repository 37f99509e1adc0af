// Integers as little-endian bytes.
module LittleEndian {
  import opened Bytes
  import opened Seqs

  function U16(b: seq<byte>, at: nat): (v: uint16)
    requires at + 2 <= |b|
  {
    var low: int, high: int := b[at], b[at + 1];
    high * 0x100 + low
  }

  function U32(b: seq<byte>, at: nat): (v: uint32)
    requires at + 4 <= |b|
  {
    var low: int, high: int := U16(b, at), U16(b, at + 2);
    high * 0x1_0000 + low
  }

  function U64(b: seq<byte>, at: nat): (v: uint64)
    requires at + 8 <= |b|
  {
    var low: int, high: int := U32(b, at), U32(b, at + 4);
    high * 0x1_0000_0000 + low
  }

  function Put16(v: uint16): (b: seq<byte>)
    ensures |b| == 2
  {
    [v % 0x100, v / 0x100]
  }

  function Put32(v: uint32): (b: seq<byte>)
    ensures |b| == 4
  {
    Put16(v % 0x1_0000) + Put16(v / 0x1_0000)
  }

  function Put64(v: uint64): (b: seq<byte>)
    ensures |b| == 8
  {
    Put32(v % 0x1_0000_0000) + Put32(v / 0x1_0000_0000)
  }

  predicate Holds(b: seq<byte>, at: nat, part: seq<byte>)
    ensures Holds(b, at, part) ==> at + |part| <= |b|
  {
    at + |part| <= |b| && b[at..at + |part|] == part
  }

  lemma Read16(b: seq<byte>, at: nat, v: uint16)
    requires Holds(b, at, Put16(v))
    ensures U16(b, at) == v
  {
    assert b[at] == b[at..at + 2][0] && b[at + 1] == b[at..at + 2][1];
  }

  lemma Read32(b: seq<byte>, at: nat, v: uint32)
    requires Holds(b, at, Put32(v))
    ensures U32(b, at) == v
  {
    hide Put16;
    assert b[at..at + 2] == b[at..at + 4][..2] == Put16(v % 0x1_0000);
    assert b[at + 2..at + 4] == b[at..at + 4][2..] == Put16(v / 0x1_0000);
    Read16(b, at, v % 0x1_0000);
    Read16(b, at + 2, v / 0x1_0000);
  }

  lemma Read64(b: seq<byte>, at: nat, v: uint64)
    requires Holds(b, at, Put64(v))
    ensures U64(b, at) == v
  {
    hide Put32;
    assert b[at..at + 4] == b[at..at + 8][..4] == Put32(v % 0x1_0000_0000);
    assert b[at + 4..at + 8] == b[at..at + 8][4..] == Put32(v / 0x1_0000_0000);
    Read32(b, at, v % 0x1_0000_0000);
    Read32(b, at + 4, v / 0x1_0000_0000);
  }

  lemma Write16(b: seq<byte>, at: nat)
    requires at + 2 <= |b|
    ensures Put16(U16(b, at)) == b[at..at + 2]
  {
  }

  // Bytes that end in a number: the bytes before it, and the number.
  lemma Take16(b: seq<byte>, at: nat, before: seq<byte>, v: uint16)
    requires Holds(b, at, before + Put16(v))
    ensures Holds(b, at, before) && U16(b, at + |before|) == v
  {
    hide U16;
    Parts(b, at, before, Put16(v));
    Read16(b, at + |before|, v);
  }

  lemma Take32(b: seq<byte>, at: nat, before: seq<byte>, v: uint32)
    requires Holds(b, at, before + Put32(v))
    ensures Holds(b, at, before) && U32(b, at + |before|) == v
  {
    hide U32;
    Parts(b, at, before, Put32(v));
    Read32(b, at + |before|, v);
  }

  lemma Take64(b: seq<byte>, at: nat, before: seq<byte>, v: uint64)
    requires Holds(b, at, before + Put64(v))
    ensures Holds(b, at, before) && U64(b, at + |before|) == v
  {
    hide U64;
    Parts(b, at, before, Put64(v));
    Read64(b, at + |before|, v);
  }

  lemma Parts(b: seq<byte>, at: nat, first: seq<byte>, second: seq<byte>)
    requires Holds(b, at, first + second)
    ensures Holds(b, at, first) && Holds(b, at + |first|, second)
  {
    SliceOfSlice(b, at, at + |first| + |second|, 0, |first|);
    SliceOfSlice(b, at, at + |first| + |second|, |first|, |second|);
  }
}
