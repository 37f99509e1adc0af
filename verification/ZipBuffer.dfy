// A bounded cursor over an array of bytes (lib/zip_buffer.c).
module ZipBuffer {
  import opened Bytes
  import opened LittleEndian

  class Buffer {
    const data: array<byte>
    var offset: nat
    var ok: bool

    ghost predicate Valid()
      reads this
    {
      offset <= data.Length <= UINT64_MAX
    }

    // (lines 142-172)
    constructor (data: array<byte>)
      requires data.Length <= UINT64_MAX
      ensures Valid() && this.data == data && offset == 0 && ok
    {
      this.data := data;
      offset, ok := 0, true;
    }

    // The data to be read next.
    ghost function Ahead(): seq<byte>
      requires Valid()
      reads this, data
    {
      data[offset..]
    }

    // (lines 119-121)
    function Left(): nat
      requires Valid()
      reads this
    {
      if ok then data.Length - offset else 0
    }

    // (lines 57-59)
    predicate Eof()
      reads this
    {
      ok && offset == data.Length
    }

    // Once a request reaches past the end, all fail (lines 202-212).
    method Peek(length: uint64) returns (fits: bool)
      requires Valid()
      modifies this`ok
      ensures Valid() && ok == fits == (old(ok) && offset + length <= data.Length)
    {
      var end := (offset + length) % TWO_64;
      if !ok || end < length || end > data.Length {
        ok := false;
        return false;
      }
      return true;
    }

    // (lines 62-72)
    method Get(length: uint64) returns (bytes: Option<seq<byte>>)
      requires Valid()
      modifies this`ok, this`offset
      ensures Valid() && ok == bytes.Some? == (old(ok) && old(offset) + length <= data.Length)
      ensures bytes.Some? ==> offset == old(offset) + length && bytes.value == data[old(offset)..offset]
      ensures bytes.None? ==> offset == old(offset)
    {
      var fits := Peek(length);
      if !fits {
        return None;
      }
      offset := offset + length;
      return Some(data[offset - length..offset]);
    }

    // (lines 75-83)
    method Get16() returns (v: uint16)
      requires Valid()
      modifies this`ok, this`offset
      ensures Valid() && ok == (old(ok) && old(offset) + 2 <= data.Length)
      ensures offset == if ok then old(offset) + 2 else old(offset)
      ensures v == if ok then U16(data[..], old(offset)) else 0
    {
      var bytes := Get(2);
      if bytes.None? {
        return 0;
      }
      var low: int, high: int := bytes.value[0], bytes.value[1];
      return low + high * 0x100;
    }

    // (lines 86-94)
    method Get32() returns (v: uint32)
      requires Valid()
      modifies this`ok, this`offset
      ensures Valid() && ok == (old(ok) && old(offset) + 4 <= data.Length)
      ensures offset == if ok then old(offset) + 4 else old(offset)
      ensures v == if ok then U32(data[..], old(offset)) else 0
    {
      var bytes := Get(4);
      if bytes.None? {
        return 0;
      }
      var b0: int, b1: int, b2: int, b3: int := bytes.value[0], bytes.value[1], bytes.value[2], bytes.value[3];
      return ((b3 * 0x100 + b2) * 0x100 + b1) * 0x100 + b0;
    }

    // (lines 97-105)
    method Get64() returns (v: uint64)
      requires Valid()
      modifies this`ok, this`offset
      ensures Valid() && ok == (old(ok) && old(offset) + 8 <= data.Length)
      ensures offset == if ok then old(offset) + 8 else old(offset)
      ensures v == if ok then U64(data[..], old(offset)) else 0
    {
      var bytes := Get(8);
      if bytes.None? {
        return 0;
      }
      var b := bytes.value;
      var b0: int, b1: int, b2: int, b3: int := b[0], b[1], b[2], b[3];
      var b4: int, b5: int, b6: int, b7: int := b[4], b[5], b[6], b[7];
      return b7 * 0x100_0000_0000_0000 + b6 * 0x1_0000_0000_0000 + b5 * 0x100_0000_0000 + b4 * 0x1_0000_0000
           + b3 * 0x100_0000 + b2 * 0x1_0000 + b1 * 0x100 + b0;
    }

    // (lines 214-223)
    method Put(bytes: seq<byte>)
      requires Valid() && |bytes| <= UINT64_MAX
      modifies this`ok, this`offset, data
      ensures Valid() && ok == (old(ok) && old(offset) + |bytes| <= data.Length)
      ensures offset == if ok then old(offset) + |bytes| else old(offset)
      ensures data[..] == if ok then old(data[..offset]) + bytes + old(data[..])[offset..] else old(data[..])
    {
      var fits := Peek(|bytes|);
      if fits {
        forall k | 0 <= k < |bytes| {
          data[offset + k] := bytes[k];
        }
        offset := offset + |bytes|;
      }
    }

    // (lines 289-299)
    method SetOffset(to: uint64)
      requires Valid()
      modifies this`ok, this`offset
      ensures Valid() && ok == (to <= data.Length) && offset == if ok then to else old(offset)
    {
      if to > data.Length {
        ok := false;
      } else {
        ok, offset := true, to;
      }
    }

    // Skipping starts over even after a failure (lines 302-310).
    method Skip(length: uint64)
      requires Valid()
      modifies this`ok, this`offset
      ensures Valid() && ok == (old(offset) + length <= data.Length)
      ensures offset == if ok then old(offset) + length else old(offset)
    {
      var to := (offset + length) % TWO_64;
      if to < offset {
        ok := false;
      } else {
        SetOffset(to);
      }
    }
  }
}
