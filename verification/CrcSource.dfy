// The layer that computes the CRC of the data read through it (lib/zip_source_crc.c).
module CrcSource {
  import opened Bytes
  import opened SourceSeek
  import opened SourceRead

  type CrcStep = (uint32, byte) -> uint32

  // The checksum of some bytes, one at a time.
  function Crc(step: CrcStep, bytes: seq<byte>): uint32 {
    if bytes == [] then 0 else step(Crc(step, bytes[..|bytes| - 1]), bytes[|bytes| - 1])
  }

  // The checksum of more bytes behind others (the crc32 function of zlib).
  function Update(step: CrcStep, crc: uint32, bytes: seq<byte>): uint32 {
    if bytes == [] then crc else step(Update(step, crc, bytes[..|bytes| - 1]), bytes[|bytes| - 1])
  }

  lemma {:induction false} UpdateContinues(step: CrcStep, before: seq<byte>, bytes: seq<byte>)
    ensures Update(step, Crc(step, before), bytes) == Crc(step, before + bytes)
  {
    if bytes == [] {
      assert before + bytes == before;
    } else {
      UpdateContinues(step, before, bytes[..|bytes| - 1]);
      assert (before + bytes)[..|before + bytes| - 1] == before + bytes[..|bytes| - 1];
    }
  }

  // What is known about the data beforehand; a value that is absent is not checked.
  datatype Expected = Expected(crc: Option<uint32>, size: Option<uint64>)

  class CrcSource {
    const step: CrcStep
    const source: Source
    const validate: bool
    const expected: Expected
    var crcComplete: bool
    var size: nat
    var position: nat
    var crcPosition: nat
    var crc: uint32

    // The checksum is that of the data up to crcPosition, without gaps or repetitions, and complete only for all of it.
    ghost predicate Valid()
      reads this, source, source.callback
    {
      && source.Valid() && position == source.Position()
      && crcPosition <= |source.callback.content|
      && crc == Crc(step, source.callback.content[..crcPosition])
      && (crcComplete ==> crcPosition == size == |source.callback.content|)
    }

    // (lines 57-78, 243-255)
    constructor (step: CrcStep, source: Source, validate: bool, expected: Expected)
      requires source.Valid() && source.Position() == 0
      ensures Valid() && this.source == source && this.step == step && this.validate == validate
      ensures this.expected == expected
      ensures position == crcPosition == 0 && !crcComplete
    {
      this.step, this.source, this.validate, this.expected := step, source, validate, expected;
      crcComplete, size, position, crcPosition, crc := false, 0, 0, 0, 0;
    }

    // What there is to check against agrees with all of the data.
    ghost predicate Matches()
      reads this, source, source.callback
    {
      && (expected.crc.Some? && crcComplete ==> expected.crc.value == Crc(step, source.callback.content))
      && (expected.size.Some? ==> expected.size.value == |source.callback.content|)
    }

    // At the end of the data: the checksum is complete if nothing was left out (lines 209-241).
    method ValidateCrc() returns (ok: bool)
      requires Valid() && position == |source.callback.content|
      modifies this`size, this`crcComplete
      ensures Valid() && size == position && crcComplete == (old(crcComplete) || crcPosition == position)
      ensures validate ==> (ok <==> Matches())
      ensures !validate ==> ok
    {
      assert source.callback.content[..|source.callback.content|] == source.callback.content;
      size := position;
      if crcPosition == position {
        crcComplete := true;
        if validate && expected.crc.Some? && expected.crc.value != crc {
          return false;
        }
      }
      if validate && expected.size.Some? && expected.size.value != size {
        return false;
      }
      return true;
    }

    // Read on, adding to the checksum what is new and follows what it covers (lines 92-126).
    method Read(len: nat) returns (ok: bool, bytes: seq<byte>)
      requires Valid() && 0 < len <= INT64_MAX
      modifies this, source, source.callback
      ensures Valid() && bytes == old(source.Ahead())[..Min(len, |old(source.Ahead())|)]
      ensures position == old(position) + |bytes|
      ensures crcPosition == if old(position) <= old(crcPosition) < position then position else old(crcPosition)
      ensures bytes == [] ==> crcComplete == (old(crcComplete) || crcPosition == |source.callback.content|)
      ensures bytes == [] && validate ==> (ok <==> Matches())
      ensures bytes != [] || !validate ==> ok
    {
      hide Crc;
      bytes := source.ReadBytes(len);
      if bytes == [] {
        ok := ValidateCrc();
        return;
      }
      UpdateCrc(bytes);
      position := position + |bytes|;
      ok := true;
    }

    // Add data that was read at the current position to the checksum (lines 114-123).
    method UpdateCrc(bytes: seq<byte>)
      requires crcPosition <= |source.callback.content| && crc == Crc(step, source.callback.content[..crcPosition])
      requires position + |bytes| <= |source.callback.content|
      requires bytes == source.callback.content[position..position + |bytes|]
      requires crcComplete ==> crcPosition == |source.callback.content|
      modifies this`crc, this`crcPosition
      ensures crcPosition <= |source.callback.content| && crc == Crc(step, source.callback.content[..crcPosition])
      ensures crcPosition ==
              if position <= old(crcPosition) < position + |bytes| then position + |bytes| else old(crcPosition)
    {
      ghost var content := source.callback.content;
      if !crcComplete && position <= crcPosition < position + |bytes| {
        var rest := bytes[crcPosition - position..];
        assert content[..position + |bytes|] == content[..crcPosition] + rest;
        UpdateContinues(step, content[..crcPosition], rest);
        crc := Update(step, crc, rest);
        crcPosition := position + |bytes|;
      }
    }

    // (lines 184-199)
    method Seek(offset: int64, whence: Whence) returns (ok: bool)
      requires Valid() && source.canSeek
      modifies this`position, source, source.callback
      ensures Valid()
      ensures ok == (0 <= Base(old(position), |source.callback.content|, whence) + offset <= |source.callback.content|)
      ensures position == if ok then Base(old(position), |source.callback.content|, whence) + offset else old(position)
    {
      ok := source.Seek(offset, whence);
      if ok {
        position := source.Tell();
      }
    }

    // Closing finds out whether all data was read, and checks it if so; this does not move the source (lines 128-140).
    method Close() returns (ok: bool)
      requires Valid()
      modifies this`size, this`crcComplete, source, source.callback
      ensures Valid() && source.Position() == old(source.Position())
      ensures old(source.Ahead()) != [] ==> ok && crcComplete == old(crcComplete)
      ensures old(source.Ahead()) == [] ==>
                crcComplete == (old(crcComplete) || crcPosition == |source.callback.content|)
      ensures old(source.Ahead()) == [] && validate ==> (ok <==> Matches())
      ensures old(source.Ahead()) == [] && !validate ==> ok
    {
      var atEof := source.AtEof();
      if !atEof {
        return true;
      }
      ok := ValidateCrc();
    }

    // What is told about the data once all of it is covered: its size and checksum; refused exactly if the lower layer
    // told another size (lines 142-162).
    method Stat(told: Option<uint64>) returns (ok: bool, known: bool, total: nat, checksum: uint32)
      requires Valid()
      ensures ok <==> (crcComplete && told.Some? ==> told.value == |source.callback.content|)
      ensures ok ==> known == crcComplete
      ensures known ==> total == |source.callback.content| && checksum == Crc(step, source.callback.content)
    {
      assert source.callback.content[..|source.callback.content|] == source.callback.content;
      if crcComplete && told.Some? && told.value != size {
        return false, false, 0, 0;
      }
      return true, crcComplete, size, crc;
    }
  }
}
