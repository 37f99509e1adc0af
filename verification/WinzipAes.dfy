// WinZip AES encryption in counter mode (lib/zip_winzip_aes.c, lib/zip_source_winzip_aes_encode.c).
module WinzipAes {
  import opened Bytes
  import opened Seqs
  import opened SourceRead
  import opened ExclusiveOr

  const AES_BLOCK_SIZE: nat := 16
  const HMAC_LENGTH: nat := 10

  type Block = b: seq<byte> | |b| == 16 witness seq(16, _ => 0)

  // The block cipher under a fixed key, and the authentication code of some data under another.
  type BlockCipher = Block -> Block
  type Mac = m: seq<byte> | |m| >= 10 witness seq(10, _ => 0)
  type Hmac = seq<byte> -> Mac

  // The low bytes of a number, least significant first.
  function Low(n: nat, width: nat): (b: seq<byte>)
    ensures |b| == width
  {
    if width == 0 then [] else [n % 0x100] + Low(n / 0x100, width - 1)
  }

  // The counter for a block: its number, modulo 2^64, in the first eight bytes.
  function CounterBlock(n: nat): Block {
    Low(n, 8) + seq(8, _ => 0)
  }

  // The byte that the byte at position k of the data is combined with; blocks are counted from 1.
  function Pad(cipher: BlockCipher, k: nat): byte {
    cipher(CounterBlock(k / 16 + 1))[k % 16]
  }

  // Data at position p of the stream, encrypted or decrypted.
  function Crypted(cipher: BlockCipher, p: nat, data: seq<byte>): (r: seq<byte>)
    ensures |r| == |data|
  {
    seq(|data|, i requires 0 <= i < |data| => Xor(data[i], Pad(cipher, p + i)))
  }

  // The same operation decrypts.
  lemma CryptTwice(cipher: BlockCipher, p: nat, data: seq<byte>)
    ensures Crypted(cipher, p, Crypted(cipher, p, data)) == data
  {
    hide Xor, Pad;
    forall i | 0 <= i < |data|
      ensures Xor(Xor(data[i], Pad(cipher, p + i)), Pad(cipher, p + i)) == data[i]
    {
      XorTwice(data[i], Pad(cipher, p + i));
    }
  }

  lemma CryptInParts(cipher: BlockCipher, p: nat, a: seq<byte>, b: seq<byte>)
    ensures Crypted(cipher, p, a + b) == Crypted(cipher, p, a) + Crypted(cipher, p + |a|, b)
  {
    hide Xor, Pad;
  }

  // Data that is encrypted or decrypted in some parts.
  function CryptChunks(cipher: BlockCipher, p: nat, chunks: seq<seq<byte>>): seq<byte>
    decreases |chunks|
  {
    if chunks == [] then [] else Crypted(cipher, p, chunks[0]) + CryptChunks(cipher, p + |chunks[0]|, chunks[1..])
  }

  lemma {:induction false} ChunksCryptTheSame(cipher: BlockCipher, p: nat, chunks: seq<seq<byte>>)
    ensures CryptChunks(cipher, p, chunks) == Crypted(cipher, p, Flatten(chunks))
    decreases |chunks|
  {
    hide Xor, Pad;
    if chunks != [] {
      ChunksCryptTheSame(cipher, p + |chunks[0]|, chunks[1..]);
      CryptInParts(cipher, p, chunks[0], Flatten(chunks[1..]));
    }
  }

  // What was encrypted in some parts and is decrypted in others is what it was.
  lemma DecryptsAnyChunking(cipher: BlockCipher, p: nat, plain: seq<seq<byte>>, encrypted: seq<seq<byte>>)
    requires Flatten(encrypted) == CryptChunks(cipher, p, plain)
    ensures CryptChunks(cipher, p, encrypted) == Flatten(plain)
  {
    ChunksCryptTheSame(cipher, p, plain);
    ChunksCryptTheSame(cipher, p, encrypted);
    CryptTwice(cipher, p, Flatten(plain));
  }

  // Adding one to the bytes of a number, as far as there is a carry (lines 58-63).
  function Increment(b: seq<byte>): (r: seq<byte>)
    ensures |r| == |b|
  {
    if b == [] then [] else if b[0] == 0xFF then [0] + Increment(b[1..]) else [b[0] + 1] + b[1..]
  }

  lemma {:induction false} IncrementCounts(n: nat, width: nat)
    ensures Increment(Low(n, width)) == Low(n + 1, width)
  {
    if width > 0 {
      assert Low(n, width)[1..] == Low(n / 0x100, width - 1);
      if n % 0x100 == 0xFF {
        IncrementCounts(n / 0x100, width - 1);
        assert (n + 1) / 0x100 == n / 0x100 + 1 && (n + 1) % 0x100 == 0;
      } else {
        assert (n + 1) / 0x100 == n / 0x100 && (n + 1) % 0x100 == n % 0x100 + 1;
      }
    }
  }

  // Where the carry stops.
  lemma {:induction false} IncrementStops(b: seq<byte>, j: nat)
    requires j <= |b| && forall k :: 0 <= k < j ==> b[k] == 0xFF
    requires j < |b| ==> b[j] != 0xFF
    ensures Increment(b) == seq(j, _ => 0) + if j < |b| then [b[j] + 1] + b[j + 1..] else []
  {
    if j > 0 {
      IncrementStops(b[1..], j - 1);
    }
  }

  // The block a position is in, and the one the position before it is in.
  lemma Blocks(position: nat)
    ensures (position + 16) / 16 == position / 16 + 1
    ensures position % 16 == 0 ==> (position + 15) / 16 == position / 16 && (position + 1) % 16 == 1
    ensures position % 16 != 0 ==> (position + 15) / 16 == position / 16 + 1
    ensures position % 16 == 15 ==> (position + 1) % 16 == 0
    ensures position % 16 < 15 ==> (position + 1) % 16 == position % 16 + 1
  {
    var q, r := position / 16, position % 16;
    assert position == 16 * q + r;
  }

  class Aes {
    const cipher: BlockCipher
    const hmac: Hmac
    const counter: array<byte>
    var pad: Block
    var padOffset: nat
    var macced: seq<byte>

    // How much data was encrypted or decrypted.
    ghost var position: nat

    // The pad belongs to the last block that was begun, and is used up to the position.
    ghost predicate Valid()
      reads this, counter
    {
      && counter.Length == 16 && counter[..] == CounterBlock((position + 15) / 16)
      && padOffset == (if position % 16 == 0 then 16 else position % 16)
      && (position > 0 ==> pad == cipher(CounterBlock((position + 15) / 16)))
    }

    // (lines 106-110)
    constructor (cipher: BlockCipher, hmac: Hmac)
      ensures Valid() && fresh(counter) && this.cipher == cipher && this.hmac == hmac && position == 0 && macced == []
    {
      this.cipher, this.hmac := cipher, hmac;
      counter := new byte[16](_ => 0);
      pad, padOffset, macced, position := seq(16, _ => 0), AES_BLOCK_SIZE, [], 0;
      new;
      assert Low(0, 8) == [0, 0, 0, 0, 0, 0, 0, 0];
    }

    // (lines 58-63)
    method IncrementCounter()
      requires counter.Length == 16
      modifies counter
      ensures counter[..] == Increment(old(counter[..8])) + old(counter[8..])
    {
      ghost var before := counter[..];
      var j := 0;
      while j < 8
        invariant 0 <= j <= 8
        invariant forall k :: 0 <= k < 16 ==> counter[k] == if k < j then 0 else before[k]
        invariant forall k :: 0 <= k < j ==> before[k] == 0xFF
      {
        counter[j] := if counter[j] == 0xFF then 0 else counter[j] + 1;
        if counter[j] != 0 {
          break;
        }
        j := j + 1;
      }
      IncrementStops(before[..8], j);
    }

    // Begin the next block (lines 57-68).
    method NextBlock()
      requires Valid() && position % 16 == 0
      modifies this`pad, this`padOffset, counter
      ensures counter.Length == 16 && counter[..] == CounterBlock(position / 16 + 1) && padOffset == 0
      ensures pad == cipher(CounterBlock(position / 16 + 1))
    {
      ghost var n := position / 16;
      assert counter[..8] == Low(n, 8) && counter[8..] == seq(8, _ => 0);
      IncrementCounts(n, 8);
      IncrementCounter();
      pad := cipher(counter[..]);
      padOffset := 0;
    }

    // (lines 57-69)
    method CryptByte(b: byte) returns (r: byte)
      requires Valid()
      modifies this`pad, this`padOffset, this`position, counter
      ensures Valid() && position == old(position) + 1 && r == Xor(b, Pad(cipher, old(position)))
    {
      hide Xor, CounterBlock;
      Blocks(position);
      if padOffset == AES_BLOCK_SIZE {
        NextBlock();
      }
      r := Xor(b, pad[padOffset]);
      padOffset := padOffset + 1;
      position := position + 1;
    }

    // (lines 53-73)
    method Crypt(data: array<byte>)
      requires Valid() && data != counter
      modifies this`pad, this`padOffset, this`position, counter, data
      ensures Valid() && position == old(position) + data.Length
      ensures data[..] == Crypted(cipher, old(position), old(data[..]))
    {
      hide Xor, Pad;
      ghost var before, start := data[..], position;
      for i := 0 to data.Length
        invariant Valid() && position == start + i
        invariant forall k :: 0 <= k < data.Length ==>
                    data[k] == if k < i then Crypted(cipher, start, before)[k] else before[k]
      {
        var b := CryptByte(data[i]);
        data[i] := b;
      }
    }

    // The authentication code is that of the encrypted data on either side (lines 140-147).
    method Encrypt(data: array<byte>)
      requires Valid() && data != counter
      modifies this`pad, this`padOffset, this`position, this`macced, counter, data
      ensures Valid() && position == old(position) + data.Length
      ensures data[..] == Crypted(cipher, old(position), old(data[..]))
      ensures macced == old(macced) + data[..]
    {
      Crypt(data);
      macced := macced + data[..];
    }

    method Decrypt(data: array<byte>)
      requires Valid() && data != counter
      modifies this`pad, this`padOffset, this`position, this`macced, counter, data
      ensures Valid() && position == old(position) + data.Length
      ensures data[..] == Crypted(cipher, old(position), old(data[..]))
      ensures macced == old(macced) + old(data[..])
    {
      macced := macced + data[..];
      Crypt(data);
    }

    // (lines 150-152)
    function Finish(): Mac
      reads this
    {
      hmac(macced)
    }
  }

  // The source that encrypts another one: salt and password verification, the data, the authentication code
  // (lib/zip_source_winzip_aes_encode.c:107-176).
  class EncodeSource {
    const source: Source
    const aes: Aes
    var buffer: seq<byte>
    var eof: bool

    ghost predicate Valid()
      reads this, source, source.callback, aes, aes.counter
    {
      source.Valid() && aes.Valid() && (eof ==> source.Ahead() == [])
    }

    // The encrypted data that is still to come.
    ghost function CipherAhead(): seq<byte>
      requires source.Valid()
      reads source, source.callback, aes
    {
      Crypted(aes.cipher, aes.position, source.Ahead())
    }

    // The encrypted data and its code.
    ghost function Rest(): seq<byte>
      requires source.Valid()
      reads source, source.callback, aes
    {
      CipherAhead() + aes.hmac(aes.macced + CipherAhead())[..HMAC_LENGTH]
    }

    // All that is still to be delivered.
    ghost function Ahead(): seq<byte>
      requires Valid()
      reads this, source, source.callback, aes, aes.counter
    {
      if eof then buffer else buffer + Rest()
    }

    constructor (source: Source, aes: Aes, header: seq<byte>)
      requires source.Valid() && aes.Valid() && aes.position == 0 && aes.macced == []
      ensures Valid() && this.source == source && this.aes == aes
      ensures var cipher := Crypted(aes.cipher, 0, source.Ahead());
              Ahead() == header + (cipher + aes.hmac(cipher)[..HMAC_LENGTH])
    {
      this.source, this.aes, buffer, eof := source, aes, header, false;
      new;
      assert [] + CipherAhead() == CipherAhead();
    }

    // (lib/zip_source_winzip_aes_encode.c:144-153)
    method EncryptMore(len: nat) returns (bytes: seq<byte>)
      requires Valid() && len <= INT64_MAX
      modifies source, source.callback, aes, aes.counter
      ensures Valid() && |bytes| == Min(len, |old(source.Ahead())|) && old(CipherAhead()) == bytes + CipherAhead()
      ensures old(aes.macced) + old(CipherAhead()) == aes.macced + CipherAhead()
      ensures |bytes| < len ==> source.Ahead() == []
    {
      hide Crypted, Aes.Valid;
      ghost var rest, macced := source.Ahead(), aes.macced;
      var more := source.ReadBytes(len);
      assert rest == more + source.Ahead();
      CryptInParts(aes.cipher, aes.position, more, source.Ahead());
      bytes := EncryptBytes(more);
      assert macced + (bytes + CipherAhead()) == macced + bytes + CipherAhead();
    }

    method EncryptBytes(more: seq<byte>) returns (bytes: seq<byte>)
      requires Valid()
      modifies aes, aes.counter
      ensures Valid() && source.Ahead() == old(source.Ahead())
      ensures bytes == Crypted(aes.cipher, old(aes.position), more)
      ensures aes.position == old(aes.position) + |more| && aes.macced == old(aes.macced) + bytes
    {
      hide Crypted, Aes.Valid;
      var data := new byte[|more|](k requires 0 <= k < |more| => more[k]);
      assert data[..] == more;
      aes.Encrypt(data);
      bytes := data[..];
    }

    // (lib/zip_source_winzip_aes_encode.c:144-174)
    method ReadData(len: nat) returns (bytes: seq<byte>)
      requires Valid() && !eof && len <= INT64_MAX
      modifies this`eof, this`buffer, source, source.callback, aes, aes.counter
      ensures Valid() && |bytes| <= len
      ensures !eof ==> buffer == old(buffer) && old(Rest()) == bytes + Rest() && |bytes| == len
      ensures eof ==> len > 0 && old(Rest()) == bytes + buffer && (|bytes| == len || buffer == [])
    {
      hide Crypted, Aes.Valid;
      bytes := EncryptMore(len);
      if |bytes| < len {
        eof := true;
        assert CipherAhead() == [] && aes.macced + [] == aes.macced;
        var mac := aes.Finish()[..HMAC_LENGTH];
        var n := Min(len - |bytes|, HMAC_LENGTH);
        assert mac == mac[..n] + mac[n..];
        buffer := mac[n..];
        bytes := bytes + mac[..n];
      }
    }

    // Behind the buffer comes the data (lines 144-174).
    method ReadBehind(len: nat) returns (bytes: seq<byte>)
      requires Valid() && !eof && len <= INT64_MAX && (buffer == [] || len == 0)
      modifies this`eof, this`buffer, source, source.callback, aes, aes.counter
      ensures Valid() && |bytes| <= len && old(Ahead()) == bytes + Ahead() && (|bytes| == len || Ahead() == [])
    {
      hide Rest, Aes.Valid;
      ghost var left := buffer;
      bytes := ReadData(len);
      if eof {
        assert left == [];
      } else if left != [] {
        assert bytes == [];
      }
    }

    // Whatever the sizes of the reads, they deliver the header, the encrypted data and the code.
    method Read(len: nat) returns (bytes: seq<byte>)
      requires Valid() && len <= INT64_MAX
      modifies this, source, source.callback, aes, aes.counter
      ensures Valid() && bytes == old(Ahead())[..Min(len, |old(Ahead())|)] && Ahead() == old(Ahead())[|bytes|..]
    {
      hide Rest, Aes.Valid;
      var n := Min(len, |buffer|);
      bytes := buffer[..n];
      ghost var all := Ahead();
      buffer := buffer[n..];
      ghost var behind := Ahead();
      assert all == bytes + behind;
      if !eof {
        var more := ReadBehind(len - n);
        assert all == bytes + more + Ahead();
        bytes := bytes + more;
      }
      Delivered(all, bytes, Ahead());
    }

    lemma Delivered(all: seq<byte>, bytes: seq<byte>, ahead: seq<byte>)
      requires all == bytes + ahead
      ensures bytes == all[..|bytes|] && ahead == all[|bytes|..]
    {
    }
  }
}
