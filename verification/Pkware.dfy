// Traditional PKWARE encryption (lib/zip_pkware.c, lib/zip_source_pkware_encode.c).
module Pkware {
  import opened Bytes
  import opened Seqs
  import opened Bits
  import opened SourceRead
  import opened ExclusiveOr

  datatype Keys = Keys(key0: uint32, key1: uint32, key2: uint32)

  // One step of the CRC register by a byte.
  type CrcByte = (uint32, byte) -> uint32

  const INITIAL_KEYS := Keys(305419896, 591751049, 878082192)
  const HEADERLEN: nat := 12

  // (lines 45-50)
  function UpdateKeys(keys: Keys, b: byte, crcByte: CrcByte): Keys {
    var key0 := crcByte(keys.key0, b);
    var key1 := ((keys.key1 + key0 % 0x100) * 134775813 + 1) % 0x1_0000_0000;
    Keys(key0, key1, crcByte(keys.key2, key1 / 0x100_0000))
  }

  // (lines 53-58)
  function CryptByte(keys: Keys): byte {
    var tmp := WithSecondBit(keys.key2 % 0x1_0000);
    tmp * OtherFirstBit(tmp) / 0x100 % 0x100
  }

  function WithSecondBit(n: nat): nat {
    if n / 2 % 2 == 1 then n else n + 2
  }

  function OtherFirstBit(n: nat): nat {
    if n % 2 == 1 then n - 1 else n + 1
  }

  // The keys depend on the plain text only.
  function KeysAfter(keys: Keys, plain: seq<byte>, crcByte: CrcByte): Keys {
    if plain == [] then keys
    else UpdateKeys(KeysAfter(keys, plain[..|plain| - 1], crcByte), plain[|plain| - 1], crcByte)
  }

  function Encrypted(keys: Keys, plain: seq<byte>, crcByte: CrcByte): (cipher: seq<byte>)
    ensures |cipher| == |plain|
  {
    seq(|plain|, i requires 0 <= i < |plain| => Xor(plain[i], CryptByte(KeysAfter(keys, plain[..i], crcByte))))
  }

  function Decrypted(keys: Keys, cipher: seq<byte>, crcByte: CrcByte): (plain: seq<byte>)
    ensures |plain| == |cipher|
  {
    if cipher == [] then []
    else
      var before := Decrypted(keys, cipher[..|cipher| - 1], crcByte);
      before + [Xor(cipher[|cipher| - 1], CryptByte(KeysAfter(keys, before, crcByte)))]
  }

  // Decryption undoes encryption.
  lemma {:induction false} DecryptOfEncrypt(keys: Keys, plain: seq<byte>, crcByte: CrcByte)
    ensures Decrypted(keys, Encrypted(keys, plain, crcByte), crcByte) == plain
  {
    hide CryptByte, KeysAfter, Xor;
    if plain != [] {
      var front, last := plain[..|plain| - 1], plain[|plain| - 1];
      DecryptOfEncrypt(keys, front, crcByte);
      assert forall i :: 0 <= i < |front| ==> plain[..i] == front[..i];
      assert Encrypted(keys, plain, crcByte)[..|front|] == Encrypted(keys, front, crcByte);
      XorTwice(last, CryptByte(KeysAfter(keys, front, crcByte)));
    }
  }

  lemma {:induction false} KeysAfterBoth(keys: Keys, a: seq<byte>, b: seq<byte>, crcByte: CrcByte)
    ensures KeysAfter(keys, a + b, crcByte) == KeysAfter(KeysAfter(keys, a, crcByte), b, crcByte)
  {
    if b == [] {
      assert a + b == a;
    } else {
      assert (a + b)[..|a + b| - 1] == a + b[..|b| - 1];
      KeysAfterBoth(keys, a, b[..|b| - 1], crcByte);
    }
  }

  lemma EncryptedByte(keys: Keys, a: seq<byte>, b: seq<byte>, i: nat, crcByte: CrcByte)
    requires i < |a| + |b|
    ensures Encrypted(keys, a + b, crcByte)[i] ==
            if i < |a| then Encrypted(keys, a, crcByte)[i]
            else Encrypted(KeysAfter(keys, a, crcByte), b, crcByte)[i - |a|]
  {
    hide CryptByte, KeysAfter, Xor;
    if i < |a| {
      assert (a + b)[..i] == a[..i];
    } else {
      assert (a + b)[..i] == a + b[..i - |a|];
      KeysAfterBoth(keys, a, b[..i - |a|], crcByte);
    }
  }

  // The parts of a text can be encrypted one after another.
  lemma EncryptInParts(keys: Keys, a: seq<byte>, b: seq<byte>, crcByte: CrcByte)
    ensures Encrypted(keys, a + b, crcByte) ==
            Encrypted(keys, a, crcByte) + Encrypted(KeysAfter(keys, a, crcByte), b, crcByte)
  {
    hide Encrypted, KeysAfter;
    forall i: nat | i < |a| + |b|
      ensures Encrypted(keys, a + b, crcByte)[i] ==
              (Encrypted(keys, a, crcByte) + Encrypted(KeysAfter(keys, a, crcByte), b, crcByte))[i]
    {
      EncryptedByte(keys, a, b, i, crcByte);
    }
  }

  lemma {:induction false} DecryptInParts(keys: Keys, a: seq<byte>, b: seq<byte>, crcByte: CrcByte)
    ensures Decrypted(keys, a + b, crcByte) ==
            Decrypted(keys, a, crcByte) + Decrypted(KeysAfter(keys, Decrypted(keys, a, crcByte), crcByte), b, crcByte)
  {
    hide CryptByte, KeysAfter, Xor;
    var plain := Decrypted(keys, a, crcByte);
    if b == [] {
      assert a + b == a;
    } else {
      var front := b[..|b| - 1];
      assert (a + b)[..|a + b| - 1] == a + front;
      DecryptInParts(keys, a, front, crcByte);
      KeysAfterBoth(keys, plain, Decrypted(KeysAfter(keys, plain, crcByte), front, crcByte), crcByte);
    }
  }

  // --- any division into parts ---

  function EncryptChunks(keys: Keys, chunks: seq<seq<byte>>, crcByte: CrcByte): seq<byte>
    decreases |chunks|
  {
    if chunks == [] then []
    else Encrypted(keys, chunks[0], crcByte) + EncryptChunks(KeysAfter(keys, chunks[0], crcByte), chunks[1..], crcByte)
  }

  function DecryptChunks(keys: Keys, chunks: seq<seq<byte>>, crcByte: CrcByte): seq<byte>
    decreases |chunks|
  {
    if chunks == [] then []
    else
      var plain := Decrypted(keys, chunks[0], crcByte);
      plain + DecryptChunks(KeysAfter(keys, plain, crcByte), chunks[1..], crcByte)
  }

  lemma {:induction false} ChunksEncryptTheSame(keys: Keys, chunks: seq<seq<byte>>, crcByte: CrcByte)
    ensures EncryptChunks(keys, chunks, crcByte) == Encrypted(keys, Flatten(chunks), crcByte)
    decreases |chunks|
  {
    hide CryptByte, KeysAfter, Xor;
    if chunks != [] {
      ChunksEncryptTheSame(KeysAfter(keys, chunks[0], crcByte), chunks[1..], crcByte);
      EncryptInParts(keys, chunks[0], Flatten(chunks[1..]), crcByte);
    }
  }

  lemma {:induction false} ChunksDecryptTheSame(keys: Keys, chunks: seq<seq<byte>>, crcByte: CrcByte)
    ensures DecryptChunks(keys, chunks, crcByte) == Decrypted(keys, Flatten(chunks), crcByte)
    decreases |chunks|
  {
    hide CryptByte, KeysAfter, Xor;
    if chunks != [] {
      ChunksDecryptTheSame(KeysAfter(keys, Decrypted(keys, chunks[0], crcByte), crcByte), chunks[1..], crcByte);
      DecryptInParts(keys, chunks[0], Flatten(chunks[1..]), crcByte);
    }
  }

  // What was encrypted in some parts and is decrypted in others is what it was.
  lemma DecryptsAnyChunking(keys: Keys, plain: seq<seq<byte>>, cipher: seq<seq<byte>>, crcByte: CrcByte)
    requires Flatten(cipher) == EncryptChunks(keys, plain, crcByte)
    ensures DecryptChunks(keys, cipher, crcByte) == Flatten(plain)
  {
    ChunksEncryptTheSame(keys, plain, crcByte);
    ChunksDecryptTheSame(keys, cipher, crcByte);
    DecryptOfEncrypt(keys, Flatten(plain), crcByte);
  }

  // One more byte is decrypted.
  lemma DecryptNext(keys: Keys, cipher: seq<byte>, i: nat, crcByte: CrcByte)
    requires i < |cipher|
    ensures var before, after := Decrypted(keys, cipher[..i], crcByte), Decrypted(keys, cipher[..i + 1], crcByte);
            && after == before + [Xor(cipher[i], CryptByte(KeysAfter(keys, before, crcByte)))]
            && KeysAfter(keys, after, crcByte) == UpdateKeys(KeysAfter(keys, before, crcByte), after[i], crcByte)
  {
    hide CryptByte, Xor, UpdateKeys;
    assert cipher[..i + 1][..i] == cipher[..i];
    var before, after := Decrypted(keys, cipher[..i], crcByte), Decrypted(keys, cipher[..i + 1], crcByte);
    assert after[..i] == before;
  }

  // --- the keys ---

  // The formula on bits for the byte that data is combined with: the product of the low 16 bits of the third key, with
  // the second of them set, and the same with the first one turned over (lines 53-58).
  lemma CryptByteOnBits(keys: Keys)
    ensures var tmp := OrBits(keys.key2 % 0x1_0000, 2, 16);
            CryptByte(keys) == tmp * XorBits(tmp, 1, 16) / 0x100 % 0x100
  {
    SixteenBits();
    LowBits(keys.key2 % 0x1_0000, 16);
    LowBits(OrBits(keys.key2 % 0x1_0000, 2, 16), 16);
  }

  lemma SixteenBits()
    ensures Pow2(16) == 0x1_0000
  {
    EightBits();
    assert Pow2(12) == 16 * Pow2(8);
  }

  // The CRC register after some bytes.
  function Register(register: uint32, bytes: seq<byte>, crcByte: CrcByte): uint32 {
    if bytes == [] then register
    else crcByte(Register(register, bytes[..|bytes| - 1], crcByte), bytes[|bytes| - 1])
  }

  // The second key as an unbounded number: from one byte of the plain text to the next, the low byte of the first key
  // is added, and then it is taken times 134775813 and plus 1.
  function Multiplied(keys: Keys, plain: seq<byte>, crcByte: CrcByte): nat {
    if plain == [] then keys.key1
    else
      (Multiplied(keys, plain[..|plain| - 1], crcByte) + Register(keys.key0, plain, crcByte) % 0x100) * 134775813 + 1
  }

  // The high bytes of the second key after each byte of the plain text.
  function HighBytes(keys: Keys, plain: seq<byte>, crcByte: CrcByte): seq<byte> {
    seq(|plain|, i requires 0 <= i < |plain| =>
      Multiplied(keys, plain[..i + 1], crcByte) % 0x1_0000_0000 / 0x100_0000)
  }

  lemma RegisterNext(register: uint32, bytes: seq<byte>, b: byte, crcByte: CrcByte)
    ensures Register(register, bytes + [b], crcByte) == crcByte(Register(register, bytes, crcByte), b)
  {
    assert (bytes + [b])[..|bytes|] == bytes;
  }

  lemma HighBytesNext(keys: Keys, plain: seq<byte>, b: byte, crcByte: CrcByte)
    ensures HighBytes(keys, plain + [b], crcByte) ==
            HighBytes(keys, plain, crcByte) + [Multiplied(keys, plain + [b], crcByte) % 0x1_0000_0000 / 0x100_0000]
  {
    hide Multiplied;
    var all := plain + [b];
    forall i | 0 <= i < |plain|
      ensures HighBytes(keys, all, crcByte)[i] == HighBytes(keys, plain, crcByte)[i]
    {
      assert all[..i + 1] == plain[..i + 1];
    }
    assert all[..|all|] == all;
  }

  lemma MultipliedNext(keys: Keys, plain: seq<byte>, b: byte, crcByte: CrcByte)
    ensures Multiplied(keys, plain + [b], crcByte) ==
            (Multiplied(keys, plain, crcByte) + Register(keys.key0, plain + [b], crcByte) % 0x100) * 134775813 + 1
  {
    hide Register;
    assert (plain + [b])[..|plain|] == plain;
  }

  lemma KeysNext(keys: Keys, plain: seq<byte>, b: byte, crcByte: CrcByte)
    ensures KeysAfter(keys, plain + [b], crcByte) == UpdateKeys(KeysAfter(keys, plain, crcByte), b, crcByte)
  {
    assert (plain + [b])[..|plain|] == plain;
  }

  lemma Multiple(a: nat, k: nat)
    ensures (a + k * 0x1_0000_0000) % 0x1_0000_0000 == a % 0x1_0000_0000
  {
  }

  lemma ModularStep(n: nat, low: nat)
    ensures ((n % 0x1_0000_0000 + low) * 134775813 + 1) % 0x1_0000_0000 == ((n + low) * 134775813 + 1) % 0x1_0000_0000
  {
    var q, r := n / 0x1_0000_0000, n % 0x1_0000_0000;
    assert n == r + q * 0x1_0000_0000;
    Whole(r, q, low);
    Multiple((r + low) * 134775813 + 1, q * 134775813);
  }

  lemma Whole(r: nat, q: nat, low: nat)
    ensures (r + q * 0x1_0000_0000 + low) * 134775813 + 1 == (r + low) * 134775813 + 1 + q * 134775813 * 0x1_0000_0000
  {
  }

  lemma UpdateFrom(keys: Keys, n: nat, b: byte, crcByte: CrcByte)
    requires keys.key1 == n % 0x1_0000_0000
    ensures var after, m := UpdateKeys(keys, b, crcByte), (n + crcByte(keys.key0, b) % 0x100) * 134775813 + 1;
            && after.key0 == crcByte(keys.key0, b) && after.key1 == m % 0x1_0000_0000
            && after.key2 == crcByte(keys.key2, m % 0x1_0000_0000 / 0x100_0000)
  {
    ModularStep(n, crcByte(keys.key0, b) % 0x100);
  }

  // The first key is the CRC register of the plain text, the second one is computed modulo 2^32, and the third one is
  // the CRC register of its high bytes.
  lemma {:induction false} KeysAreRegisters(keys: Keys, plain: seq<byte>, crcByte: CrcByte)
    ensures var after := KeysAfter(keys, plain, crcByte);
            && after.key0 == Register(keys.key0, plain, crcByte)
            && after.key1 == Multiplied(keys, plain, crcByte) % 0x1_0000_0000
            && after.key2 == Register(keys.key2, HighBytes(keys, plain, crcByte), crcByte)
  {
    if plain == [] {
      assert HighBytes(keys, plain, crcByte) == [];
    } else {
      hide Register, Multiplied, HighBytes, KeysAfter, UpdateKeys;
      var front, b := plain[..|plain| - 1], plain[|plain| - 1];
      assert plain == front + [b];
      KeysAreRegisters(keys, front, crcByte);
      KeysNext(keys, front, b, crcByte);
      UpdateFrom(KeysAfter(keys, front, crcByte), Multiplied(keys, front, crcByte), b, crcByte);
      RegisterNext(keys.key0, front, b, crcByte);
      MultipliedNext(keys, front, b, crcByte);
      HighBytesNext(keys, front, b, crcByte);
      var high := Multiplied(keys, plain, crcByte) % 0x1_0000_0000 / 0x100_0000;
      RegisterNext(keys.key2, HighBytes(keys, front, crcByte), high, crcByte);
    }
  }

  lemma Quotient(n: nat, q: nat, r: byte)
    requires n == q * 0x100 + r
    ensures n / 0x100 == q && n % 0x100 == r
  {
  }

  lemma MiddleByte(n: nat, high: nat, b: byte, low: byte)
    requires n == high * 0x1_0000 + b * 0x100 + low
    ensures n / 0x100 % 0x100 == b
  {
    Quotient(n, high * 0x100 + b, low);
    Quotient(high * 0x100 + b, high, b);
  }

  lemma LowBitsOf(a: nat, second: nat, first: nat)
    requires second < 2 && first < 2
    ensures WithSecondBit(4 * a + 2 * second + first) == 4 * a + 2 + first
    ensures OtherFirstBit(4 * a + 2 + first) == 4 * a + 3 - first
  {
    Halved(4 * a + 2 * second + first, 2 * a + second, first);
    Halved(2 * a + second, a, second);
    Halved(4 * a + 2 + first, 2 * a + 1, first);
  }

  lemma Halved(n: nat, half: nat, bit: nat)
    requires n == 2 * half + bit && bit < 2
    ensures n / 2 == half && n % 2 == bit
  {
  }

  lemma CryptByteOf(keys: Keys, tmp: nat, other: nat, high: nat, b: byte, low: byte)
    requires WithSecondBit(keys.key2 % 0x1_0000) == tmp && OtherFirstBit(tmp) == other
    requires tmp * other == high * 0x1_0000 + b * 0x100 + low
    ensures CryptByte(keys) == b
  {
    hide WithSecondBit, OtherFirstBit;
    MiddleByte(tmp * other, high, b, low);
  }

  lemma SecondKeyOf(n: nat, q: nat, key1: uint32)
    requires n == q * 0x1_0000_0000 + key1
    ensures n % 0x1_0000_0000 == key1
  {
  }

  const KEYS_1 := Keys(0x5ECCCD58, 0xC0F30B66, 0x6B5F078C)
  const KEYS_2 := Keys(0x65EE150B, 0xFA2D7D36, 0xB90D8B0E)

  lemma KnownBytes()
    ensures CryptByte(INITIAL_KEYS) == 0xAB && CryptByte(KEYS_1) == 0x1A && CryptByte(KEYS_2) == 0xBF
  {
    hide CryptByte;
    LowHalf(0x34567890, 0x3456, 0x7890);
    LowHalf(0x6B5F078C, 0x6B5F, 0x078C);
    LowHalf(0xB90D8B0E, 0xB90D, 0x8B0E);
    LowBitsOf(0x1E24, 0, 0);
    LowBitsOf(0x1E3, 0, 0);
    LowBitsOf(0x22C3, 1, 0);
    hide WithSecondBit, OtherFirstBit;
    CryptByteOf(INITIAL_KEYS, 0x7892, 0x7893, 0x38C9, 0xAB, 0xD6);
    CryptByteOf(KEYS_1, 0x78E, 0x78F, 0x39, 0x1A, 0x52);
    CryptByteOf(KEYS_2, 0x8B0E, 0x8B0F, 0x4B88, 0xBF, 0xD2);
  }

  lemma LowHalf(n: nat, high: nat, low: uint16)
    requires n == high * 0x1_0000 + low
    ensures n % 0x1_0000 == low
  {
  }

  lemma KnownKeys(crcByte: CrcByte)
    requires crcByte(0x12345678, 0) == 0x5ECCCD58 && crcByte(0x34567890, 0xC0) == 0x6B5F078C
    requires crcByte(0x5ECCCD58, 0) == 0x65EE150B && crcByte(0x6B5F078C, 0xFA) == 0xB90D8B0E
    ensures UpdateKeys(INITIAL_KEYS, 0, crcByte) == KEYS_1 && UpdateKeys(KEYS_1, 0, crcByte) == KEYS_2
  {
    SecondKeyOf((591751049 + 0x58) * 134775813 + 1, 0x11b579a, 0xC0F30B66);
    SecondKeyOf((0xC0F30B66 + 0x0B) * 134775813 + 1, 0x60e0374, 0xFA2D7D36);
  }

  // With the steps of CRC-32 for these bytes, the key stream for zeros under the initial keys begins as follows.
  lemma KnownKeyStream(crcByte: CrcByte)
    requires crcByte(0x12345678, 0) == 0x5ECCCD58 && crcByte(0x34567890, 0xC0) == 0x6B5F078C
    requires crcByte(0x5ECCCD58, 0) == 0x65EE150B && crcByte(0x6B5F078C, 0xFA) == 0xB90D8B0E
    ensures Encrypted(INITIAL_KEYS, [0, 0, 0], crcByte) == [0xAB, 0x1A, 0xBF]
  {
    hide CryptByte, Xor, UpdateKeys;
    KnownKeys(crcByte);
    KnownBytes();
    var plain: seq<byte> := [0, 0, 0];
    assert plain[..0] == [] && plain[..1] == [] + [0] && plain[..2] == plain[..1] + [0];
    NothingDecrypted(INITIAL_KEYS, crcByte);
    KeysNext(INITIAL_KEYS, [], 0, crcByte);
    KeysNext(INITIAL_KEYS, plain[..1], 0, crcByte);
    XorZero(0xAB);
    XorZero(0x1A);
    XorZero(0xBF);
  }

  class Cipher {
    const crcByte: CrcByte
    var keys: Keys

    // (lines 61-65)
    constructor (crcByte: CrcByte)
      ensures this.crcByte == crcByte && keys == INITIAL_KEYS
    {
      this.crcByte, keys := crcByte, INITIAL_KEYS;
    }

    // Initialisation takes the keys through the password without output (lines 82-85).
    method Initialize(password: seq<byte>)
      modifies this
      ensures keys == KeysAfter(old(keys), password, crcByte)
    {
      for i := 0 to |password|
        invariant keys == KeysAfter(old(keys), password[..i], crcByte)
      {
        assert password[..i + 1][..i] == password[..i];
        keys := UpdateKeys(keys, password[i], crcByte);
      }
      assert password[..|password|] == password;
    }

    // Encrypt in place (lines 68-87).
    method Encrypt(data: array<byte>)
      modifies this, data
      ensures data[..] == Encrypted(old(keys), old(data[..]), crcByte)
      ensures keys == KeysAfter(old(keys), old(data[..]), crcByte)
    {
      hide CryptByte, Xor, UpdateKeys;
      ghost var plain := data[..];
      for i := 0 to data.Length
        invariant keys == KeysAfter(old(keys), plain[..i], crcByte)
        invariant forall k :: 0 <= k < data.Length ==>
          data[k] == if k < i then Encrypted(old(keys), plain, crcByte)[k] else plain[k]
      {
        assert plain[..i + 1][..i] == plain[..i];
        var tmp := CryptByte(keys);
        keys := UpdateKeys(keys, data[i], crcByte);
        data[i] := Xor(data[i], tmp);
      }
      assert plain[..data.Length] == plain;
    }

    // Decrypt in place (lines 90-107).
    method Decrypt(data: array<byte>)
      modifies this, data
      ensures data[..] == Decrypted(old(keys), old(data[..]), crcByte)
      ensures keys == KeysAfter(old(keys), Decrypted(old(keys), old(data[..]), crcByte), crcByte)
    {
      hide CryptByte, Xor, UpdateKeys, Decrypted, KeysAfter;
      ghost var cipher := data[..];
      NothingDecrypted(keys, crcByte);
      assert cipher[..0] == [];
      for i := 0 to data.Length
        invariant keys == KeysAfter(old(keys), Decrypted(old(keys), cipher[..i], crcByte), crcByte)
        invariant forall k :: 0 <= k < data.Length ==>
          data[k] == if k < i then Decrypted(old(keys), cipher[..i], crcByte)[k] else cipher[k]
      {
        DecryptNext(old(keys), cipher, i, crcByte);
        data[i] := Xor(data[i], CryptByte(keys));
        keys := UpdateKeys(keys, data[i], crcByte);
      }
      assert cipher[..data.Length] == cipher;
    }
  }

  lemma NothingDecrypted(keys: Keys, crcByte: CrcByte)
    ensures Decrypted(keys, [], crcByte) == [] && KeysAfter(keys, [], crcByte) == keys
  {
  }

  // The source that encrypts another one: a header, and then the data.
  class EncodeSource {
    const source: Source
    const cipher: Cipher
    var buffer: seq<byte>
    var eof: bool

    ghost predicate Valid()
      reads this, source, source.callback
    {
      source.Valid() && (eof ==> source.Ahead() == [])
    }

    // All that is still to be delivered.
    ghost function Ahead(): seq<byte>
      requires Valid()
      reads this, source, source.callback, cipher
    {
      buffer + Encrypted(cipher.keys, source.Ahead(), cipher.crcByte)
    }

    // The header is random but for its last byte, which is for checking the password
    // (lib/zip_source_pkware_encode.c:97-142).
    constructor (source: Source, cipher: Cipher, password: seq<byte>, random: seq<byte>, time: uint16)
      requires source.Valid() && |random| == HEADERLEN - 1 && cipher.keys == INITIAL_KEYS
      modifies cipher
      ensures Valid() && this.source == source && this.cipher == cipher
      ensures var keys := KeysAfter(INITIAL_KEYS, password, cipher.crcByte);
              Ahead() == Encrypted(keys, random + [time / 0x100] + source.Ahead(), cipher.crcByte)
    {
      this.source, this.cipher, eof := source, cipher, false;
      buffer := [];
      new;
      cipher.Initialize(password);
      var header := new byte[HEADERLEN](
        k requires 0 <= k < HEADERLEN => if k < HEADERLEN - 1 then random[k] else time / 0x100);
      ghost var keys, plain := cipher.keys, random + [time / 0x100];
      assert header[..] == plain;
      cipher.Encrypt(header);
      buffer := header[..];
      EncryptInParts(keys, plain, source.Ahead(), cipher.crcByte);
    }

    // (lib/zip_source_pkware_encode.c:161-174)
    method ReadData(len: nat) returns (bytes: seq<byte>)
      requires Valid() && !eof && len <= INT64_MAX
      modifies this`eof, source, source.callback, cipher
      ensures Valid() && |bytes| == Min(len, |old(source.Ahead())|)
      ensures Encrypted(old(cipher.keys), old(source.Ahead()), cipher.crcByte) ==
              bytes + Encrypted(cipher.keys, source.Ahead(), cipher.crcByte)
    {
      hide KeysAfter, CryptByte, Xor, Encrypted;
      ghost var rest := source.Ahead();
      var more := source.ReadBytes(len);
      assert rest == more + source.Ahead();
      EncryptInParts(cipher.keys, more, source.Ahead(), cipher.crcByte);
      bytes := EncryptBytes(more);
      if |more| < len {
        eof := true;
      }
    }

    method EncryptBytes(more: seq<byte>) returns (bytes: seq<byte>)
      modifies cipher
      ensures bytes == Encrypted(old(cipher.keys), more, cipher.crcByte)
      ensures cipher.keys == KeysAfter(old(cipher.keys), more, cipher.crcByte)
    {
      hide KeysAfter, CryptByte, Xor, Encrypted;
      var data := new byte[|more|](k requires 0 <= k < |more| => more[k]);
      assert data[..] == more;
      cipher.Encrypt(data);
      bytes := data[..];
    }

    // A read delivers what is next of the header and the encrypted data, however they are divided by it
    // (lib/zip_source_pkware_encode.c:146-176).
    method Read(len: nat) returns (bytes: seq<byte>)
      requires Valid() && len <= INT64_MAX
      modifies this, source, source.callback, cipher
      ensures Valid() && bytes == old(Ahead())[..Min(len, |old(Ahead())|)] && Ahead() == old(Ahead())[|bytes|..]
    {
      hide Encrypted;
      var n := Min(len, |buffer|);
      bytes := buffer[..n];
      ghost var left, all := buffer[n..], Ahead();
      assert all == bytes + left + Encrypted(cipher.keys, source.Ahead(), cipher.crcByte);
      buffer := buffer[n..];
      if !eof {
        var more := ReadData(len - n);
        assert left == [] || more == [];
        assert all == bytes + more + Ahead();
        bytes := bytes + more;
      }
    }
  }
}
