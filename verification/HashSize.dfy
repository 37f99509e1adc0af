// The sizes of the hash table (lib/zip_hash.c).
module HashSize {
  import opened Bits
  import opened Bytes

  const HASH_MIN_SIZE: nat := 256
  const HASH_MAX_SIZE: nat := 0x8000_0000

  lemma {:induction false} DoubleFits(n: nat, limit: nat)
    requires PowerOfTwo(n) && PowerOfTwo(limit) && n < limit
    ensures PowerOfTwo(2 * n) && 2 * n <= limit
  {
    if n > 1 {
      DoubleFits(n / 2, limit / 2);
    }
  }

  lemma HalfOfTwo(n: nat)
    requires PowerOfTwo(n) && n > 1
    ensures PowerOfTwo(n / 2) && n / 2 * 2 == n
  {
  }

  lemma Twice(n: nat)
    requires PowerOfTwo(n)
    ensures PowerOfTwo(2 * n)
  {
  }

  lemma Times16(n: nat)
    requires PowerOfTwo(n)
    ensures PowerOfTwo(8 * n) && PowerOfTwo(16 * n)
  {
    hide PowerOfTwo;
    Twice(n);
    Twice(2 * n);
    Twice(4 * n);
    Twice(8 * n);
  }

  lemma One()
    ensures PowerOfTwo(1)
  {
  }

  lemma SizeLimits()
    ensures PowerOfTwo(HASH_MIN_SIZE) && PowerOfTwo(HASH_MAX_SIZE)
  {
    hide PowerOfTwo;
    One();
    Times16(1);
    Times16(0x10);
    Times16(0x100);
    Times16(0x1000);
    Times16(0x1_0000);
    Times16(0x10_0000);
    Times16(0x100_0000);
    Times16(0x1000_0000);
  }

  // A table size that keeps to three quarters is one that is at least the rounded quotient, unless it is 1 or 2.
  lemma RoundingIsHarmless(size: nat, capacity: nat)
    requires PowerOfTwo(size) && 4 * capacity / 3 <= size
    ensures size >= 4 ==> 4 * capacity <= 3 * size
  {
    hide PowerOfTwo;
    if size >= 4 {
      HalfOfTwo(size);
      HalfOfTwo(size / 2);
      Quarter(size / 2 / 2, capacity);
    }
  }

  lemma Quarter(quarter: nat, capacity: nat)
    requires 4 * capacity / 3 <= 4 * quarter
    ensures capacity <= 3 * quarter
  {
  }

  lemma LeastPower(size: nat, needed: nat)
    requires PowerOfTwo(size) && (size == 1 || size < 2 * needed)
    ensures forall n: nat :: PowerOfTwo(n) && needed <= n ==> size <= n
  {
    forall n: nat | PowerOfTwo(n) && needed <= n
      ensures size <= n
    {
      if n < size {
        DoubleFits(n, size);
      }
    }
  }

  // The size of a table that is to hold capacity entries (lines 115-142): the least power of two that is
  // at least 4/3 of the capacity. For one or two entries the rounding of the quotient makes it too small.
  // The source divides by .75 in floating point; below 2^32 that rounds to the same integer.
  method SizeForCapacity(capacity: nat) returns (size: nat)
    requires capacity > 0
    ensures PowerOfTwo(size) && size <= HASH_MAX_SIZE
    ensures 4 * capacity / 3 > HASH_MAX_SIZE ==> size == HASH_MAX_SIZE
    ensures 4 * capacity / 3 <= HASH_MAX_SIZE ==>
      && (forall n: nat :: PowerOfTwo(n) && 4 * capacity <= 3 * n ==> size <= n)
      && (4 * capacity <= 3 * size <==> capacity >= 3)
  {
    size := RoundUp(capacity);
    if 4 * capacity / 3 <= HASH_MAX_SIZE {
      RoundingIsHarmless(size, capacity);
      LeastPower(size, 4 * capacity / 3);
    }
  }

  // The bit twiddling (lines 116-141).
  method RoundUp(capacity: nat) returns (size: nat)
    requires capacity > 0
    ensures PowerOfTwo(size) && size <= HASH_MAX_SIZE
    ensures if 4 * capacity / 3 > HASH_MAX_SIZE then size == HASH_MAX_SIZE
            else 4 * capacity / 3 <= size && (size == 1 || size < 2 * (4 * capacity / 3))
  {
    hide PowerOfTwo, Pow2, Smeared, FromNat, Value;
    SizeLimits();
    var v := if 4 * capacity > 3 * UINT32_MAX then UINT32_MAX else 4 * capacity / 3;
    if v > HASH_MAX_SIZE {
      return HASH_MAX_SIZE;
    }
    WordLimit();
    ValueOfFromNat(v - 1, 32);
    ghost var start := FromNat(v - 1, 32);
    var bits := FromNat(v - 1, 32);
    StartsSmeared(start);
    var shift := 1;
    while shift <= 16
      invariant shift == 1 || shift == 2 || shift == 4 || shift == 8 || shift == 16 || shift == 32
      invariant Smeared(bits, start, shift)
    {
      SmearDoubles(bits, start, shift);
      bits := Or(bits, ShiftRight(bits, shift));
      shift := 2 * shift;
    }
    WholeWord(bits, start);
    size := Value(bits) + 1;
    if size > HASH_MAX_SIZE {
      DoubleFits(HASH_MAX_SIZE, size);
    }
  }

  lemma WordLimit()
    ensures Pow2(32) == 0x1_0000_0000
  {
    assert Pow2(8) == 0x100;
    assert Pow2(16) == 0x1_0000;
    assert Pow2(24) == 0x100_0000;
  }

  lemma StartsSmeared(v: Bits)
    ensures Smeared(v, v, 1)
  {
  }

  lemma WholeWord(r: Bits, v: Bits)
    requires |v| == 32 && Smeared(r, v, 32)
    ensures PowerOfTwo(Value(r) + 1) && Value(v) <= Value(r)
    ensures Value(r) < 2 * Value(v) || Value(r) == 0
  {
    forall i | 0 <= i < |v|
      ensures r[i] <==> AnySet(v, 0, i + 1)
    {
    }
    SmearedValue(r, v, 32);
    assert r[..32] == r && v[..32] == v;
  }
}
