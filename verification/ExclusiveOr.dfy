// Bitwise exclusive or of bytes.
module ExclusiveOr {
  import opened Bytes
  import opened Bits

  function XorBits(a: nat, b: nat, width: nat): (r: nat)
    ensures r < Pow2(width)
  {
    if width == 0 then 0 else 2 * XorBits(a / 2, b / 2, width - 1) + if a % 2 != b % 2 then 1 else 0
  }

  lemma {:induction false} XorBitsTwice(a: nat, b: nat, width: nat)
    requires a < Pow2(width)
    ensures XorBits(XorBits(a, b, width), b, width) == a
  {
    if width > 0 {
      XorBitsTwice(a / 2, b / 2, width - 1);
    }
  }

  function OrBits(a: nat, b: nat, width: nat): (r: nat)
    ensures r < Pow2(width)
  {
    if width == 0 then 0 else 2 * OrBits(a / 2, b / 2, width - 1) + if a % 2 == 1 || b % 2 == 1 then 1 else 0
  }

  // Combining with no bits.
  lemma {:induction false} WithZero(a: nat, width: nat)
    requires a < Pow2(width)
    ensures OrBits(a, 0, width) == a && XorBits(a, 0, width) == a
  {
    if width > 0 {
      WithZero(a / 2, width - 1);
    }
  }

  // The second bit is set, the first one turned over.
  lemma LowBits(a: nat, width: nat)
    requires width >= 2 && a < Pow2(width)
    ensures OrBits(a, 2, width) == if a / 2 % 2 == 1 then a else a + 2
    ensures XorBits(a, 1, width) == if a % 2 == 1 then a - 1 else a + 1
  {
    assert Pow2(width) == 4 * Pow2(width - 2);
    WithZero(a / 2, width - 1);
    WithZero(a / 4, width - 2);
    assert OrBits(a / 2, 1, width - 1) == 2 * OrBits(a / 4, 0, width - 2) + 1;
  }

  lemma EightBits()
    ensures Pow2(8) == 0x100
  {
    assert Pow2(4) == 16;
  }

  function Xor(a: byte, b: byte): byte {
    EightBits();
    XorBits(a, b, 8)
  }

  lemma {:induction false} ZeroWith(b: nat, width: nat)
    requires b < Pow2(width)
    ensures XorBits(0, b, width) == b
  {
    if width > 0 {
      ZeroWith(b / 2, width - 1);
    }
  }

  lemma XorZero(b: byte)
    ensures Xor(0, b) == b
  {
    EightBits();
    ZeroWith(b, 8);
  }

  lemma XorTwice(a: byte, b: byte)
    ensures Xor(Xor(a, b), b) == a
  {
    EightBits();
    XorBitsTwice(a, b, 8);
  }
}
