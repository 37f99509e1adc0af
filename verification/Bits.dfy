// Unsigned integers of a fixed width as bit sequences, most significant bit first.
module Bits {

  type Bits = seq<bool>

  function Value(v: Bits): nat {
    if v == [] then 0 else 2 * Value(v[..|v| - 1]) + if v[|v| - 1] then 1 else 0
  }

  function FromNat(n: nat, width: nat): Bits {
    if width == 0 then [] else FromNat(n / 2, width - 1) + [n % 2 == 1]
  }

  function Or(v: Bits, w: Bits): Bits
    requires |v| == |w|
  {
    seq(|v|, i requires 0 <= i < |v| => v[i] || w[i])
  }

  function ShiftRight(v: Bits, count: nat): Bits {
    seq(|v|, i requires 0 <= i < |v| => i >= count && v[i - count])
  }

  function Pow2(k: nat): nat {
    if k == 0 then 1 else 2 * Pow2(k - 1)
  }

  predicate PowerOfTwo(n: nat) {
    n == 1 || (n > 0 && n % 2 == 0 && PowerOfTwo(n / 2))
  }

  lemma {:induction false} ValueOfFromNat(n: nat, width: nat)
    requires n < Pow2(width)
    ensures |FromNat(n, width)| == width && Value(FromNat(n, width)) == n
  {
    if width > 0 {
      ValueOfFromNat(n / 2, width - 1);
      assert FromNat(n, width)[..width - 1] == FromNat(n / 2, width - 1);
    }
  }

  // Bit i of r is set if one of the bits of v in the window of the given size that ends at i is.
  ghost predicate Smeared(r: Bits, v: Bits, window: nat) {
    && |r| == |v|
    && forall i :: 0 <= i < |v| ==> (r[i] <==> AnySet(v, i + 1 - window, i + 1))
  }

  ghost predicate AnySet(v: Bits, from: int, to: int) {
    exists j :: 0 <= j < |v| && from <= j < to && v[j]
  }

  // OR-ing with a copy shifted by the window doubles the window.
  lemma SmearDoubles(r: Bits, v: Bits, window: nat)
    requires Smeared(r, v, window)
    ensures Smeared(Or(r, ShiftRight(r, window)), v, 2 * window)
  {
    var s := Or(r, ShiftRight(r, window));
    forall i | 0 <= i < |v|
      ensures s[i] <==> AnySet(v, i + 1 - 2 * window, i + 1)
    {
      if AnySet(v, i + 1 - 2 * window, i + 1) {
        var j :| 0 <= j < |v| && i + 1 - 2 * window <= j < i + 1 && v[j];
        if j >= i + 1 - window {
          assert AnySet(v, i + 1 - window, i + 1);
        } else {
          assert AnySet(v, i - window + 1 - window, i - window + 1);
        }
      }
    }
  }

  // When the window covers everything, all bits below the highest one set are set.
  lemma {:induction false} SmearedValue(r: Bits, v: Bits, n: nat)
    requires n <= |v| == |r| && forall i :: 0 <= i < |v| ==> (r[i] <==> AnySet(v, 0, i + 1))
    ensures PowerOfTwo(Value(r[..n]) + 1) && Value(v[..n]) <= Value(r[..n])
    ensures if AnySet(v, 0, n) then Value(r[..n]) < 2 * Value(v[..n]) else Value(r[..n]) == Value(v[..n]) == 0
  {
    if n > 0 {
      SmearedValue(r, v, n - 1);
      assert r[..n][..n - 1] == r[..n - 1] && v[..n][..n - 1] == v[..n - 1];
      assert AnySet(v, 0, n) <==> AnySet(v, 0, n - 1) || v[n - 1];
    }
  }
}
