// Facts about slices of sequences.
module Seqs {

  lemma SliceOfSlice<T>(s: seq<T>, start: nat, end: nat, from: nat, count: nat)
    requires start <= end <= |s| && from + count <= end - start
    ensures s[start..end][from..from + count] == s[start + from..start + from + count]
  {
    var inner, outer := s[start..end][from..from + count], s[start + from..start + from + count];
    forall k | 0 <= k < count
      ensures inner[k] == outer[k]
    {
      assert inner[k] == s[start..end][from + k];
    }
  }

  lemma Inside<T>(before: seq<T>, part: seq<T>, after: seq<T>)
    ensures (before + part + after)[|before|..|before| + |part|] == part
  {
  }

  lemma PartsInside<T>(a: seq<T>, b: seq<T>, c: seq<T>, d: seq<T>, e: seq<T>)
    ensures var all, i, j, k := a + b + c + d + e, |a| + |b|, |a| + |b| + |c|, |a| + |b| + |c| + |d|;
            all[|a|..i] == b && all[i..j] == c && all[j..k] == d && all[k..] == e
  {
    Inside(a, b, c + d + e);
    Inside(a + b, c, d + e);
    Inside(a + b + c, d, e);
    assert a + b + c + d + e == a + b + (c + d + e) == a + b + c + (d + e);
  }

  // The elements of all parts in turn.
  function Flatten<T>(parts: seq<seq<T>>): seq<T> {
    if parts == [] then [] else parts[0] + Flatten(parts[1..])
  }
}
