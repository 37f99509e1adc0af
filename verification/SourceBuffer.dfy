// The fragmented, copy-on-write buffer behind memory sources (lib/zip_source_buffer.c).
module SourceBuffer {
  import opened Bytes
  import opened FlatFile
  import opened SourceSeek

  const WRITE_FRAGMENT_SIZE: int := 0x1_0000

  datatype Fragment = Fragment(data: array<byte>, length: nat, freeData: bool)

  // A fragment as the caller passes it in; data may be missing when the length is 0.
  datatype UserFragment = UserFragment(data: array?<byte>, length: nat)

  // The malloc/free discipline: the blocks that are allocated and not yet freed.
  class Heap {
    var live: set<array<byte>>

    method Malloc(size: nat) returns (block: array<byte>)
      modifies this
      ensures fresh(block) && block.Length == size
      ensures live == old(live) + {block}
    {
      block := new byte[size];
      live := live + {block};
    }

    // The precondition rules out a double free.
    method Free(block: array<byte>)
      requires block in live
      modifies this
      ensures live == old(live) - {block}
    {
      live := live - {block};
    }
  }

  // The offsets are the prefix sums of the lengths of the fragments, none of which is empty.
  ghost predicate PrefixSums(offsets: seq<nat>, contents: seq<seq<byte>>)
    ensures PrefixSums(offsets, contents) ==> |offsets| == |contents| + 1
  {
    && |offsets| == |contents| + 1
    && offsets[0] == 0
    && (forall i :: 0 <= i < |contents| ==> 0 < |contents[i]| && offsets[i + 1] == offsets[i] + |contents[i]|)
    && (forall i, k :: 0 <= i < k < |offsets| ==> offsets[i] < offsets[k])
  }

  // The bytes are the contents of the fragments one after the other.
  ghost predicate Joins(bytes: seq<byte>, offsets: seq<nat>, contents: seq<seq<byte>>)
    requires PrefixSums(offsets, contents)
    ensures Joins(bytes, offsets, contents) ==> |bytes| == offsets[|contents|]
  {
    && |bytes| == offsets[|contents|]
    && (forall i :: 0 <= i < |contents| ==> offsets[i] + |contents[i]| <= |bytes|)
    && (forall i, j :: 0 <= i < |contents| && 0 <= j < |contents[i]| ==> bytes[offsets[i] + j] == contents[i][j])
  }

  // The data blocks, all of them in the given footprint, contain what is said of them.
  ghost predicate Stores(blocks: set<array<byte>>, fragments: seq<Fragment>, contents: seq<seq<byte>>)
    reads blocks
    ensures Stores(blocks, fragments, contents) ==> |contents| == |fragments|
  {
    && |contents| == |fragments|
    && forall i :: 0 <= i < |fragments| ==>
         && fragments[i].data in blocks
         && |contents[i]| == fragments[i].length <= fragments[i].data.Length
         && contents[i] == fragments[i].data[..fragments[i].length]
  }

  // Fragment f contains the position, or the position sits on one of its boundaries.
  ghost predicate CursorIn(offsets: seq<nat>, f: nat, position: nat) {
    && f < |offsets|
    && offsets[f] <= position
    && (f + 1 < |offsets| ==> position <= offsets[f + 1])
  }

  predicate SharedAt(fragments: seq<Fragment>, peer: seq<Fragment>, i: nat)
    requires i < |fragments|
  {
    i < |peer| && fragments[i].data == peer[i].data
  }

  // Every fragment either uses the block at the same place of the buffer it was cloned from, or is the
  // only reference to a block of its own, which is to be freed with it and lies outside the other buffer.
  ghost predicate Separated(fragments: seq<Fragment>, exclusive: set<array<byte>>, peer: seq<Fragment>,
      peerBlocks: set<array<byte>>) {
    && exclusive !! peerBlocks
    && (forall k :: 0 <= k < |peer| ==> peer[k].data in peerBlocks)
    && (forall i :: 0 <= i < |fragments| ==>
          if SharedAt(fragments, peer, i) then fragments[i].freeData == peer[i].freeData
          else fragments[i].data in exclusive && fragments[i].freeData)
    && (forall i, k :: 0 <= i < k < |fragments| && fragments[i].data in exclusive ==>
        fragments[i].data != fragments[k].data)
    && (forall b :: b in exclusive ==> exists i :: 0 <= i < |fragments| && fragments[i].data == b)
  }

  // Giving a shared fragment a block of its own keeps the fragments separated.
  lemma Unshare(fragments: seq<Fragment>, exclusive: set<array<byte>>, peer: seq<Fragment>,
      peerBlocks: set<array<byte>>, i: nat, f: Fragment)
    requires Separated(fragments, exclusive, peer, peerBlocks) && i < |fragments| && SharedAt(fragments, peer, i)
    requires f.freeData && f.data !in peerBlocks && forall k :: 0 <= k < |fragments| ==> fragments[k].data != f.data
    ensures Separated(fragments[i := f], exclusive + {f.data}, peer, peerBlocks)
    ensures !SharedAt(fragments[i := f], peer, i)
  {
    var after := fragments[i := f];
    forall b | b in exclusive + {f.data}
      ensures exists k :: 0 <= k < |after| && after[k].data == b
    {
      if b == f.data {
        assert after[i].data == b;
      } else {
        var k :| 0 <= k < |fragments| && fragments[k].data == b;
        assert k != i;
        assert after[k].data == b;
      }
    }
  }

  // A fragment with a new block keeps the fragments separated.
  lemma SeparatedAppend(fragments: seq<Fragment>, exclusive: set<array<byte>>, peer: seq<Fragment>,
      peerBlocks: set<array<byte>>, f: Fragment)
    requires Separated(fragments, exclusive, peer, peerBlocks)
    requires f.freeData && f.data !in peerBlocks && forall k :: 0 <= k < |fragments| ==> fragments[k].data != f.data
    ensures Separated(fragments + [f], exclusive + {f.data}, peer, peerBlocks)
  {
    var after := fragments + [f];
    forall b | b in exclusive + {f.data}
      ensures exists k :: 0 <= k < |after| && after[k].data == b
    {
      if b == f.data {
        assert after[|fragments|].data == b;
      } else {
        var k :| 0 <= k < |fragments| && fragments[k].data == b;
        assert after[k].data == b;
      }
    }
  }

  // Changing bytes inside one fragment changes the joined bytes at the same place.
  lemma JoinsOverwrite(bytes: seq<byte>, offsets: seq<nat>, contents: seq<seq<byte>>, i: nat, from: nat,
      data: seq<byte>)
    requires PrefixSums(offsets, contents) && Joins(bytes, offsets, contents)
    requires i < |contents| && from + |data| <= |contents[i]|
    ensures offsets[i] + from + |data| <= |bytes|
    ensures var after := contents[i := Overwrite(contents[i], from, data)];
            PrefixSums(offsets, after) && Joins(Overwrite(bytes, offsets[i] + from, data), offsets, after)
  {
    assert offsets[i + 1] <= offsets[|contents|];
    var after := contents[i := Overwrite(contents[i], from, data)];
    var bytes' := Overwrite(bytes, offsets[i] + from, data);
    forall k, j | 0 <= k < |after| && 0 <= j < |after[k]|
      ensures bytes'[offsets[k] + j] == after[k][j]
    {
      assert bytes[offsets[k] + j] == contents[k][j];
      assert offsets[k + 1] == offsets[k] + |contents[k]|;
      assert k < i ==> offsets[k + 1] <= offsets[i];
      assert k > i ==> offsets[i + 1] <= offsets[k];
    }
  }

  lemma StoresAppend(blocks: set<array<byte>>, fragments: seq<Fragment>, contents: seq<seq<byte>>, f: Fragment)
    requires Stores(blocks, fragments, contents) && f.data in blocks && f.length <= f.data.Length
    ensures Stores(blocks, fragments + [f], contents + [f.data[..f.length]])
  {
  }

  lemma StoresNothing(blocks: set<array<byte>>)
    ensures Stores(blocks, [], [])
  {
  }

  lemma JoinsNothing()
    ensures PrefixSums([0], []) && Joins([], [0], [])
  {
  }

  lemma JoinsAppend(bytes: seq<byte>, offsets: seq<nat>, contents: seq<seq<byte>>, data: seq<byte>)
    requires PrefixSums(offsets, contents) && Joins(bytes, offsets, contents) && |data| > 0
    ensures var offsets' := offsets + [offsets[|contents|] + |data|];
            PrefixSums(offsets', contents + [data]) && Joins(bytes + data, offsets', contents + [data])
  {
  }

  // The bytes up to a position inside fragment f.
  lemma PrefixSumsPrefix(offsets: seq<nat>, contents: seq<seq<byte>>, f: nat, length: nat)
    requires PrefixSums(offsets, contents) && f < |contents| && 0 < length <= |contents[f]|
    ensures PrefixSums(offsets[..f + 1] + [offsets[f] + length], contents[..f] + [contents[f][..length]])
  {
  }

  lemma JoinsPrefix(bytes: seq<byte>, offsets: seq<nat>, contents: seq<seq<byte>>, f: nat, length: nat)
    requires PrefixSums(offsets, contents) && Joins(bytes, offsets, contents)
    requires f < |contents| && 0 < length <= |contents[f]|
    ensures var at := offsets[f] + length;
            var offsets', contents' := offsets[..f + 1] + [at], contents[..f] + [contents[f][..length]];
            at <= |bytes| && PrefixSums(offsets', contents') && Joins(bytes[..at], offsets', contents')
  {
    var at := offsets[f] + length;
    var offsets', contents' := offsets[..f + 1] + [at], contents[..f] + [contents[f][..length]];
    assert at <= |bytes|;
    PrefixSumsPrefix(offsets, contents, f, length);
    forall i | 0 <= i < |contents'|
      ensures offsets'[i] + |contents'[i]| <= at
    {
      assert offsets'[i + 1] <= offsets'[|contents'|];
    }
    forall i, j | 0 <= i < |contents'| && 0 <= j < |contents'[i]|
      ensures bytes[offsets'[i] + j] == contents'[i][j]
    {
      assert contents'[i][j] == contents[i][j];
    }
  }

  // The blocks of the first n fragments that are to be freed when a buffer goes away.
  ghost function Releases(fragments: seq<Fragment>, peer: seq<Fragment>, n: nat): set<array<byte>>
    requires n <= |fragments|
  {
    set i | 0 <= i < n && fragments[i].freeData && !SharedAt(fragments, peer, i) :: fragments[i].data
  }

  lemma ReleasesNext(fragments: seq<Fragment>, peer: seq<Fragment>, n: nat)
    requires n < |fragments|
    ensures Releases(fragments, peer, n + 1) == Releases(fragments, peer, n) +
      if fragments[n].freeData && !SharedAt(fragments, peer, n) then {fragments[n].data} else {}
    ensures Linear(fragments) && fragments[n].freeData ==> fragments[n].data !in Releases(fragments, peer, n)
  {
  }

  // The blocks a buffer is to free.
  ghost function OwnedBy(fragments: seq<Fragment>): set<array<byte>> {
    set i | 0 <= i < |fragments| && fragments[i].freeData :: fragments[i].data
  }

  // No block that is to be freed is referred to by another fragment.
  ghost predicate Linear(fragments: seq<Fragment>) {
    forall i, k :: 0 <= i < |fragments| && 0 <= k < |fragments| && i != k && fragments[i].freeData ==>
      fragments[i].data != fragments[k].data
  }

  // A buffer that may be written to frees just the blocks that are its own.
  lemma ReleasesAreExclusive(fragments: seq<Fragment>, exclusive: set<array<byte>>, peer: seq<Fragment>,
      peerBlocks: set<array<byte>>)
    requires Separated(fragments, exclusive, peer, peerBlocks)
    ensures Releases(fragments, peer, |fragments|) == exclusive
  {
    forall b | b in exclusive
      ensures b in Releases(fragments, peer, |fragments|)
    {
      var i :| 0 <= i < |fragments| && fragments[i].data == b;
    }
  }

  // When the origin of a clone is freed first, the clone inherits the blocks that were still shared.
  lemma CloneInherits(fragments: seq<Fragment>, exclusive: set<array<byte>>, origin: seq<Fragment>,
      originBlocks: set<array<byte>>)
    requires Separated(fragments, exclusive, origin, originBlocks) && Linear(origin)
    ensures Linear(fragments)
    ensures OwnedBy(fragments) == exclusive + (OwnedBy(origin) - Releases(origin, fragments, |origin|))
    ensures Releases(origin, fragments, |origin|) <= OwnedBy(origin)
  {
    forall i | 0 <= i < |fragments|
      ensures SharedAt(fragments, origin, i) ==> fragments[i] == origin[i].(length := fragments[i].length)
    {
    }
    forall b | b in exclusive
      ensures b in OwnedBy(fragments)
    {
      var i :| 0 <= i < |fragments| && fragments[i].data == b;
    }
    forall b | b in OwnedBy(origin) && b !in Releases(origin, fragments, |origin|)
      ensures b in OwnedBy(fragments)
    {
      var i :| 0 <= i < |origin| && origin[i].freeData && origin[i].data == b;
      assert SharedAt(origin, fragments, i);
    }
    forall b | b in OwnedBy(fragments) && b !in exclusive
      ensures b in OwnedBy(origin) && b !in Releases(origin, fragments, |origin|)
    {
      var i :| 0 <= i < |fragments| && fragments[i].freeData && fragments[i].data == b;
      assert SharedAt(fragments, origin, i);
    }
  }

  lemma NothingShared(fragments: seq<Fragment>)
    ensures Releases(fragments, [], |fragments|) == OwnedBy(fragments)
  {
  }

  lemma OwnedAreBlocks(blocks: set<array<byte>>, fragments: seq<Fragment>, contents: seq<seq<byte>>)
    requires Stores(blocks, fragments, contents)
    ensures OwnedBy(fragments) <= blocks
  {
  }

  // The same for a buffer that shares nothing.
  lemma NothingToInherit(fragments: seq<Fragment>, exclusive: set<array<byte>>, origin: seq<Fragment>)
    requires Separated(fragments, exclusive, [], {})
    ensures Linear(fragments) && OwnedBy(fragments) == exclusive
    ensures Releases(origin, [], |origin|) == OwnedBy(origin)
  {
    NothingShared(origin);
    ReleasesAreExclusive(fragments, exclusive, [], {});
  }

  ghost predicate Readable(fs: seq<UserFragment>) {
    forall i :: 0 <= i < |fs| && fs[i].data != null ==> fs[i].length <= fs[i].data.Length
  }

  ghost function UserBlocks(fs: seq<UserFragment>): set<array<byte>> {
    set i | 0 <= i < |fs| && fs[i].data != null :: fs[i].data
  }

  // The bytes the first n of the caller's fragments contain.
  ghost function UserBytes(fs: seq<UserFragment>, n: nat): seq<byte>
    requires Readable(fs) && n <= |fs|
    reads UserBlocks(fs)
  {
    if n == 0 then []
    else UserBytes(fs, n - 1) + if fs[n - 1].data == null then [] else fs[n - 1].data[..fs[n - 1].length]
  }

  ghost function UserLength(fs: seq<UserFragment>, n: nat): nat
    requires n <= |fs|
  {
    if n == 0 then 0 else UserLength(fs, n - 1) + fs[n - 1].length
  }

  // The fragments that are kept: the ones that are not empty.
  ghost function Kept(fs: seq<UserFragment>, freeData: bool, n: nat): seq<Fragment>
    requires n <= |fs|
  {
    if n == 0 then []
    else
      var last := fs[n - 1];
      Kept(fs, freeData, n - 1) +
        if last.length == 0 || last.data == null then [] else [Fragment(last.data, last.length, freeData)]
  }

  ghost predicate DataMissing(fs: seq<UserFragment>) {
    exists i :: 0 <= i < |fs| && fs[i].length > 0 && fs[i].data == null
  }

  lemma UserLengthMonotone(fs: seq<UserFragment>, n: nat, m: nat)
    requires n <= m <= |fs|
    ensures UserLength(fs, n) <= UserLength(fs, m)
  {
  }

  // A buffer for the caller's fragments (lines 493-527); refused when data is missing or the length overflows.
  method NewBuffer(fs: seq<UserFragment>, freeData: bool) returns (r: Option<Buffer>)
    requires Readable(fs)
    ensures r.None? <==> DataMissing(fs) || UserLength(fs, |fs|) > UINT64_MAX
    ensures r.Some? ==>
      var b := r.value;
      && fresh(b) && b.Valid() && b.Flat() == File(UserBytes(fs, |fs|), 0)
      && b.sharedBuffer == null && b.fragments == Kept(fs, freeData, |fs|)
      && b.blocks == UserBlocks(fs)
  {
    hide Joins, PrefixSums, Stores;
    var fragments: seq<Fragment>, offsets: seq<nat>, offset := [], [0], 0;
    ghost var contents: seq<seq<byte>>, memory: seq<byte> := [], [];
    JoinsNothing();
    assert Stores(UserBlocks(fs), [], []) by {
      StoresNothing(UserBlocks(fs));
    }
    for i := 0 to |fs|
      invariant forall k :: 0 <= k < i ==> !(fs[k].length > 0 && fs[k].data == null)
      invariant PrefixSums(offsets, contents) && Joins(memory, offsets, contents)
      invariant Stores(UserBlocks(fs), fragments, contents) && |fragments| <= i
      invariant offset == |memory| == UserLength(fs, i) <= UINT64_MAX
      invariant fragments == Kept(fs, freeData, i) && memory == UserBytes(fs, i)
    {
      if fs[i].length == 0 {
        continue;
      }
      if fs[i].data == null {
        return None;
      }
      if offset + fs[i].length > UINT64_MAX {
        UserLengthMonotone(fs, i + 1, |fs|);
        return None;
      }
      ghost var data := fs[i].data[..fs[i].length];
      JoinsAppend(memory, offsets, contents, data);
      StoresAppend(UserBlocks(fs), fragments, contents, Fragment(fs[i].data, fs[i].length, freeData));
      fragments := fragments + [Fragment(fs[i].data, fs[i].length, freeData)];
      offset := offset + fs[i].length;
      offsets := offsets + [offset];
      contents, memory := contents + [data], memory + data;
    }
    var b := new Buffer.OfParts(fragments, offsets, |fs|, contents, memory, UserBlocks(fs));
    return Some(b);
  }

  class Buffer {
    var fragments: seq<Fragment>
    var fragmentOffsets: seq<nat>
    var fragmentsCapacity: nat
    var sharedBuffer: Buffer?
    var size: nat
    var offset: nat
    var currentFragment: nat

    // The bytes of each fragment, and all of them in order including the unused tail after size.
    ghost var contents: seq<seq<byte>>
    ghost var memory: seq<byte>
    // A set containing all data blocks, and the blocks only this buffer of a clone pair refers to.
    ghost var blocks: set<array<byte>>
    ghost var exclusive: set<array<byte>>

    // Everything but the cursor.
    ghost predicate Consistent()
      reads this, blocks
    {
      && PrefixSums(fragmentOffsets, contents)
      && Joins(memory, fragmentOffsets, contents)
      && Stores(blocks, fragments, contents)
      && |fragments| <= fragmentsCapacity
    }

    ghost predicate Valid()
      reads this, blocks
    {
      && Consistent()
      && offset <= size <= |memory| <= UINT64_MAX
      && CursorIn(fragmentOffsets, currentFragment, offset)
    }

    // The flat file this buffer stands for.
    ghost function Flat(): File
      requires Valid()
      reads this, blocks
    {
      File(memory[..size], offset)
    }

    // The fragments of the other buffer of a clone pair.
    function Peer(): seq<Fragment>
      reads this, sharedBuffer
    {
      if sharedBuffer == null then [] else sharedBuffer.fragments
    }

    ghost function PeerBlocks(): set<array<byte>>
      reads this, sharedBuffer
    {
      if sharedBuffer == null then {} else sharedBuffer.blocks
    }

    // Whether fragment i still uses the data block of the other buffer of a clone pair (lines 661-671).
    predicate IsFragmentShared(i: nat)
      requires i < |fragments|
      reads this, sharedBuffer
    {
      SharedAt(fragments, Peer(), i)
    }

    // The buffer may be written to without any effect on the other buffer of the pair.
    ghost predicate Writable()
      reads this, sharedBuffer
    {
      && sharedBuffer != this
      && exclusive <= blocks
      && Separated(fragments, exclusive, Peer(), PeerBlocks())
    }

    // An empty buffer (lines 469-492).
    constructor ()
      ensures Valid() && Flat() == File([], 0)
      ensures fragments == [] && sharedBuffer == null && blocks == exclusive == {} && Writable()
    {
      fragments, fragmentOffsets, fragmentsCapacity := [], [0], 0;
      sharedBuffer := null;
      size, offset, currentFragment := 0, 0, 0;
      contents, memory, blocks, exclusive := [], [], {}, {};
    }

    constructor OfParts(fragments: seq<Fragment>, fragmentOffsets: seq<nat>, capacity: nat,
                        ghost contents: seq<seq<byte>>, ghost memory: seq<byte>, ghost blocks: set<array<byte>>)
      requires PrefixSums(fragmentOffsets, contents) && Joins(memory, fragmentOffsets, contents)
      requires Stores(blocks, fragments, contents) && |fragments| <= capacity && |memory| <= UINT64_MAX
      ensures Valid() && Flat() == File(memory, 0) && sharedBuffer == null
      ensures this.fragments == fragments && this.blocks == blocks
    {
      this.fragments, this.fragmentOffsets, fragmentsCapacity := fragments, fragmentOffsets, capacity;
      sharedBuffer := null;
      size, offset, currentFragment := fragmentOffsets[|fragments|], 0, 0;
      this.contents, this.memory, this.blocks, exclusive := contents, memory, blocks, {};
    }

    // The fields of a clone (lines 371-390).
    constructor Sharing(origin: Buffer, fragment: nat, fragmentOffset: nat)
      requires origin.Valid() && fragment < |origin.fragments|
      requires 0 < fragmentOffset <= origin.fragments[fragment].length
      ensures fragments == origin.fragments[..fragment] + [origin.fragments[fragment].(length := fragmentOffset)]
      ensures fragmentOffsets ==
              origin.fragmentOffsets[..fragment + 1] + [origin.fragmentOffsets[fragment] + fragmentOffset]
      ensures size == origin.fragmentOffsets[fragment] + fragmentOffset && offset == 0
      ensures Valid() && Writable() && exclusive == {} && blocks == origin.blocks && sharedBuffer == origin
      ensures size <= |origin.memory| && memory == origin.memory[..size]
    {
      hide Joins, PrefixSums;
      JoinsPrefix(origin.memory, origin.fragmentOffsets, origin.contents, fragment, fragmentOffset);
      fragments := origin.fragments[..fragment] + [origin.fragments[fragment].(length := fragmentOffset)];
      fragmentOffsets := origin.fragmentOffsets[..fragment + 1] + [origin.fragmentOffsets[fragment] + fragmentOffset];
      fragmentsCapacity := fragment + 1;
      sharedBuffer := origin;
      size, offset, currentFragment := origin.fragmentOffsets[fragment] + fragmentOffset, 0, 0;
      contents := origin.contents[..fragment] + [origin.contents[fragment][..fragmentOffset]];
      memory := origin.memory[..origin.fragmentOffsets[fragment] + fragmentOffset];
      blocks, exclusive := origin.blocks, {};
    }

    // Binary search for the fragment a position is in (lines 396-420).
    method FindFragment(position: nat) returns (f: nat)
      requires Consistent() && position <= |memory|
      ensures CursorIn(fragmentOffsets, f, position)
      ensures |fragments| > 0 ==> f < |fragments| && (position < |memory| ==> position < fragmentOffsets[f + 1])
    {
      hide Stores;
      if |fragments| == 0 {
        return 0;
      }
      var low, high := 0, |fragments| - 1;
      while low < high
        invariant 0 <= low <= high < |fragments|
        invariant fragmentOffsets[low] <= position
        invariant high == |fragments| - 1 || position < fragmentOffsets[high + 1]
      {
        var mid := (high - low) / 2 + low;
        if fragmentOffsets[mid] > position {
          high := mid - 1;
        } else if mid == |fragments| || fragmentOffsets[mid + 1] > position {
          return mid;
        } else {
          low := mid + 1;
        }
      }
      return low;
    }

    lemma FragmentAt(f: nat, position: nat)
      requires Consistent() && CursorIn(fragmentOffsets, f, position) && position < |memory|
      ensures f < |fragments| && |fragmentOffsets| == |fragments| + 1
      ensures fragmentOffsets[f] <= position <= fragmentOffsets[f + 1]
      ensures fragmentOffsets[f + 1] == fragmentOffsets[f] + fragments[f].length
      ensures CursorIn(fragmentOffsets, f + 1, fragmentOffsets[f + 1])
    {
    }

    // memcpy count bytes at position base + to, which lie in fragment i, into dst (line 557).
    method CopyPiece(i: nat, ghost base: nat, from: nat, dst: array<byte>, to: nat, count: nat)
      requires Consistent() && dst !in blocks
      requires i < |fragments| && from + count <= fragments[i].length && to + count <= dst.Length
      requires base + to == fragmentOffsets[i] + from
      modifies dst
      ensures Consistent() && base + to + count <= |memory|
      ensures forall k :: 0 <= k < dst.Length && !(to <= k < to + count) ==> dst[k] == old(dst[k])
      ensures forall k :: to <= k < to + count ==> dst[k] == memory[base + k]
    {
      CopyBlock(fragments[i].data, from, dst, to, count);
      assert fragmentOffsets[i + 1] <= |memory|;
      forall k | to <= k < to + count
        ensures dst[k] == memory[base + k]
      {
        var j := from + k - to;
        assert contents[i][j] == fragments[i].data[j] == dst[k];
        assert memory[fragmentOffsets[i] + j] == contents[i][j];
      }
    }

    // Copy length bytes from the cursor on into dst, fragment by fragment (lines 548-564).
    method CopyTo(dst: array<byte>, length: nat) returns (i: nat)
      requires Valid() && dst !in blocks
      requires 0 < length <= dst.Length && offset + length <= size
      modifies dst
      ensures Consistent() && CursorIn(fragmentOffsets, i, offset + length)
      ensures forall k :: 0 <= k < length ==> dst[k] == memory[offset + k]
      ensures forall k :: length <= k < dst.Length ==> dst[k] == old(dst[k])
    {
      hide Joins, PrefixSums, Stores;
      i := currentFragment;
      var fragmentOffset := offset - fragmentOffsets[i];
      var copied := 0;
      while copied < length
        invariant 0 <= copied <= length && Consistent()
        invariant CursorIn(fragmentOffsets, i, offset + copied)
        invariant copied < length ==> fragmentOffsets[i] + fragmentOffset == offset + copied
        invariant forall k :: 0 <= k < copied ==> dst[k] == memory[offset + k]
        invariant forall k :: copied <= k < dst.Length ==> dst[k] == old(dst[k])
        decreases length - copied, |fragments| - i
      {
        FragmentAt(i, offset + copied);
        var left := Min(length - copied, fragments[i].length - fragmentOffset);
        CopyPiece(i, offset, fragmentOffset, dst, copied, left);
        if left == fragments[i].length - fragmentOffset {
          i := i + 1;
        }
        copied := copied + left;
        fragmentOffset := 0;
      }
    }

    // Read up to requested bytes at the cursor into dst (lines 536-569).
    method Read(dst: array<byte>, requested: nat) returns (n: int)
      requires Valid() && requested <= dst.Length && dst !in blocks
      modifies this`offset, this`currentFragment, dst
      ensures Valid() && Flat().bytes == old(Flat().bytes)
      ensures n == if old(Flat().Available(requested)) <= INT64_MAX then old(Flat().Available(requested)) else -1
      ensures offset == old(offset) + Max(n, 0)
      ensures forall k :: 0 <= k < n ==> dst[k] == old(Flat()).bytes[old(offset) + k]
      ensures forall k :: Max(n, 0) <= k < dst.Length ==> dst[k] == old(dst[k])
    {
      hide Joins, PrefixSums;
      var length := Min(requested, size - offset);
      if length == 0 {
        return 0;
      }
      if length > INT64_MAX {
        return -1;
      }
      var i := CopyTo(dst, length);
      offset := offset + length;
      currentFragment := i;
      return length;
    }

    // Replace a shared block by a private copy (lines 674-692).
    method MakeFragmentWritable(heap: Heap, i: nat)
      requires Consistent() && Writable() && i < |fragments|
      modifies this`fragments, this`blocks, this`exclusive, heap
      ensures Consistent() && Writable() && !IsFragmentShared(i)
      ensures |fragments| == |old(fragments)| && fragments[i].length == old(fragments[i].length)
      ensures fresh(exclusive - old(exclusive)) && exclusive >= old(exclusive)
      ensures heap.live == old(heap.live) + (exclusive - old(exclusive))
    {
      hide Joins, PrefixSums, Separated;
      if !IsFragmentShared(i) {
        return;
      }
      var shared := fragments[i];
      var newData := heap.Malloc(shared.length);
      CopyBlock(shared.data, 0, newData, 0, shared.length);
      Unshare(fragments, exclusive, Peer(), PeerBlocks(), i, Fragment(newData, shared.length, true));
      fragments := fragments[i := Fragment(newData, shared.length, true)];
      blocks, exclusive := blocks + {newData}, exclusive + {newData};
    }

    // memcpy data into a block no other fragment uses.
    method StorePiece(i: nat, from: nat, data: seq<byte>)
      requires Stores(blocks, fragments, contents) && i < |fragments| && from + |data| <= fragments[i].length
      requires forall k :: 0 <= k < |fragments| && k != i ==> fragments[k].data != fragments[i].data
      modifies fragments[i].data, this`contents
      ensures Stores(blocks, fragments, contents)
      ensures contents == old(contents)[i := Overwrite(old(contents[i]), from, data)]
    {
      FillBlock(fragments[i].data, from, data);
      contents := contents[i := Overwrite(contents[i], from, data)];
    }

    // Write into a fragment that is not shared (line 639).
    method WritePiece(i: nat, from: nat, data: seq<byte>)
      requires Consistent() && Writable() && i < |fragments| && !IsFragmentShared(i)
      requires from + |data| <= fragments[i].length
      modifies this`contents, this`memory, fragments[i].data
      ensures Consistent() && Writable() && fragmentOffsets[i] + from + |data| <= |old(memory)|
      ensures memory == Overwrite(old(memory), fragmentOffsets[i] + from, data)
    {
      hide Joins, PrefixSums;
      JoinsOverwrite(memory, fragmentOffsets, contents, i, from, data);
      StorePiece(i, from, data);
      memory := Overwrite(memory, fragmentOffsets[i] + from, data);
    }

    // One new fragment at the end (lines 615-623).
    method AppendFragment(heap: Heap)
      requires Valid() && Writable() && |memory| + WRITE_FRAGMENT_SIZE <= UINT64_MAX && |fragments| < fragmentsCapacity
      modifies this`fragments, this`fragmentOffsets, this`contents, this`memory, this`blocks, this`exclusive, heap
      ensures Valid() && Writable() && |fragments| == |old(fragments)| + 1
      ensures old(memory) <= memory && |memory| == |old(memory)| + WRITE_FRAGMENT_SIZE
      ensures fresh(exclusive - old(exclusive)) && exclusive >= old(exclusive)
      ensures heap.live == old(heap.live) + (exclusive - old(exclusive))
    {
      hide Joins, Separated, PrefixSums;
      var data := heap.Malloc(WRITE_FRAGMENT_SIZE);
      SeparatedAppend(fragments, exclusive, Peer(), PeerBlocks(), Fragment(data, WRITE_FRAGMENT_SIZE, true));
      Attach(data);
    }

    method Attach(data: array<byte>)
      requires Valid() && data.Length == WRITE_FRAGMENT_SIZE && |memory| + WRITE_FRAGMENT_SIZE <= UINT64_MAX
      requires |fragments| < fragmentsCapacity
      modifies this`fragments, this`fragmentOffsets, this`contents, this`memory, this`blocks, this`exclusive
      ensures Valid() && fragments == old(fragments) + [Fragment(data, WRITE_FRAGMENT_SIZE, true)]
      ensures exclusive == old(exclusive) + {data} && blocks == old(blocks) + {data} && memory == old(memory) + data[..]
    {
      hide Joins, PrefixSums;
      ghost var bytes := data[..];
      JoinsAppend(memory, fragmentOffsets, contents, bytes);
      fragmentOffsets := fragmentOffsets + [fragmentOffsets[|fragments|] + WRITE_FRAGMENT_SIZE];
      fragments := fragments + [Fragment(data, WRITE_FRAGMENT_SIZE, true)];
      contents, memory := contents + [bytes], memory + bytes;
      blocks, exclusive := blocks + {data}, exclusive + {data};
    }

    // Append fragments until length bytes fit at the cursor (lines 593-625).
    method Grow(heap: Heap, length: nat)
      requires Valid() && Writable() && offset + length + WRITE_FRAGMENT_SIZE <= TWO_64
      modifies this`fragments, this`fragmentOffsets, this`fragmentsCapacity, this`contents, this`memory, this`blocks,
               this`exclusive, heap
      ensures Valid() && Writable()
      ensures old(memory) <= memory && offset + length <= |memory|
      ensures fresh(exclusive - old(exclusive)) && exclusive >= old(exclusive)
      ensures heap.live == old(heap.live) + (exclusive - old(exclusive))
    {
      hide Joins, Separated, PrefixSums;
      var capacity := fragmentOffsets[|fragments|];
      if offset + length > capacity {
        var neededFragments :=
          |fragments| + (length - (capacity - offset) + WRITE_FRAGMENT_SIZE - 1) / WRITE_FRAGMENT_SIZE;
        if neededFragments > fragmentsCapacity {
          var newCapacity := if fragmentsCapacity == 0 then 16 else fragmentsCapacity;
          while newCapacity < neededFragments
            invariant newCapacity > 0 && newCapacity >= fragmentsCapacity
          {
            newCapacity := newCapacity * 2;
          }
          fragmentsCapacity := newCapacity;
        }
        ghost var missing := offset + length - capacity;
        assert 0 < missing <= (neededFragments - |fragments|) * WRITE_FRAGMENT_SIZE < missing + WRITE_FRAGMENT_SIZE;
        while |fragments| < neededFragments
          invariant Valid() && Writable()
          invariant |fragments| <= neededFragments <= fragmentsCapacity
          invariant |memory| == |old(memory)| + (|fragments| - |old(fragments)|) * WRITE_FRAGMENT_SIZE
          invariant old(memory) <= memory
          invariant fresh(exclusive - old(exclusive)) && exclusive >= old(exclusive)
          invariant heap.live == old(heap.live) + (exclusive - old(exclusive))
        {
          AppendFragment(heap);
        }
      }
    }

    // Copy data over the bytes from the cursor on, fragment by fragment (lines 627-649).
    method CopyFrom(heap: Heap, data: seq<byte>) returns (i: nat)
      requires Valid() && Writable() && offset + |data| <= |memory|
      modifies this`fragments, this`contents, this`memory, this`blocks, this`exclusive, heap, exclusive
      ensures Consistent() && Writable() && CursorIn(fragmentOffsets, i, offset + |data|)
      ensures memory == Overwrite(old(memory), offset, data)
      ensures fresh(exclusive - old(exclusive)) && exclusive >= old(exclusive)
      ensures heap.live == old(heap.live) + (exclusive - old(exclusive))
    {
      hide Joins, PrefixSums, Stores, Separated, Overwrite;
      assert Overwrite(memory, offset, data[..0]) == memory by {
        OverwriteNothing(memory, offset, data[..0]);
      }
      i := currentFragment;
      var fragmentOffset := offset - fragmentOffsets[i];
      var copied := 0;
      while copied < |data|
        invariant 0 <= copied <= |data| && Consistent() && Writable()
        invariant CursorIn(fragmentOffsets, i, offset + copied)
        invariant copied < |data| ==> fragmentOffsets[i] + fragmentOffset == offset + copied
        invariant memory == Overwrite(old(memory), offset, data[..copied])
        invariant fresh(exclusive - old(exclusive)) && exclusive >= old(exclusive)
        invariant heap.live == old(heap.live) + (exclusive - old(exclusive))
        decreases |data| - copied, |fragments| - i
      {
        FragmentAt(i, offset + copied);
        var n := Min(|data| - copied, fragments[i].length - fragmentOffset);
        MakeFragmentWritable(heap, i);
        OwnsFragment(i);
        WritePiece(i, fragmentOffset, data[copied..copied + n]);
        OverwriteInParts(old(memory), offset, data, copied, copied + n);
        if n == fragments[i].length - fragmentOffset {
          i := i + 1;
          fragmentOffset := 0;
        } else {
          fragmentOffset := fragmentOffset + n;
        }
        copied := copied + n;
      }
      assert data[..copied] == data;
    }

    lemma OwnsFragment(i: nat)
      requires Writable() && i < |fragments| && !IsFragmentShared(i)
      ensures fragments[i].data in exclusive
    {
    }

    // Write data at the cursor (lines 585-658).
    method Write(heap: Heap, data: seq<byte>) returns (n: int)
      requires Valid() && Writable() && offset + WRITE_FRAGMENT_SIZE <= TWO_64
      modifies this, heap, exclusive
      ensures Valid() && Writable() && sharedBuffer == old(sharedBuffer)
      ensures n == if old(offset) + |data| + WRITE_FRAGMENT_SIZE <= TWO_64 then |data| else -1
      ensures Flat() == if n >= 0 then old(Flat()).Write(data) else old(Flat())
      ensures fresh(exclusive - old(exclusive)) && exclusive >= old(exclusive)
      ensures heap.live == old(heap.live) + (exclusive - old(exclusive))
    {
      hide Joins, PrefixSums, Stores, Separated, Overwrite;
      if (offset + |data| + WRITE_FRAGMENT_SIZE - 1) % TWO_64 < |data| {
        return -1;
      }
      Grow(heap, |data|);
      ghost var grown := memory;
      assert grown[..size] == old(memory)[..size];
      OverwritePrefix(grown, size, offset, data);
      var i := CopyFrom(heap, data);
      offset := offset + |data|;
      currentFragment := i;
      if offset > size {
        size := offset;
      }
      return |data|;
    }

    // Move the cursor (lines 572-582).
    method Seek(delta: int64, whence: Whence) returns (ok: bool)
      requires Valid()
      modifies this`offset, this`currentFragment
      ensures Valid() && Flat().bytes == old(Flat().bytes)
      ensures var newOffset := ComputeOffset(old(offset), size, delta, whence);
              ok == (newOffset >= 0) && offset == if ok then newOffset else old(offset)
    {
      hide Joins, PrefixSums, Stores;
      var newOffset := ComputeOffset(offset, size, delta, whence);
      if newOffset < 0 {
        return false;
      }
      currentFragment := FindFragment(newOffset);
      offset := newOffset;
      return true;
    }

    // The part after position sits in a fragment of which more would be wasted than kept.
    ghost predicate WastesMoreThanItKeeps(position: nat)
      requires |fragmentOffsets| == |fragments| + 1
      reads this
    {
      exists i :: 0 <= i < |fragments| && fragmentOffsets[i] < position <= fragmentOffsets[i + 1] &&
        fragmentOffsets[i + 1] - position > position
    }

    lemma WasteIsInOneFragment(f: nat, position: nat)
      requires Consistent() && f < |fragments| && fragmentOffsets[f] < position <= fragmentOffsets[f + 1]
      ensures WastesMoreThanItKeeps(position) <==> fragmentOffsets[f + 1] - position > position
      ensures fragmentOffsets[f + 1] == fragmentOffsets[f] + fragments[f].length
    {
      forall i | 0 <= i < |fragments| && fragmentOffsets[i] < position <= fragmentOffsets[i + 1]
        ensures i == f
      {
      }
    }

    // The fragment a non-empty prefix ends in, and how much of it belongs to the prefix (lines 353-360).
    method FindEnd(position: nat) returns (fragment: nat, fragmentOffset: nat)
      requires Consistent() && 0 < position <= |memory|
      ensures fragment < |fragments| && |fragmentOffsets| == |fragments| + 1
      ensures fragmentOffset == position - fragmentOffsets[fragment]
      ensures fragmentOffsets[fragment] < position <= fragmentOffsets[fragment + 1]
    {
      hide Joins;
      fragment := FindFragment(position);
      fragmentOffset := position - fragmentOffsets[fragment];
      if fragmentOffset == 0 {
        fragment := fragment - 1;
        fragmentOffset := fragments[fragment].length;
      }
    }

    // A second buffer for the first length bytes that shares the data blocks (lines 335-393).
    method Clone(length: nat) returns (clone: Option<Buffer>)
      requires Valid()
      modifies this`sharedBuffer
      ensures clone.None? <==>
                length > size || (length > 0 && old(sharedBuffer != null || WastesMoreThanItKeeps(length)))
      ensures clone.None? ==> sharedBuffer == old(sharedBuffer)
      ensures clone.Some? ==>
        var c := clone.value;
        && fresh(c) && c.Valid() && c.Writable() && c.exclusive == {} && c.offset == 0
        && c.Flat().bytes == c.memory == memory[..length]
        && (if length == 0 then c.blocks == {} && c.sharedBuffer == null && sharedBuffer == old(sharedBuffer)
            else c.blocks == blocks && c.sharedBuffer == this && sharedBuffer == c)
    {
      hide Joins, PrefixSums, Stores, WastesMoreThanItKeeps;
      if length == 0 {
        var c := new Buffer();
        return Some(c);
      }
      if length > size {
        return None;
      }
      if sharedBuffer != null {
        return None;
      }
      var fragment, fragmentOffset := FindEnd(length);
      WasteIsInOneFragment(fragment, length);
      var waste := fragments[fragment].length - fragmentOffset;
      if waste > length {
        return None;
      }
      var c := new Buffer.Sharing(this, fragment, fragmentOffset);
      sharedBuffer := c;
      return Some(c);
    }

    // Free the blocks that are to be freed and are not shared (lines 430-436).
    method FreeBlocks(heap: Heap)
      requires Linear(fragments) && Releases(fragments, Peer(), |fragments|) <= heap.live
      modifies heap
      ensures heap.live == old(heap.live) - Releases(fragments, Peer(), |fragments|)
    {
      for i := 0 to |fragments|
        invariant heap.live == old(heap.live) - Releases(fragments, Peer(), i)
      {
        ghost var before := heap.live;
        if fragments[i].freeData && !IsFragmentShared(i) {
          assert fragments[i].data in Releases(fragments, Peer(), |fragments|);
          heap.Free(fragments[i].data);
        }
        ReleasesNext(fragments, Peer(), i);
      }
    }
  }

  // memcpy of a whole buffer into a block.
  method FillBlock(block: array<byte>, at: nat, data: seq<byte>)
    requires at + |data| <= block.Length
    modifies block
    ensures block[..] == Overwrite(old(block[..]), at, data)
  {
    for c := 0 to |data|
      invariant block[..] == Overwrite(old(block[..]), at, data[..c])
    {
      block[at + c] := data[c];
    }
  }

  // memcpy between two different blocks.
  method CopyBlock(src: array<byte>, from: nat, dst: array<byte>, to: nat, count: nat)
    requires src != dst && from + count <= src.Length && to + count <= dst.Length
    modifies dst
    ensures forall k :: 0 <= k < dst.Length ==>
      dst[k] == if to <= k < to + count then src[from + k - to] else old(dst[k])
  {
    for c := 0 to count
      invariant forall k :: 0 <= k < dst.Length ==>
        dst[k] == if to <= k < to + c then src[from + k - to] else old(dst[k])
    {
      dst[to + c] := src[from + c];
    }
  }
}
