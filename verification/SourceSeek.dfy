// Seek arithmetic shared by every seekable source (lib/zip_source_seek.c).
module SourceSeek {
  import opened Bytes

  datatype Whence = SeekSet | SeekCur | SeekEnd

  // offset + delta, or UINT64_MAX when the sum leaves the range that can be represented.
  function OffsetAdd(offset: uint64, delta: int64): uint64 {
    if delta >= 0 then
      if offset > INT64_MAX - delta then UINT64_MAX else offset + delta
    else
      if offset + delta < 0 then UINT64_MAX else offset + delta
  }

  // The two's complement reading of an unsigned value.
  function ToInt64(x: uint64): int64 {
    if x > INT64_MAX then x - TWO_64 else x
  }

  // New position of a cursor at offset in a source of the given length; negative when the seek is refused.
  function ComputeOffset(offset: uint64, length: uint64, delta: int64, whence: Whence): int64 {
    var newOffset: uint64 :=
      match whence
      case SeekCur => OffsetAdd(offset, delta)
      case SeekEnd => OffsetAdd(length, delta)
      case SeekSet => if delta < 0 || delta > length then UINT64_MAX else delta;
    if newOffset == UINT64_MAX || newOffset > length then -1 else ToInt64(newOffset)
  }

  function Base(offset: uint64, length: uint64, whence: Whence): uint64 {
    match whence
    case SeekSet => 0
    case SeekCur => offset
    case SeekEnd => length
  }

  // A seek is accepted exactly when the true, unbounded sum lies inside the source and fits in a
  // signed 64-bit offset, and then the new position is that sum.
  lemma ComputeOffsetIsExact(offset: uint64, length: uint64, delta: int64, whence: Whence)
    ensures var target := Base(offset, length, whence) + delta;
            var r := ComputeOffset(offset, length, delta, whence);
            && (r >= 0 <==> 0 <= target <= Min(length, INT64_MAX))
            && (r >= 0 ==> r == target)
  {
    assert UINT64_MAX > INT64_MAX;
  }
}
