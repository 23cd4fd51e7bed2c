/** Range checks in 64-bit arithmetic (`src/utils.rs`, `src/atomic.rs`). */
module Bounds {
  import opened Ranges

  const U64_LIMIT: nat := 0x1_0000_0000_0000_0000
  const U64_MAX: nat := U64_LIMIT - 1

  /** `isize::MAX` on a 64-bit target: the longest mapping the raw layer makes. */
  const MAX_LEN: nat := 0x7FFF_FFFF_FFFF_FFFF

  type U64 = x: nat | x < U64_LIMIT

  /** Bytes that can be mapped: never more than a mapping can hold. */
  type Bytes = b: seq<Byte> | |b| <= MAX_LEN witness []

  /** `mem` with `[at, at + |bytes|)` replaced; nothing is written past its end. */
  function Put(mem: seq<Byte>, at: nat, bytes: seq<Byte>): (r: seq<Byte>)
    ensures |r| == |mem|
  {
    if at + |bytes| <= |mem| then mem[..at] + bytes + mem[at + |bytes|..] else mem
  }

  /** `after` is `before` with `bytes` over the range that starts at `at`. */
  ghost predicate Overwritten(before: seq<Byte>, after: seq<Byte>, at: nat, bytes: seq<Byte>) {
    && |after| == |before|
    && forall x :: 0 <= x < |after| ==> after[x] == if at <= x < at + |bytes| then bytes[x - at] else before[x]
  }

  lemma PutOverwrites(mem: seq<Byte>, at: nat, bytes: seq<Byte>)
    requires at + |bytes| <= |mem| || bytes == []
    ensures Overwritten(mem, Put(mem, at, bytes), at, bytes)
  {
  }

  function CheckedAdd(a: U64, b: U64): Option<U64> {
    if a + b < U64_LIMIT then Some(a + b) else None
  }

  function CheckedSub(a: U64, b: U64): Option<U64> {
    if b <= a then Some(a - b) else None
  }

  function CheckedMul(a: nat, b: nat): Option<U64> {
    if 0 <= a * b < U64_LIMIT then Some(a * b) else None
  }

  function SaturatingAdd(a: U64, b: U64): U64 {
    if a + b < U64_LIMIT then a + b else U64_MAX
  }

  function SaturatingMul(a: U64, b: U64): U64 {
    if 0 <= a * b < U64_LIMIT then a * b else U64_MAX
  }

  datatype Error =
    | OutOfBounds(offset: nat, len: nat, total: nat)
    | Misaligned(required: nat, at: nat)
    | InvalidMode
    | Io
    | ResizeFailed
    | FlushFailed
    | InvalidInput

  datatype Result<+T> = Ok(value: T) | Err(error: Error)

  /** `slice_range` where `usize` holds no more than `usizeMax`. */
  function SliceRangeIn(offset: U64, len: U64, total: U64, usizeMax: U64): Result<Range> {
    var end := CheckedAdd(offset, len);
    if end.None? || end.value > total then Err(OutOfBounds(offset, len, total))
    else if offset > usizeMax || end.value > usizeMax then Err(OutOfBounds(offset, len, total))
    else Ok(Range(offset, end.value))
  }

  /** The same with a 64-bit `usize`. */
  function SliceRange(offset: U64, len: U64, total: U64): Result<Range> {
    SliceRangeIn(offset, len, total, U64_MAX)
  }

  /** The bounds test of `view_parts`, with its saturating arithmetic. */
  predicate ViewFits(offset: U64, size: U64, count: U64, total: U64) {
    SaturatingAdd(offset, SaturatingMul(size, count)) <= total
  }

  /** Checked: exact for every total and every width, with no overflow let through. */
  lemma SliceRangeExact(offset: U64, len: U64, total: U64, usizeMax: U64)
    ensures SliceRangeIn(offset, len, total, usizeMax) ==
            if offset + len <= total && offset + len <= usizeMax then Ok(Range(offset, offset + len))
            else Err(OutOfBounds(offset, len, total))
  {
  }

  /**
   Saturating: exact in unbounded arithmetic for every length a mapping
   can have, and wrong for exactly one total, which no mapping reaches.
   */
  lemma ViewFitsExact(offset: U64, size: U64, count: U64, total: U64)
    ensures total < U64_MAX ==> (ViewFits(offset, size, count, total) <==> offset + size * count <= total)
    ensures total == U64_MAX ==> ViewFits(offset, size, count, total)
  {
    assert size * count >= 0;
  }
}
