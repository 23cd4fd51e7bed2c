/**
 Iteration over a mapping in chunks (`src/iterator.rs`): `ChunkIterator`,
 whose items are registered plain views or copies, and the callback-driven
 `ChunkIteratorMut`.
 */
module Chunks {
  import opened Ranges
  import opened Registry
  import Multiples
  import CopyOut

  // ----- the partition -----

  /** `[from, total)` cut into pieces of `size` bytes, the last one possibly shorter. */
  function Pieces(from: nat, total: nat, size: nat): seq<Range>
    decreases if from < total then total - from else 0
  {
    if size == 0 || from >= total then []
    else
      var end := from + Min(total - from, size);
      [Range(from, end)] + Pieces(end, total, size)
  }

  lemma DivCeilStep(a: nat, b: nat)
    requires 0 < b < a
    ensures Multiples.DivCeil(a, b) == Multiples.DivCeil(a - b, b) + 1
  {
    var q, r := (a - b) / b, (a - b) % b;
    assert a == (q + 1) * b + r;
    Multiples.DivModUnique(a, q + 1, r, b);
  }

  lemma DivCeilOne(a: nat, b: nat)
    requires 0 < a <= b
    ensures Multiples.DivCeil(a, b) == 1
  {
    if a < b {
      Multiples.DivModUnique(a, 0, a, b);
    } else {
      Multiples.DivModUnique(a, 1, 0, b);
    }
  }

  /** The number of pieces is the rounded-up quotient. */
  lemma {:induction false} PieceCount(from: nat, total: nat, size: nat)
    requires size > 0
    ensures |Pieces(from, total, size)| == Multiples.DivCeil(if from < total then total - from else 0, size)
    decreases if from < total then total - from else 0
  {
    if from >= total {
      Multiples.DivModUnique(0, 0, 0, size);
    } else if total - from <= size {
      DivCeilOne(total - from, size);
    } else {
      PieceCount(from + size, total, size);
      DivCeilStep(total - from, size);
    }
  }

  lemma PiecesLeft(from: nat, total: nat, size: nat)
    requires size > 0
    ensures Pieces(from, total, size) == [] <==> from >= total
  {
  }

  /** Pieces follow each other without gaps; only the last may be short, and none is empty. */
  lemma {:induction false} PiecesAdjoin(from: nat, total: nat, size: nat, k: nat)
    requires k < |Pieces(from, total, size)|
    ensures var p := Pieces(from, total, size);
            && p[k].start == (if k == 0 then from else p[k - 1].end)
            && from <= p[k].start < p[k].end <= total
            && (if k == |p| - 1 then p[k].end == total && p[k].end - p[k].start <= size
                else p[k].end - p[k].start == size)
    decreases k
  {
    var end := from + Min(total - from, size);
    if k == 0 {
      assert end < total ==> Pieces(end, total, size) != [];
    } else {
      PiecesAdjoin(end, total, size, k - 1);
    }
  }

  // ----- the shared iterator -----

  /** What an item holds: a borrow of a read-only mapping, a registered view, or a copy. */
  datatype Item =
    | Borrowed(range: Range, bytes: seq<Byte>)
    | Registered(range: Range, bytes: seq<Byte>)
    | Snapshot(range: Range, bytes: seq<Byte>)

  /** The item for one piece, given the atomic views alive when it is produced. */
  function ItemFor(bytes: seq<Byte>, locked: bool, views: seq<Entry>, range: Range): Item
    requires range.start <= range.end <= |bytes|
  {
    var part := bytes[range.start..range.end];
    if !locked then Borrowed(range, part)
    else if EntryClash(views, range) then Snapshot(range, part)
    else Registered(range, part)
  }

  /** One call of `next` from `offset`. */
  function Yield(bytes: seq<Byte>, locked: bool, size: nat, offset: nat, views: seq<Entry>): (nat, Option<Item>) {
    if size == 0 || offset >= |bytes| then (offset, None)
    else
      var end := offset + Min(|bytes| - offset, size);
      (end, Some(ItemFor(bytes, locked, views, Range(offset, end))))
  }

  lemma NoClashNoCover(views: seq<Entry>, range: Range, x: nat)
    requires !EntryClash(views, range) && Covers(range, x)
    ensures !CopyOut.Covered(views, x)
  {
    forall e | e in views ensures !Covers(e.range, x) {
      var j :| 0 <= j < |views| && views[j] == e;
      assert !Overlaps(views[j].range, range);
    }
  }

  /** Bytes under no view are the same at every access. */
  lemma LentIsStable(mem: CopyOut.History, views: seq<Entry>, total: nat, range: Range, n: nat)
    requires CopyOut.StableOutside(mem, views, total) && range.start <= range.end <= total
    requires !EntryClash(views, range)
    ensures mem(n)[range.start..range.end] == mem(0)[range.start..range.end]
  {
    var then', first := mem(n)[range.start..range.end], mem(0)[range.start..range.end];
    forall k | 0 <= k < |first| ensures then'[k] == first[k] {
      NoClashNoCover(views, range, range.start + k);
    }
  }

  class ChunkIterator {
    const totalLen: nat    // pinned by the iterator's read guard
    const locked: bool     // a mapping that can be written, as opposed to a read-only one
    const chunkSize: nat
    var currentOffset: nat

    constructor (totalLen: nat, locked: bool, chunkSize: nat)
      ensures currentOffset == 0
      ensures this.totalLen == totalLen && this.locked == locked && this.chunkSize == chunkSize
    {
      this.totalLen, this.locked, this.chunkSize := totalLen, locked, chunkSize;
      currentOffset := 0;
    }

    /**
     The next item, while stores go on. `views` are the atomic views alive at
     the registration and `mem` what is seen from then on while no view is
     created over a lent item; if the registration is refused, views may
     come and go before the copy, which sees `held` and `copied` (see
     `CopyOut`). A lent item's bytes stay as they are; a copy is a walk of
     the registry; and if nothing is stored the item is `Yield`'s.
     */
    method Next(mem: CopyOut.History, views: seq<Entry>, copied: CopyOut.History, held: seq<Entry>)
      returns (item: Option<Item>, log: CopyOut.Log)
      requires CopyOut.Admissible(views, totalLen) && CopyOut.StableOutside(mem, views, totalLen)
      requires CopyOut.Admissible(held, totalLen) && CopyOut.StableOutside(copied, held, totalLen)
      requires locked || views == []
      modifies this
      ensures var (offset, due) := Yield(mem(0), locked, chunkSize, old(currentOffset), views);
              && currentOffset == offset && item.Some? == due.Some?
              && (item.Some? ==>
                    && item.value.range == due.value.range
                    && item.value.Borrowed? == due.value.Borrowed? && item.value.Snapshot? == due.value.Snapshot?
                    && (if item.value.Snapshot? then
                          CopyOut.WalkedTo(copied, held, log, item.value.range.start, item.value.range.end,
                                           item.value.range.end, item.value.bytes)
                        else
                          forall n :: item.value.bytes == mem(n)[item.value.range.start..item.value.range.end]))
      ensures (forall n :: mem(n) == mem(0) && copied(n) == mem(0)) ==>
                (currentOffset, item) == Yield(mem(0), locked, chunkSize, old(currentOffset), views)
    {
      log := [];
      if chunkSize == 0 || currentOffset >= totalLen {
        return None, log;
      }
      var start := currentOffset;
      var end := start + Min(totalLen - start, chunkSize);
      currentOffset := end;
      var range := Range(start, end);
      var clashes := CopyOut.Overlapping(views, range);
      if !locked || clashes == [] {
        forall n ensures mem(n)[start..end] == mem(0)[start..end] {
          LentIsStable(mem, views, totalLen, range, n);
        }
        var lent := mem(0)[start..end];
        return Some(if locked then Registered(range, lent) else Borrowed(range, lent)), log;
      }
      assert clashes[0] in clashes;
      var copy := new Byte[end - start](_ => 0);
      log := CopyOut.CopyOut(copied, totalLen, held, start, copy);
      if forall n :: copied(n) == copied(0) {
        CopyOut.QuietCopyIsExact(copied, held, totalLen, log, start, end, copy[..]);
      }
      return Some(Snapshot(range, copy[..])), log;
    }

    method SizeHint() returns (n: nat)
      ensures n == |Pieces(currentOffset, totalLen, chunkSize)|
    {
      if chunkSize == 0 {
        return 0;
      }
      PieceCount(currentOffset, totalLen, chunkSize);
      var remaining := if currentOffset < totalLen then totalLen - currentOffset else 0;
      return Multiples.DivCeil(remaining, chunkSize);
    }
  }

  /** Calls of `next`, each with the atomic views alive at that time. */
  function OffsetAfter(bytes: seq<Byte>, locked: bool, size: nat, calls: seq<seq<Entry>>): nat {
    if calls == [] then 0
    else Yield(bytes, locked, size, OffsetAfter(bytes, locked, size, calls[..|calls| - 1]), calls[|calls| - 1]).0
  }

  function ItemsOf(bytes: seq<Byte>, locked: bool, size: nat, calls: seq<seq<Entry>>): seq<Item> {
    if calls == [] then []
    else
      var before, last := calls[..|calls| - 1], calls[|calls| - 1];
      var item := Yield(bytes, locked, size, OffsetAfter(bytes, locked, size, before), last).1;
      if item.Some? then ItemsOf(bytes, locked, size, before) + [item.value]
      else ItemsOf(bytes, locked, size, before)
  }

  /** All the bytes of the items, one item after the other. */
  function Joined(items: seq<Item>): seq<Byte> {
    if items == [] then [] else Joined(items[..|items| - 1]) + items[|items| - 1].bytes
  }

  /** One call takes the first of the pieces that are left. */
  lemma YieldTakesPiece(bytes: seq<Byte>, locked: bool, size: nat, offset: nat, views: seq<Entry>)
    requires offset <= |bytes|
    ensures var (end, item) := Yield(bytes, locked, size, offset, views);
            && offset <= end <= |bytes|
            && |Pieces(offset, |bytes|, size)| == |Pieces(end, |bytes|, size)| + (if item.Some? then 1 else 0)
            && (item.None? ==> end == offset && Pieces(offset, |bytes|, size) == [])
            && (item.Some? ==> Pieces(offset, |bytes|, size) == [item.value.range] + Pieces(end, |bytes|, size))
            && (item.Some? ==> item.value.range == Range(offset, end) && item.value.bytes == bytes[offset..end])
            && (item.Some? ==> bytes[..offset] + item.value.bytes == bytes[..end])
  {
  }

  /**
   Whatever atomic views come and go between the calls, the items so far
   are the first pieces of the mapping: together they are its bytes up to
   the offset, and `size_hint` is what is left of the fixed total.
   */
  lemma {:induction false} ItemsPartition(bytes: seq<Byte>, locked: bool, size: nat, calls: seq<seq<Entry>>)
    ensures var items, offset := ItemsOf(bytes, locked, size, calls), OffsetAfter(bytes, locked, size, calls);
            && offset <= |bytes|
            && Joined(items) == bytes[..offset]
            && |items| + |Pieces(offset, |bytes|, size)| == |Pieces(0, |bytes|, size)|
            && |items| == Min(|calls|, |Pieces(0, |bytes|, size)|)
  {
    if calls != [] {
      var before, last := calls[..|calls| - 1], calls[|calls| - 1];
      ItemsPartition(bytes, locked, size, before);
      var items, offset := ItemsOf(bytes, locked, size, before), OffsetAfter(bytes, locked, size, before);
      YieldTakesPiece(bytes, locked, size, offset, last);
      var item := Yield(bytes, locked, size, offset, last).1;
      if item.Some? {
        assert (items + [item.value])[..|items|] == items;
      }
    }
  }

  /** Enough calls give the whole mapping, in order, and then nothing more. */
  lemma IterationIsComplete(bytes: seq<Byte>, locked: bool, size: nat, calls: seq<seq<Entry>>)
    requires size > 0 && |calls| >= Multiples.DivCeil(|bytes|, size)
    ensures Joined(ItemsOf(bytes, locked, size, calls)) == bytes
    ensures |ItemsOf(bytes, locked, size, calls)| == Multiples.DivCeil(|bytes|, size)
    ensures forall views :: Yield(bytes, locked, size, OffsetAfter(bytes, locked, size, calls), views).1 == None
  {
    ItemsPartition(bytes, locked, size, calls);
    PieceCount(0, |bytes|, size);
    var offset := OffsetAfter(bytes, locked, size, calls);
    PieceCount(offset, |bytes|, size);
    PiecesLeft(offset, |bytes|, size);
  }

  /** Each item is the piece that is due, with the mapping's bytes there. */
  lemma {:induction false} ItemsArePieces(bytes: seq<Byte>, locked: bool, size: nat, calls: seq<seq<Entry>>, k: nat)
    requires k < |ItemsOf(bytes, locked, size, calls)|
    ensures var item, pieces := ItemsOf(bytes, locked, size, calls)[k], Pieces(0, |bytes|, size);
            && k < |pieces| && item.range == pieces[k]
            && item.range.start <= item.range.end <= |bytes|
            && item.bytes == bytes[item.range.start..item.range.end]
  {
    var before, last := calls[..|calls| - 1], calls[|calls| - 1];
    var items, offset := ItemsOf(bytes, locked, size, before), OffsetAfter(bytes, locked, size, before);
    if k < |items| {
      ItemsArePieces(bytes, locked, size, before, k);
    } else {
      ItemsPartition(bytes, locked, size, before);
      TakenPieces(bytes, locked, size, before);
    }
  }

  /** The pieces left after some calls are the last ones of the partition. */
  lemma {:induction false} TakenPieces(bytes: seq<Byte>, locked: bool, size: nat, calls: seq<seq<Entry>>)
    ensures var n, offset := |ItemsOf(bytes, locked, size, calls)|, OffsetAfter(bytes, locked, size, calls);
            n <= |Pieces(0, |bytes|, size)| && Pieces(0, |bytes|, size)[n..] == Pieces(offset, |bytes|, size)
  {
    if calls != [] {
      var before, last := calls[..|calls| - 1], calls[|calls| - 1];
      TakenPieces(bytes, locked, size, before);
      ItemsPartition(bytes, locked, size, before);
      YieldTakesPiece(bytes, locked, size, OffsetAfter(bytes, locked, size, before), last);
    }
  }

  /**
   An item of a read-only mapping is a borrow; one of a writable mapping is
   a copy exactly if a live atomic view shares a byte with it.
   */
  lemma RegisteredOrCopied(bytes: seq<Byte>, locked: bool, size: nat, offset: nat, views: seq<Entry>)
    requires size > 0 && offset < |bytes| && CopyOut.Admissible(views, |bytes|)
    ensures var item := Yield(bytes, locked, size, offset, views).1;
            && item.Some? && (item.value.Borrowed? <==> !locked)
            && (item.value.Snapshot? <==>
                  locked && exists x: nat :: Covers(item.value.range, x) && CopyOut.Covered(views, x))
  {
    var range := Range(offset, offset + Min(|bytes| - offset, size));
    forall e | e in views
      ensures Overlaps(e.range, range) <==> exists x :: Covers(e.range, x) && Covers(range, x)
    {
      assert CopyOut.WellPlaced(e, |bytes|);
      OverlapsIffSharesByte(e.range, range);
    }
    if EntryClash(views, range) {
      var j :| 0 <= j < |views| && Overlaps(views[j].range, range);
      assert views[j] in views;
      var x :| Covers(views[j].range, x) && Covers(range, x);
      assert CopyOut.Covered(views, x);
    }
    if x: nat :| Covers(range, x) && CopyOut.Covered(views, x) {
      var e :| e in views && Covers(e.range, x);
      var j :| 0 <= j < |views| && views[j] == e;
      assert Overlaps(views[j].range, range);
    }
  }

  // ----- the mutable iterator -----

  /**
   The caller's closure: the bytes it leaves in the chunk at `offset`, and
   whether it returns an error. The first argument counts the calls, so
   the closure may depend on what it did before.
   */
  type Closure = (nat, nat, seq<Byte>) -> (seq<Byte>, bool)

  /** A closure cannot change the length of the slice it is lent. */
  ghost predicate KeepsLength(f: Closure) {
    forall n, offset, chunk :: |f(n, offset, chunk).0| == |chunk|
  }

  datatype Driven = Refused | Completed | Stopped

  /** Chunk `range` went to the `n`-th call of `f` as it was, and holds what the call left there. */
  predicate HandedOut(f: Closure, n: nat, range: Range, before: seq<Byte>, after: seq<Byte>)
    requires range.start <= range.end <= |before| == |after|
  {
    after[range.start..range.end] == f(n, range.start, before[range.start..range.end]).0
  }

  predicate Errs(f: Closure, n: nat, range: Range, before: seq<Byte>)
    requires range.start <= range.end <= |before|
  {
    f(n, range.start, before[range.start..range.end]).1
  }

  function HandedTo(chunks: seq<Range>): nat {
    if chunks == [] then 0 else chunks[|chunks| - 1].end
  }

  /** The first chunks are handed out; the rest of the bytes are as before. */
  ghost predicate Progress(f: Closure, chunks: seq<Range>, offset: nat, before: seq<Byte>, after: seq<Byte>) {
    && |before| == |after| && offset <= |before| && after[offset..] == before[offset..]
    && forall n :: 0 <= n < |chunks| ==>
         chunks[n].start <= chunks[n].end <= offset && HandedOut(f, n, chunks[n], before, after)
  }

  /** None of the calls returned an error. */
  ghost predicate NoErrors(f: Closure, chunks: seq<Range>, before: seq<Byte>) {
    forall n :: 0 <= n < |chunks| ==>
      chunks[n].start <= chunks[n].end <= |before| && !Errs(f, n, chunks[n], before)
  }

  /** The last call returned an error, and none before it. */
  ghost predicate OnlyLastErrs(f: Closure, chunks: seq<Range>, before: seq<Byte>) {
    && chunks != [] && NoErrors(f, chunks[..|chunks| - 1], before)
    && var last := chunks[|chunks| - 1];
    && last.start <= last.end <= |before| && Errs(f, |chunks| - 1, last, before)
  }

  /** The loop has handed out `chunks` without an error and has the pieces from `offset` on to go. */
  ghost predicate DriveAt(f: Closure, size: nat, chunks: seq<Range>, offset: nat, before: seq<Byte>, now: seq<Byte>) {
    && offset == HandedTo(chunks)
    && Pieces(0, |before|, size) == chunks + Pieces(offset, |before|, size)
    && Progress(f, chunks, offset, before, now)
    && NoErrors(f, chunks, before)
  }

  /** What `drive` promises: pieces in order, all of them or up to and with the first error. */
  ghost predicate DriveEnds(f: Closure, size: nat, chunks: seq<Range>, outcome: Driven,
                            before: seq<Byte>, after: seq<Byte>) {
    && chunks <= Pieces(0, |before|, size)
    && Progress(f, chunks, HandedTo(chunks), before, after)
    && match outcome
       case Refused => chunks == []
       case Completed => chunks == Pieces(0, |before|, size) && NoErrors(f, chunks, before)
       case Stopped => OnlyLastErrs(f, chunks, before)
  }

  lemma ProgressStep(f: Closure, chunks: seq<Range>, offset: nat, end: nat,
                     before: seq<Byte>, now: seq<Byte>, after: seq<Byte>)
    requires KeepsLength(f) && Progress(f, chunks, offset, before, now) && offset <= end <= |before| == |after|
    requires after[..offset] == now[..offset] && after[end..] == now[end..]
    requires after[offset..end] == f(|chunks|, offset, now[offset..end]).0
    ensures Progress(f, chunks + [Range(offset, end)], end, before, after)
    ensures now[offset..end] == before[offset..end]
  {
    assert now[offset..end] == now[offset..][..end - offset];
    assert before[offset..end] == before[offset..][..end - offset];
    assert after[end..] == before[end..] by {
      assert now[end..] == now[offset..][end - offset..];
      assert before[end..] == before[offset..][end - offset..];
    }
    forall n | 0 <= n < |chunks| ensures HandedOut(f, n, chunks[n], before, after) {
      assert HandedOut(f, n, chunks[n], before, now);
      assert after[chunks[n].start..chunks[n].end] == after[..offset][chunks[n].start..chunks[n].end];
      assert now[chunks[n].start..chunks[n].end] == now[..offset][chunks[n].start..chunks[n].end];
    }
  }

  lemma DriveStep(f: Closure, size: nat, chunks: seq<Range>, offset: nat, end: nat,
                  before: seq<Byte>, now: seq<Byte>, after: seq<Byte>)
    requires KeepsLength(f) && DriveAt(f, size, chunks, offset, before, now)
    requires size > 0 && offset < |before| == |after| && end == offset + Min(|before| - offset, size)
    requires after[..offset] == now[..offset] && after[end..] == now[end..]
    requires after[offset..end] == f(|chunks|, offset, now[offset..end]).0
    ensures var more := chunks + [Range(offset, end)];
            if f(|chunks|, offset, now[offset..end]).1 then DriveEnds(f, size, more, Stopped, before, after)
            else DriveAt(f, size, more, end, before, after)
  {
    ProgressStep(f, chunks, offset, end, before, now, after);
    var more := chunks + [Range(offset, end)];
    assert chunks + ([Range(offset, end)] + Pieces(end, |before|, size)) == more + Pieces(end, |before|, size);
    assert more[..|chunks|] == chunks;
  }

  lemma DriveDone(f: Closure, size: nat, chunks: seq<Range>, offset: nat, before: seq<Byte>, now: seq<Byte>)
    requires DriveAt(f, size, chunks, offset, before, now) && offset >= |before|
    ensures DriveEnds(f, size, chunks, Completed, before, now)
  {
  }

  class ChunkIteratorMut {
    const mem: array<Byte>   // the mapped bytes, under the write guard
    const writable: bool
    const tracked: bool      // writes count as pending, unless the pages are private
    const chunkSize: nat
    var pending: nat

    constructor (mem: array<Byte>, writable: bool, tracked: bool, chunkSize: nat)
      ensures this.mem == mem && this.writable == writable && this.tracked == tracked
      ensures this.chunkSize == chunkSize && pending == 0
    {
      this.mem, this.writable, this.tracked, this.chunkSize := mem, writable, tracked, chunkSize;
      pending := 0;
    }

    /** One call of the closure on the next chunk of the mapping. */
    method HandOut(f: Closure, n: nat, start: nat, end: nat, ghost chunks: seq<Range>, ghost before: seq<Byte>)
      returns (failed: bool)
      requires KeepsLength(f) && n == |chunks| && DriveAt(f, chunkSize, chunks, start, before, mem[..])
      requires chunkSize > 0 && start < mem.Length && end == start + Min(mem.Length - start, chunkSize)
      modifies mem
      ensures var more := chunks + [Range(start, end)];
              if failed then DriveEnds(f, chunkSize, more, Stopped, before, mem[..])
              else DriveAt(f, chunkSize, more, end, before, mem[..])
    {
      ghost var now := mem[..];
      var (chunk, err) := f(n, start, mem[start..end]);
      assert |f(n, start, now[start..end]).0| == end - start;
      forall k | 0 <= k < |chunk| {
        mem[start + k] := chunk[k];
      }
      assert mem[..][start..end] == chunk;
      DriveStep(f, chunkSize, chunks, start, end, before, now, mem[..]);
      return err;
    }

    /**
     Hands the pieces of the mapping to the closure in order, up to the
     first error, and records exactly the bytes handed out.
     */
    method Drive(f: Closure) returns (outcome: Driven, ghost chunks: seq<Range>)
      requires KeepsLength(f)
      modifies this, mem
      ensures outcome.Refused? <==> !writable
      ensures DriveEnds(f, chunkSize, chunks, outcome, old(mem[..]), mem[..])
      ensures pending == old(pending) + if tracked then HandedTo(chunks) else 0
    {
      chunks := [];
      if !writable {
        return Refused, chunks;
      }
      if chunkSize == 0 {
        return Completed, chunks;
      }
      ghost var before := mem[..];
      var total, offset, n := mem.Length, 0, 0;
      outcome := Completed;
      while offset < total
        invariant n == |chunks| && outcome == Completed && pending == old(pending)
        invariant DriveAt(f, chunkSize, chunks, offset, before, mem[..])
      {
        var end := offset + Min(total - offset, chunkSize);
        var failed := HandOut(f, n, offset, end, chunks, before);
        chunks, n, offset := chunks + [Range(offset, end)], n + 1, end;
        if failed {
          outcome := Stopped;
          break;
        }
      }
      if outcome.Completed? {
        DriveDone(f, chunkSize, chunks, offset, before, mem[..]);
      }
      if tracked {
        pending := pending + offset;
      }
    }
  }

  /** The lengths of the chunks handed out. */
  function Lengths(chunks: seq<Range>): int {
    if chunks == [] then 0
    else Lengths(chunks[..|chunks| - 1]) + (chunks[|chunks| - 1].end - chunks[|chunks| - 1].start)
  }

  /** So the amount recorded is the sum of the lengths of the chunks handed out. */
  lemma {:induction false} RecordedIsHandedOut(chunks: seq<Range>, total: nat, size: nat)
    requires chunks <= Pieces(0, total, size)
    ensures Lengths(chunks) == if chunks == [] then 0 else chunks[|chunks| - 1].end
  {
    if chunks != [] {
      var before := chunks[..|chunks| - 1];
      RecordedIsHandedOut(before, total, size);
      PiecesAdjoin(0, total, size, |chunks| - 1);
      assert chunks[|chunks| - 1] == Pieces(0, total, size)[|chunks| - 1];
      assert |chunks| > 1 ==> chunks[|chunks| - 2] == Pieces(0, total, size)[|chunks| - 2];
    }
  }
}
