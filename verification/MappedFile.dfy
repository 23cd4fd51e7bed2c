/**
 A file mapping used by one thread (`src/mmap.rs`, `src/segment.rs`):
 reads, updates, mutable slices, segments and resizes, in place, against
 operations on a sequence of bytes.

 The mapping is the `ResizableFile` of `Resizing`; OS calls, and the
 write-back of a flush, succeed or fail as the caller's arguments say.
 */
module MappedFiles {
  import opened Ranges
  import opened Bounds
  import opened Registry
  import opened Resizing
  import CopyOut
  import FlushLedger

  /** A bookmark: `Segment` and `SegmentMut` hold no bytes. */
  datatype Segment = Segment(offset: U64, len: U64)

  /** Does the flush policy ask for a flush after an update, and does it succeed? */
  datatype Flush = NotDue | Succeeds | Fails

  datatype Call =
    | Read(offset: U64, len: U64)
    | Update(offset: U64, data: Bytes, flush: Flush)
    | Fill(offset: U64, data: Bytes)                           // as_slice_mut, and the write through it
    | WriteSegment(segment: Segment, data: Bytes, flush: Flush)
    | ResizeTo(newSize: U64, works: bool)                      // do the OS calls succeed?

  // ----- the reference: operations on a sequence of bytes -----

  /** Writes `data` at `offset` if all of `[offset, offset + span)` lies inside. */
  function WriteAt(bytes: seq<Byte>, offset: nat, data: seq<Byte>, span: nat, flush: Flush)
    : (seq<Byte>, Result<seq<Byte>>)
  {
    if offset + span > |bytes| then (bytes, Err(OutOfBounds(offset, span, |bytes|)))
    else (Put(bytes, offset, data), if flush.Fails? then Err(FlushFailed) else Ok([]))
  }

  /** What a call does to the bytes, and its answer, in unbounded arithmetic. */
  function Reference(bytes: seq<Byte>, writable: bool, call: Call): (seq<Byte>, Result<seq<Byte>>) {
    match call
    case Read(offset, len) =>
      (bytes,
       if len == 0 then Ok([])
       else if offset + len <= |bytes| then Ok(bytes[offset..offset + len])
       else Err(OutOfBounds(offset, len, |bytes|)))
    case Update(offset, data, flush) =>
      if data == [] then (bytes, Ok([]))
      else if !writable then (bytes, Err(InvalidMode))
      else WriteAt(bytes, offset, data, |data|, flush)
    case Fill(offset, data) =>
      if !writable then (bytes, Err(InvalidMode))
      else if data == [] then (bytes, Ok([]))
      else WriteAt(bytes, offset, data, |data|, NotDue)
    case WriteSegment(segment, data, flush) =>
      if |data| > segment.len then (bytes, Err(OutOfBounds(0, |data|, segment.len)))
      else if data == [] then (bytes, Ok([]))
      else if !writable then (bytes, Err(InvalidMode))
      else WriteAt(bytes, segment.offset, data, segment.len, flush)
    case ResizeTo(newSize, works) =>
      if !writable then (bytes, Err(InvalidMode))
      else if newSize == 0 || newSize > MAX_MMAP_SIZE then (bytes, Err(ResizeFailed))
      else if newSize != |bytes| && !works then (bytes, Err(Io))
      else (Resized(bytes, newSize), Ok([]))
  }

  function Answer(error: Option<Error>): Result<seq<Byte>> {
    if error.None? then Ok([]) else Err(error.value)
  }

  /** A write inside the mapping is a write to its contents, and leaves the rest of the file. */
  lemma PutInside(d: Disk, at: nat, data: seq<Byte>)
    requires d.Valid() && at + |data| <= d.mapLen
    ensures var d' := d.(file := Put(d.file, at, data));
            d'.Valid() && d'.Contents() == Put(d.Contents(), at, data) && (d.TailIsZero() ==> d'.TailIsZero())
  {
    var file, n := d.file, d.mapLen;
    assert Put(file, at, data)[..n] == Put(file[..n], at, data);
    assert forall k :: n <= k < |file| ==> Put(file, at, data)[k] == file[k];
  }

  lemma PutNothing(bytes: seq<Byte>)
    ensures Put(bytes, 0, []) == bytes
  {
  }

  lemma SliceOfContents(d: Disk, from: nat, to: nat)
    requires d.Valid() && from <= to <= d.mapLen
    ensures d.file[from..to] == d.Contents()[from..to]
  {
    var part, whole := d.file[from..to], d.Contents();
    assert |part| == |whole[from..to]|;
    assert forall k :: 0 <= k < |part| ==> part[k] == whole[from..to][k];
  }

  /** The OS calls that a resize needs succeed. */
  predicate Works(os: Os, windows: bool, len: nat, newSize: nat) {
    os.setLen && os.mapped && (windows && newSize < len ==> os.anon)
  }

  /** The file and the mapping follow the reference, whatever calls fail, unless a view is lost. */
  lemma ResizeFollowsReference(d: Disk, newSize: U64, windows: bool, os: Os)
    requires d.Valid() && d.TailIsZero() && !LosesView(d, newSize, windows, os)
    ensures var (d', error) := ResizeDisk(d, newSize, windows, os);
            && d'.Valid() && d'.TailIsZero()
            && (d'.Contents(), Answer(error)) ==
               Reference(d.Contents(), true, ResizeTo(newSize, Works(os, windows, d.mapLen, newSize)))
  {
    ResizeKeepsValid(d, newSize, windows, os);
    TailStaysZero(d, newSize, windows, os);
    if ResizeDisk(d, newSize, windows, os).1.None? {
      GrowsByZerosIff(d, newSize, windows, os);
    } else {
      ErrorKeepsContents(d, newSize, windows, os);
    }
  }

  lemma ResizeStaysBounded(d: Disk, newSize: U64, windows: bool, os: Os)
    requires d.Valid() && d.mapLen <= MAX_LEN
    ensures ResizeDisk(d, newSize, windows, os).0.mapLen <= MAX_LEN
  {
  }

  /** The flush of an update after which the counters stand at these values. */
  ghost function FlushAfter(policy: FlushLedger.Policy, pending: nat, writes: nat, syncs: bool): Flush {
    if !FlushLedger.AtLimit(policy, pending, writes) then NotDue
    else if syncs then Succeeds
    else Fails
  }

  /** What an answer and the counters tell of an update that has written `written` bytes. */
  ghost predicate UpdateCounted(policy: FlushLedger.Policy, written: nat, syncs: bool, error: Option<Error>,
                                pending: nat, writes: nat, pending': nat, writes': nat)
  {
    var due := FlushLedger.AtLimit(policy, pending + written, writes + 1);
    && (error.None? || error == Some(FlushFailed))
    && (error.Some? <==> due && !syncs)
    && (if due && syncs then pending' == 0 && writes' == 0
        else pending' == pending + written && writes' == writes + 1)
  }

  // ----- the mapping -----

  class MappedFile {
    const store: ResizableFile
    const writable: bool
    const policy: FlushLedger.Policy
    var pending: nat   // written_since_last_flush
    var writes: nat    // writes_since_last_flush

    ghost predicate Valid()
      reads this, store
    {
      store.Valid() && store.mapLen <= MAX_LEN
    }

    /** Past the mapping the file holds nothing but zeros. */
    ghost predicate Tidy()
      reads this, store
    {
      store.Model().TailIsZero()
    }

    ghost function Contents(): seq<Byte>
      reads this, store
      requires Valid()
    {
      store.Model().Contents()
    }

    /**
     An update of non-empty `data` at `offset`, of which `[offset, offset +
     span)` must fit: it succeeds, or fails only in its flush, exactly if the
     mapping is writable and the span fits; then the data is in place and
     counted. Else nothing has changed, and the error says why.
     */
    ghost predicate Updates(before: seq<Byte>, offset: nat, data: seq<Byte>, span: nat, syncs: bool,
                            error: Option<Error>, pending0: nat, writes0: nat)
      reads this, store
      requires Valid()
    {
      if writable && offset + span <= |before| then
        && Overwritten(before, Contents(), offset, data)
        && UpdateCounted(policy, |data|, syncs, error, pending0, writes0, pending, writes)
      else
        && Contents() == before && pending == pending0 && writes == writes0
        && error == Some(if !writable then InvalidMode else OutOfBounds(offset, span, |before|))
    }

    constructor (bytes: Bytes, writable: bool, windows: bool, policy: FlushLedger.Policy)
      ensures Valid() && Tidy() && fresh(store) && store.windows == windows
      ensures Contents() == bytes && this.writable == writable && this.policy == policy
      ensures pending == 0 && writes == 0
    {
      var created := new ResizableFile(bytes, windows);
      store := created;
      this.writable, this.policy := writable, policy;
      pending, writes := 0, 0;
    }

    /**
     Copies into `buf` while stores go through the live atomic views
     `views`: `mem` is what each access of the copy sees (see `CopyOut`). If
     nothing is stored meanwhile the bytes are the mapping's.
     */
    method ReadInto(mem: CopyOut.History, views: seq<Entry>, offset: U64, buf: array<Byte>)
      returns (error: Option<Error>, log: CopyOut.Log)
      requires Valid() && buf.Length < U64_LIMIT && (writable || views == [])
      requires CopyOut.Admissible(views, store.mapLen) && CopyOut.StableOutside(mem, views, store.mapLen)
      requires mem(0) == Contents()
      modifies buf
      ensures error == if buf.Length == 0 || offset + buf.Length <= |mem(0)| then None
                       else Some(OutOfBounds(offset, buf.Length, |mem(0)|))
      ensures error.Some? ==> buf[..] == old(buf[..])
      ensures error.None? && buf.Length > 0 ==>
                CopyOut.WalkedTo(mem, views, log, offset, offset + buf.Length, offset + buf.Length, buf[..])
      ensures error.None? && (forall n :: mem(n) == mem(0)) ==>
                Ok(buf[..]) == Reference(mem(0), writable, Read(offset, buf.Length)).1
    {
      log := [];
      if buf.Length == 0 {
        assert buf[..] == [];
        return None, log;
      }
      var range := SliceRange(offset, buf.Length, store.mapLen);
      SliceRangeExact(offset, buf.Length, store.mapLen, U64_MAX);
      if range.Err? {
        return Some(range.error), log;
      }
      var start, end := range.value.start, range.value.end;
      if writable {
        log := CopyOut.CopyOut(mem, store.mapLen, views, start, buf);
      } else {
        CopyOut.WalkBegins(mem, views, start, end, buf[..]);
        log := CopyOut.CopyGap(mem, store.mapLen, views, log, start, start, end, end, buf);
      }
      if forall n :: mem(n) == mem(0) {
        CopyOut.QuietCopyIsExact(mem, views, store.mapLen, log, start, end, buf[..]);
      }
      return None, log;
    }

    /** `views` are the live atomic views. */
    method AsSlice(views: seq<Entry>, offset: U64, len: U64) returns (r: Result<seq<Byte>>)
      requires Valid()
      ensures r == if writable && len > 0 && offset + len <= |Contents()|
                      && EntryClash(views, Range(offset, offset + len)) then
                     Err(InvalidMode)
                   else
                     Reference(Contents(), writable, Read(offset, len)).1
    {
      if len == 0 {
        return Ok([]);
      }
      var range := SliceRange(offset, len, store.mapLen);
      SliceRangeExact(offset, len, store.mapLen, U64_MAX);
      if range.Err? {
        return Err(range.error);
      }
      var clashes := CopyOut.Overlapping(views, range.value);
      if writable && clashes != [] {
        assert clashes[0] in clashes;
        return Err(InvalidMode);
      }
      SliceOfContents(store.Model(), offset, offset + len);
      return Ok(store.file[range.value.start..range.value.end]);
    }

    /** Counts one update and flushes if the policy asks; `syncs` is the result of the write-back. */
    method ApplyFlushPolicy(written: nat, syncs: bool) returns (flush: Flush)
      requires written > 0
      modifies `pending, `writes
      ensures flush == FlushAfter(policy, old(pending) + written, old(writes) + 1, syncs)
      ensures (pending, writes) == if flush.Succeeds? then (0, 0) else (old(pending) + written, old(writes) + 1)
    {
      pending := pending + written;
      writes := writes + 1;
      if !FlushLedger.AsksFlush(policy, pending, writes) {
        return NotDue;
      }
      var bytes, updates := pending, writes;
      pending, writes := 0, 0;
      if !syncs {
        pending := pending + bytes;
        writes := writes + updates;
        return Fails;
      }
      return Succeeds;
    }

    /** The copy into the mapped bytes, under the write guard. */
    method Store(at: nat, data: seq<Byte>)
      requires Valid() && at + |data| <= store.mapLen
      modifies store`file
      ensures Valid() && (old(Tidy()) ==> Tidy())
      ensures Contents() == Put(old(Contents()), at, data)
    {
      PutInside(store.Model(), at, data);
      store.file := store.file[..at] + data + store.file[at + |data|..];
    }

    /** `update_region_within`: `span` is checked, `data` is written. */
    method UpdateWithin(offset: U64, data: Bytes, span: U64, syncs: bool) returns (error: Option<Error>)
      requires Valid() && 0 < |data| <= span
      modifies this, store
      ensures Valid() && (old(Tidy()) ==> Tidy())
      ensures Updates(old(Contents()), offset, data, span, syncs, error, old(pending), old(writes))
      ensures (Contents(), Answer(error)) ==
              if !writable then (old(Contents()), Err(InvalidMode))
              else WriteAt(old(Contents()), offset, data, span,
                           FlushAfter(policy, old(pending) + |data|, old(writes) + 1, syncs))
    {
      if !writable {
        return Some(InvalidMode);
      }
      var range := SliceRange(offset, span, store.mapLen);
      SliceRangeExact(offset, span, store.mapLen, U64_MAX);
      if range.Err? {
        return Some(range.error);
      }
      Store(range.value.start, data);
      PutOverwrites(old(Contents()), offset, data);
      var flush := ApplyFlushPolicy(|data|, syncs);
      return if flush.Fails? then Some(FlushFailed) else None;
    }

    method UpdateRegion(offset: U64, data: Bytes, syncs: bool) returns (error: Option<Error>)
      requires Valid()
      modifies this, store
      ensures Valid() && (old(Tidy()) ==> Tidy())
      ensures if data == [] then
                error.None? && Contents() == old(Contents()) && pending == old(pending) && writes == old(writes)
              else
                Updates(old(Contents()), offset, data, |data|, syncs, error, old(pending), old(writes))
      ensures policy.Never? ==> error != Some(FlushFailed) && (error.None? ==> pending == old(pending) + |data|)
      ensures var flush := FlushAfter(policy, old(pending) + |data|, old(writes) + 1, syncs);
              (Contents(), Answer(error)) == Reference(old(Contents()), writable, Update(offset, data, flush))
    {
      if data == [] {
        return None;
      }
      error := UpdateWithin(offset, data, |data|, syncs);
    }

    /** The range a mutable slice lends. */
    method AsSliceMut(offset: U64, len: U64) returns (r: Result<Range>)
      requires Valid()
      ensures !writable ==> r == Err(InvalidMode)
      ensures writable && len == 0 ==> r == Ok(Range(0, 0))
      ensures writable && len > 0 ==>
                r == if offset + len <= |Contents()| then Ok(Range(offset, offset + len))
                     else Err(OutOfBounds(offset, len, |Contents()|))
    {
      if !writable {
        return Err(InvalidMode);
      }
      r := if len == 0 then Ok(Range(0, 0)) else SliceRange(offset, len, store.mapLen);
    }

    /** A mutable slice whose holder overwrites it with `data`; its drop counts the bytes. */
    method FillSlice(offset: U64, data: Bytes) returns (error: Option<Error>)
      requires Valid()
      modifies `pending, store
      ensures Valid() && (old(Tidy()) ==> Tidy())
      ensures (Contents(), Answer(error)) == Reference(old(Contents()), writable, Fill(offset, data))
      ensures if writable && (data == [] || offset + |data| <= |old(Contents())|) then
                error.None? && Overwritten(old(Contents()), Contents(), offset, data)
              else
                && Contents() == old(Contents())
                && error == Some(if !writable then InvalidMode else OutOfBounds(offset, |data|, |old(Contents())|))
      ensures pending == old(pending) + if error.None? then |data| else 0
    {
      var slice := AsSliceMut(offset, |data|);
      if slice.Err? {
        return Some(slice.error);
      }
      PutNothing(Contents());
      PutOverwrites(Contents(), slice.value.start, data);
      Store(slice.value.start, data);
      pending := pending + (slice.value.end - slice.value.start);
      return None;
    }

    /** `validate_segment`, against the cached length. */
    method ValidateSegment(segment: Segment) returns (error: Option<Error>)
      requires Valid()
      ensures error == if segment.len == 0 || segment.offset + segment.len <= |Contents()| then None
                       else Some(OutOfBounds(segment.offset, segment.len, |Contents()|))
      ensures error.None? <==> Reference(Contents(), writable, Read(segment.offset, segment.len)).1.Ok?
    {
      if segment.len == 0 {
        return None;
      }
      var range := SliceRange(segment.offset, segment.len, store.cachedLen);
      return if range.Ok? then None else Some(range.error);
    }

    method SegmentWrite(segment: Segment, data: Bytes, syncs: bool) returns (error: Option<Error>)
      requires Valid()
      modifies this, store
      ensures Valid() && (old(Tidy()) ==> Tidy())
      ensures if |data| > segment.len then
                && error == Some(OutOfBounds(0, |data|, segment.len))
                && Contents() == old(Contents()) && pending == old(pending) && writes == old(writes)
              else if data == [] then
                error.None? && Contents() == old(Contents()) && pending == old(pending) && writes == old(writes)
              else
                Updates(old(Contents()), segment.offset, data, segment.len, syncs, error, old(pending), old(writes))
      ensures var flush := FlushAfter(policy, old(pending) + |data|, old(writes) + 1, syncs);
              (Contents(), Answer(error)) == Reference(old(Contents()), writable, WriteSegment(segment, data, flush))
    {
      if |data| > segment.len {
        return Some(OutOfBounds(0, |data|, segment.len));
      }
      if data == [] {
        return None;
      }
      error := UpdateWithin(segment.offset, data, segment.len, syncs);
    }

    /** Both variants: where no view is lost the bytes follow the reference, else the mapping is empty. */
    method Resize(newSize: U64, os: Os) returns (error: Option<Error>)
      requires Valid()
      modifies store
      ensures Valid()
      ensures !writable ==> error == Some(InvalidMode) && store.Model() == old(store.Model())
      ensures writable ==> (store.Model(), error) == ResizeDisk(old(store.Model()), newSize, store.windows, os)
      ensures var lost := writable && LosesView(old(store.Model()), newSize, store.windows, os);
              && (lost ==> Contents() == [] && error == Some(Io))
              && (!lost && old(Tidy()) ==>
                    && Tidy()
                    && (Contents(), Answer(error)) ==
                       Reference(old(Contents()), writable,
                                 ResizeTo(newSize, Works(os, store.windows, |old(Contents())|, newSize))))
    {
      if !writable {
        return Some(InvalidMode);
      }
      ghost var d := store.Model();
      ResizeStaysBounded(d, newSize, store.windows, os);
      ErrorKeepsContents(d, newSize, store.windows, os);
      if !LosesView(d, newSize, store.windows, os) && d.TailIsZero() {
        ResizeFollowsReference(d, newSize, store.windows, os);
      }
      error := store.Resize(newSize, os);
    }
  }

  // ----- runs of calls -----

  function After(bytes: seq<Byte>, writable: bool, calls: seq<Call>): seq<Byte> {
    if calls == [] then bytes
    else Reference(After(bytes, writable, calls[..|calls| - 1]), writable, calls[|calls| - 1]).0
  }

  /** The bytes a call writes, were it alone to decide: offset, data, and the span that must fit. */
  datatype Patch = Patch(offset: nat, data: seq<Byte>, span: nat)

  function PatchOf(call: Call): Option<Patch> {
    match call
    case Update(offset, data, _) => Some(Patch(offset, data, |data|))
    case Fill(offset, data) => Some(Patch(offset, data, |data|))
    case WriteSegment(segment, data, _) =>
      if |data| <= segment.len then Some(Patch(segment.offset, data, segment.len)) else None
    case _ => None
  }

  /** The size a resize request gives the mapping, unless it is refused or fails. */
  function NewSize(call: Call, len: nat): nat {
    if call.ResizeTo? && 0 < call.newSize <= MAX_MMAP_SIZE && call.works then call.newSize
    else len
  }

  /** The length after the calls, from the resizes alone. */
  function LengthAfter(len: nat, writable: bool, calls: seq<Call>): nat {
    if calls == [] || !writable then len
    else NewSize(calls[|calls| - 1], LengthAfter(len, writable, calls[..|calls| - 1]))
  }

  predicate Writes(call: Call, len: nat, x: nat) {
    var patch := PatchOf(call);
    patch.Some? && patch.value.offset + patch.value.span <= len
    && patch.value.offset <= x < patch.value.offset + |patch.value.data|
  }

  /**
   The value of byte `x` after the calls, found by going back from the
   last call to the first that decides it: the last write over it, or the
   resize that added it, or the initial contents.
   */
  function LastValue(bytes: seq<Byte>, writable: bool, calls: seq<Call>, x: nat): Byte {
    if calls == [] || !writable then if x < |bytes| then bytes[x] else 0
    else
      var before, last := calls[..|calls| - 1], calls[|calls| - 1];
      var len := LengthAfter(|bytes|, writable, before);
      if Writes(last, len, x) then PatchOf(last).value.data[x - PatchOf(last).value.offset]
      else if x >= len then 0
      else LastValue(bytes, writable, before, x)
  }

  lemma ReadOnlyKeepsBytes(bytes: seq<Byte>, call: Call)
    ensures Reference(bytes, false, call).0 == bytes
  {
  }

  /** One call, byte by byte. */
  lemma CallDecidesByte(bytes: seq<Byte>, call: Call, x: nat)
    requires x < |Reference(bytes, true, call).0|
    ensures |Reference(bytes, true, call).0| == NewSize(call, |bytes|)
    ensures Reference(bytes, true, call).0[x] ==
            if Writes(call, |bytes|, x) then PatchOf(call).value.data[x - PatchOf(call).value.offset]
            else if x >= |bytes| then 0 else bytes[x]
  {
  }

  lemma CallDecidesLength(bytes: seq<Byte>, call: Call)
    ensures |Reference(bytes, true, call).0| == NewSize(call, |bytes|)
  {
  }

  /**
   After any run of calls, successful or not, each byte of the mapping is
   the last value written over it since it came into being, and the length
   is that of the last successful resize.
   */
  lemma {:induction false} RunKeepsLastValues(bytes: seq<Byte>, writable: bool, calls: seq<Call>)
    ensures |After(bytes, writable, calls)| == LengthAfter(|bytes|, writable, calls)
    ensures forall x :: 0 <= x < |After(bytes, writable, calls)| ==>
              After(bytes, writable, calls)[x] == LastValue(bytes, writable, calls, x)
  {
    if calls != [] {
      var before, last := calls[..|calls| - 1], calls[|calls| - 1];
      RunKeepsLastValues(bytes, writable, before);
      var now := After(bytes, writable, before);
      if writable {
        CallDecidesLength(now, last);
        forall x | 0 <= x < |After(bytes, writable, calls)|
          ensures After(bytes, writable, calls)[x] == LastValue(bytes, writable, calls, x)
        {
          CallDecidesByte(now, last, x);
        }
      } else {
        ReadOnlyKeepsBytes(now, last);
      }
    }
  }

  /** A read after any run returns the last values written, if its range fits the last size. */
  lemma ReadsReturnLastValues(bytes: seq<Byte>, writable: bool, calls: seq<Call>, offset: U64, len: U64)
    requires len > 0
    ensures var r := Reference(After(bytes, writable, calls), writable, Read(offset, len)).1;
            && (r.Ok? <==> offset + len <= LengthAfter(|bytes|, writable, calls))
            && (r.Err? ==> r.error == OutOfBounds(offset, len, LengthAfter(|bytes|, writable, calls)))
            && (r.Ok? ==> |r.value| == len && forall k :: 0 <= k < len ==>
                            r.value[k] == LastValue(bytes, writable, calls, offset + k))
  {
    RunKeepsLastValues(bytes, writable, calls);
  }

  /** An empty read succeeds anywhere; no read changes a byte. */
  lemma EmptyReadSucceeds(bytes: seq<Byte>, writable: bool, offset: U64)
    ensures Reference(bytes, writable, Read(offset, 0)) == (bytes, Ok([]))
  {
  }

  /** No call of the run can write to, or cut off, the bytes `[lo, hi)`. */
  predicate Spares(call: Call, lo: nat, hi: nat) {
    var patch := PatchOf(call);
    && (patch.Some? ==> patch.value.offset + |patch.value.data| <= lo || hi <= patch.value.offset)
    && (call.ResizeTo? ==> hi <= call.newSize)
  }

  /** Bytes outside every written segment and region survive the run. */
  lemma {:induction false} SparedBytesSurvive(bytes: seq<Byte>, writable: bool, calls: seq<Call>, lo: nat, hi: nat)
    requires lo <= hi <= |bytes|
    requires forall n :: 0 <= n < |calls| ==> Spares(calls[n], lo, hi)
    ensures hi <= |After(bytes, writable, calls)|
    ensures After(bytes, writable, calls)[lo..hi] == bytes[lo..hi]
  {
    if calls != [] {
      var before, last := calls[..|calls| - 1], calls[|calls| - 1];
      SparedBytesSurvive(bytes, writable, before, lo, hi);
      var now := After(bytes, writable, before);
      assert Spares(last, lo, hi);
      if writable {
        CallDecidesLength(now, last);
        var then' := Reference(now, true, last).0;
        forall x | lo <= x < hi ensures then'[x] == now[x] {
          CallDecidesByte(now, last, x);
        }
        assert then'[lo..hi] == now[lo..hi];
      } else {
        ReadOnlyKeepsBytes(now, last);
      }
    }
  }

  /** A segment write changes no byte outside its segment, and none past its data. */
  lemma SegmentWriteStaysInside(bytes: seq<Byte>, writable: bool, segment: Segment, data: Bytes, flush: Flush)
    ensures var (bytes', r) := Reference(bytes, writable, WriteSegment(segment, data, flush));
            && |bytes'| == |bytes|
            && (forall x :: 0 <= x < |bytes| && !(segment.offset <= x < segment.offset + segment.len) ==>
                  bytes'[x] == bytes[x])
            && (r.Ok? && data != [] ==>
                  segment.offset + segment.len <= |bytes|
                  && bytes'[segment.offset..segment.offset + |data|] == data
                  && bytes'[segment.offset + |data|..] == bytes[segment.offset + |data|..])
  {
  }

  // ----- failed calls -----

  /** The call failed before it could write anything. */
  predicate FailsCleanly(bytes: seq<Byte>, writable: bool, call: Call) {
    var r := Reference(bytes, writable, call).1;
    r.Err? && r.error != FlushFailed
  }

  predicate FlushBreaks(bytes: seq<Byte>, writable: bool, call: Call) {
    && (call.Update? || call.WriteSegment?) && call.flush.Fails? && writable && call.data != []
    && PatchOf(call).Some? && PatchOf(call).value.offset + PatchOf(call).value.span <= |bytes|
  }

  /**
   A call that fails changes nothing, with exactly one exception: when the
   write is done and the flush it triggers then fails, the bytes are those
   of the same call with a flush that succeeds.
   */
  lemma FailureLeavesBytes(bytes: seq<Byte>, writable: bool, call: Call)
    requires Reference(bytes, writable, call).1.Err?
    ensures FailsCleanly(bytes, writable, call) <==> !FlushBreaks(bytes, writable, call)
    ensures FailsCleanly(bytes, writable, call) ==> Reference(bytes, writable, call).0 == bytes
    ensures FlushBreaks(bytes, writable, call) ==>
              (Reference(bytes, writable, call).0, Ok([])) == Reference(bytes, writable, call.(flush := Succeeds))
  {
  }

  /** The run without the calls that fail cleanly. */
  function WithoutFailures(bytes: seq<Byte>, writable: bool, calls: seq<Call>): seq<Call> {
    if calls == [] then []
    else
      var before, last := calls[..|calls| - 1], calls[|calls| - 1];
      var kept := WithoutFailures(bytes, writable, before);
      if FailsCleanly(After(bytes, writable, before), writable, last) then kept else kept + [last]
  }

  /** Failed calls can be struck from a run: all later calls see the same bytes. */
  lemma {:induction false} FailuresLeaveNoTrace(bytes: seq<Byte>, writable: bool, calls: seq<Call>)
    ensures After(bytes, writable, WithoutFailures(bytes, writable, calls)) == After(bytes, writable, calls)
  {
    if calls != [] {
      var before, last := calls[..|calls| - 1], calls[|calls| - 1];
      FailuresLeaveNoTrace(bytes, writable, before);
      var now, kept := After(bytes, writable, before), WithoutFailures(bytes, writable, before);
      if FailsCleanly(now, writable, last) {
        FailureLeavesBytes(now, writable, last);
      } else {
        assert (kept + [last])[..|kept|] == kept;
      }
    }
  }

  /** An update can report failure and yet have written. */
  lemma FailedUpdateCanWrite()
    ensures Reference([1], true, Update(0, [2], Fails)) == ([2], Err(FlushFailed))
  {
    assert Put([1], 0, [2]) == [2];
  }
}
