/**
 Windows of a file as OS mappings (`src/raw/range.rs`, `src/raw/mod.rs`):
 checked offset arithmetic, the mapping that covers a window, and the
 page-aligned spans handed to ranged OS calls.

 `bits` is the width of `usize` (32 or 64); file offsets have 64 bits.
 */
module RawWindows {
  import opened Ranges
  import opened Bounds
  import opened Bits
  import opened Multiples

  /** One past `usize::MAX`. */
  function Words(bits: nat): nat {
    Pow2(bits)
  }

  /** `range::MAX_LEN`, which is `isize::MAX`. */
  function MaxLen(bits: nat): nat
    requires bits > 0
  {
    Pow2(bits - 1) - 1
  }

  /** Checked addition in `usize`. */
  function AddUsize(a: nat, b: nat, bits: nat): Option<nat> {
    if a + b < Words(bits) then Some(a + b) else None
  }

  datatype Layout = Layout(alignedOffset: nat, delta: nat, len: nat, mapLen: nat)

  /** `len` is a `usize`, or `None` for the rest of the file. */
  function ResolveLen(fileLen: U64, offset: U64, len: Option<nat>, maxLen: nat, bits: nat): Result<nat> {
    var available := CheckedSub(fileLen, offset);
    if available.None? then Err(InvalidInput)
    else if len.Some? && len.value > available.value then Err(InvalidInput)
    else if len.None? && available.value >= Words(bits) then Err(InvalidInput)
    else
      var resolved := if len.Some? then len.value else available.value;
      if resolved > maxLen then Err(InvalidInput) else Ok(resolved)
  }

  function LayOut(offset: U64, len: nat, granularity: nat, maxLen: nat, bits: nat): Result<Layout> {
    if !IsPowerOfTwo(granularity) then Err(InvalidInput)
    else
      MaskIsRemainder(offset, granularity);
      FloorMultiple(offset, granularity);
      var delta := And(offset, granularity - 1);
      var mapLen := AddUsize(len, delta, bits);
      if mapLen.None? || mapLen.value > maxLen then Err(InvalidInput)
      else Ok(Layout(offset - delta, delta, len, mapLen.value))
  }

  /** `(start, count)` within the OS mapping, or `None` when there is nothing to do. */
  function FlushSpan(delta: nat, windowLen: nat, offset: nat, flushLen: nat, page: nat, bits: nat)
    : Result<Option<(nat, int)>>
  {
    if offset > windowLen || flushLen > windowLen - offset then Err(InvalidInput)
    else if flushLen == 0 then Ok(None)
    else if !IsPowerOfTwo(page) then Err(InvalidInput)
    else
      var start := AddUsize(delta, offset, bits);
      if start.None? then Err(InvalidInput)
      else
        var end := AddUsize(start.value, flushLen, bits);
        if end.None? then Err(InvalidInput)
        else
          var aligned := And(start.value, Not(page - 1, bits));
          Ok(Some((aligned, end.value - aligned)))
  }

  // ----- the mapping -----

  datatype Kind = ReadKind | WriteKind | CopyKind | AnonKind

  /** One OS mapping, or the empty placeholder. */
  datatype Window = Window(ptr: nat, len: nat, delta: nat, osLen: nat, kind: Kind)

  /** The struct invariants: the placeholder, or a mapping inside the address space. */
  ghost predicate Invariant(w: Window, page: nat, bits: nat)
    requires page > 0 && bits > 0
  {
    if w.len == 0 then
      w.ptr > 0 && w.ptr % page == 0 && w.delta == 0 && w.osLen == 0
    else
      && w.delta < w.ptr && (w.ptr - w.delta) % page == 0
      && w.delta + w.len <= w.osLen <= MaxLen(bits)
      && w.ptr - w.delta + w.osLen <= Words(bits)
  }

  function Empty(align: nat, kind: Kind): Window {
    Window(if align > 0 then align else 1, 0, 0, 0, kind)
  }

  function FromOs(base: nat, layout: Layout, osLen: nat, kind: Kind): Window {
    Window(base + layout.delta, layout.len, layout.delta, osLen, kind)
  }

  /** Wrapping subtraction on addresses. */
  function Base(w: Window, bits: nat): nat {
    (w.ptr - w.delta) % Words(bits)
  }

  function Span(w: Window, offset: nat, len: nat, page: nat, bits: nat): Result<Option<(nat, int)>> {
    var span := FlushSpan(w.delta, w.len, offset, len, page, bits);
    if span.Err? || span.value.None? then span
    else Ok(Some((Base(w, bits) + span.value.value.0, span.value.value.1)))
  }

  /** What the OS answers: an address or an error, and its granularity. */
  datatype OsMap = OsMap(base: Option<nat>, granularity: nat)

  /** `map_impl`: the window, and the file offset its OS mapping starts at. */
  function MapImpl(fileLen: U64, offset: U64, len: Option<nat>, kind: Kind, os: OsMap, bits: nat)
    : Result<(Window, nat)>
    requires bits > 0
  {
    var resolved := ResolveLen(fileLen, offset, len, MaxLen(bits), bits);
    if resolved.Err? then Err(resolved.error)
    else
      var layout := LayOut(offset, resolved.value, os.granularity, MaxLen(bits), bits);
      if layout.Err? then Err(layout.error)
      else if layout.value.len == 0 then Ok((Empty(os.granularity, kind), layout.value.alignedOffset))
      else if os.base.None? then Err(Io)
      else Ok((FromOs(os.base.value, layout.value, layout.value.mapLen, kind), layout.value.alignedOffset))
  }

  /** Write access for a mapping; on error the mapping is gone. */
  function IntoWritable(w: Window, marked: bool, protects: bool): Result<Window> {
    if w.kind.ReadKind? && w.len > 0 && !marked then Err(Io)
    else
      var writable := if w.kind.ReadKind? then w.(kind := WriteKind) else w;
      if w.len > 0 && !protects then Err(Io) else Ok(writable)
  }

  // ----- exactness -----

  /** The length asked for, or all there is. */
  function Wanted(fileLen: nat, offset: nat, len: Option<nat>): int {
    if len.Some? then len.value else fileLen - offset
  }

  lemma MaxLenFits(bits: nat)
    requires bits > 0
    ensures MaxLen(bits) < Words(bits)
  {
  }

  /** A window resolves exactly if it lies in the file and is not too long. */
  lemma ResolveLenExact(fileLen: U64, offset: U64, len: Option<nat>, maxLen: nat, bits: nat)
    requires maxLen < Words(bits)
    ensures var r, n := ResolveLen(fileLen, offset, len, maxLen, bits), Wanted(fileLen, offset, len);
            && (r.Ok? <==> 0 <= n <= maxLen && offset + n <= fileLen)
            && (r.Ok? ==> r.value == n)
            && (r.Err? ==> r.error == InvalidInput)
  {
  }

  /**
   A layout exists exactly if the rounded-out window is not too long; it
   starts at the last granule boundary that is not after the offset.
   */
  lemma LayOutExact(offset: U64, len: nat, granularity: nat, maxLen: nat, bits: nat)
    requires maxLen < Words(bits)
    ensures var r := LayOut(offset, len, granularity, maxLen, bits);
            && (r.Ok? <==> IsPowerOfTwo(granularity) && len + offset % granularity <= maxLen)
            && (r.Ok? ==>
                  && r.value.len == len && r.value.mapLen == r.value.delta + len
                  && r.value.alignedOffset % granularity == 0
                  && r.value.alignedOffset + r.value.delta == offset && r.value.delta < granularity)
  {
    if IsPowerOfTwo(granularity) {
      MaskIsRemainder(offset, granularity);
      FloorMultiple(offset, granularity);
    }
  }

  /** A span as `msync` wants it: page aligned, inside the mapping, up to the last requested byte. */
  ghost predicate Covering(start: nat, count: int, page: nat, from: nat, to: nat)
    requires page > 0
  {
    start % page == 0 && start <= from < start + page && start + count == to
  }

  /** A page size that is no power of two is refused, unless there is nothing to flush. */
  lemma BadPageIsRefused(delta: nat, windowLen: nat, offset: nat, flushLen: nat, page: nat, bits: nat)
    requires !IsPowerOfTwo(page)
    ensures FlushSpan(delta, windowLen, offset, flushLen, page, bits).Ok? <==> offset <= windowLen && flushLen == 0
  {
  }

  lemma FlushSpanExact(delta: nat, windowLen: nat, offset: nat, flushLen: nat, page: nat, bits: nat)
    requires IsPowerOfTwo(page) && delta + windowLen < Words(bits)
    ensures var r := FlushSpan(delta, windowLen, offset, flushLen, page, bits);
            && (r.Ok? <==> offset + flushLen <= windowLen)
            && (r.Ok? ==> (r.value.None? <==> flushLen == 0))
            && (r.Ok? && r.value.Some? ==>
                  Covering(r.value.value.0, r.value.value.1, page, delta + offset, delta + offset + flushLen))
  {
    if offset + flushLen <= windowLen && flushLen > 0 {
      ClearLowBits(delta + offset, page, bits);
      FloorMultiple(delta + offset, page);
    }
  }

  // ----- composition -----

  /** The OS maps `n` bytes on a granule boundary, with room for the rounded-out window. */
  predicate OsHonest(os: OsMap, offset: nat, n: int, bits: nat) {
    IsPowerOfTwo(os.granularity) && os.base.Some? ==>
      os.base.value > 0 && os.base.value % os.granularity == 0
      && os.base.value + offset % os.granularity + n <= Words(bits)
  }

  lemma MultipleOfMultiple(a: nat, g: nat, p: nat)
    requires g > 0 && p > 0 && a % g == 0 && g % p == 0
    ensures a % p == 0
  {
    var m, n := a / g, g / p;
    assert a == m * g && g == n * p;
    assert a == (m * n) * p;
    ProductNonNegative(m, n);
    DivModUnique(a, m * n, 0, p);
  }

  /**
   Mapping a window succeeds exactly if the window lies in the file and,
   rounded out to a granule, is not too long (and the OS maps it).
   */
  lemma MapImplAccepts(fileLen: U64, offset: U64, len: Option<nat>, kind: Kind, os: OsMap, bits: nat)
    requires bits > 0
    ensures var n := Wanted(fileLen, offset, len);
            MapImpl(fileLen, offset, len, kind, os, bits).Ok? <==>
              && IsPowerOfTwo(os.granularity)
              && 0 <= n && offset + n <= fileLen && n + offset % os.granularity <= MaxLen(bits)
              && (n == 0 || os.base.Some?)
  {
    var n := Wanted(fileLen, offset, len);
    MaxLenFits(bits);
    ResolveLenExact(fileLen, offset, len, MaxLen(bits), bits);
    if 0 <= n {
      LayOutExact(offset, n, os.granularity, MaxLen(bits), bits);
    }
  }

  /**
   The mapping satisfies the struct invariants, shows exactly the bytes
   asked for, and never reaches past the end of the file.
   */
  lemma MapImplShowsWindow(fileLen: U64, offset: U64, len: Option<nat>, kind: Kind, os: OsMap, page: nat, bits: nat)
    requires bits > 0 && IsPowerOfTwo(page) && page <= os.granularity
    requires OsHonest(os, offset, Wanted(fileLen, offset, len), bits)
    requires MapImpl(fileLen, offset, len, kind, os, bits).Ok?
    ensures var (w, fileStart) := MapImpl(fileLen, offset, len, kind, os, bits).value;
            && Invariant(w, page, bits)
            && w.len == Wanted(fileLen, offset, len) && w.kind == kind
            && fileStart % page == 0
            && (w.len > 0 ==>
                  && os.base.Some? && w.ptr - w.delta == os.base.value
                  && fileStart + w.delta == offset && w.delta < os.granularity
                  && fileStart + w.osLen == offset + w.len <= fileLen)
  {
    var n := Wanted(fileLen, offset, len);
    MaxLenFits(bits);
    ResolveLenExact(fileLen, offset, len, MaxLen(bits), bits);
    LayOutExact(offset, n, os.granularity, MaxLen(bits), bits);
    SmallerDivides(page, os.granularity);
    var start := LayOut(offset, n, os.granularity, MaxLen(bits), bits).value.alignedOffset;
    MultipleOfMultiple(start, os.granularity, page);
    if n > 0 {
      RemainderOf(offset, start, os.granularity);
      MultipleOfMultiple(os.base.value, os.granularity, page);
    }
  }

  lemma RemainderOf(a: nat, floor: nat, g: nat)
    requires g > 0 && floor % g == 0 && floor <= a < floor + g
    ensures a - floor == a % g
  {
    assert a == (floor / g) * g + (a - floor);
    DivModUnique(a, floor / g, a - floor, g);
  }

  lemma SumOfMultiples(a: nat, b: nat, p: nat)
    requires p > 0 && a % p == 0 && b % p == 0
    ensures (a + b) % p == 0
  {
    var m := b / p;
    assert b == p * m;
    AddMultiple(a, m, p);
  }

  /**
   `span` accepts exactly the ranges inside the window; an empty range
   gives nothing to do, any other a page-aligned span inside the OS mapping
   that ends at the last requested byte and starts less than a page early.
   */
  lemma SpanExact(w: Window, offset: nat, len: nat, page: nat, bits: nat)
    requires bits > 0 && IsPowerOfTwo(page) && Invariant(w, page, bits)
    ensures var r := Span(w, offset, len, page, bits);
            && (r.Ok? <==> offset + len <= w.len)
            && (r.Ok? ==> (r.value.None? <==> len == 0))
            && (r.Ok? && r.value.Some? ==>
                  var (addr, count) := r.value.value;
                  && Covering(addr, count, page, w.ptr + offset, w.ptr + offset + len)
                  && w.ptr - w.delta <= addr && addr + count <= w.ptr - w.delta + w.osLen <= Words(bits))
  {
    MaxLenFits(bits);
    FlushSpanExact(w.delta, w.len, offset, len, page, bits);
    if 0 < len && offset + len <= w.len {
      var base := w.ptr - w.delta;
      DivModUnique(base, 0, base, Words(bits));
      var start := FlushSpan(w.delta, w.len, offset, len, page, bits).value.value.0;
      SumOfMultiples(base, start, page);
    }
  }

  /**
   Making a mapping writable succeeds exactly if the OS grants it what it
   needs, which for an empty mapping is nothing. The kind alone changes, and
   of a read-only mapping it does, to write.
   */
  lemma WritableKeepsWindow(w: Window, marked: bool, protects: bool, page: nat, bits: nat)
    requires page > 0 && bits > 0 && Invariant(w, page, bits)
    ensures var r := IntoWritable(w, marked, protects);
            && (r.Ok? <==> w.len == 0 || (protects && (w.kind.ReadKind? ==> marked)))
            && (r.Err? ==> r.error == Io)
            && (r.Ok? ==>
                  Invariant(r.value, page, bits) && r.value.(kind := w.kind) == w
                  && r.value.kind == if w.kind.ReadKind? then WriteKind else w.kind)
  {
  }

  /** The byte of the file at an address, when the OS maps the file from `fileStart` at `base`. */
  function FileByteAt(base: nat, fileStart: nat, address: nat): int {
    fileStart + (address - base)
  }

  /** Address by address, the window shows the file from `offset` on, inside what the OS mapped. */
  lemma WindowShowsFile(fileLen: U64, offset: U64, len: Option<nat>, kind: Kind, os: OsMap, page: nat,
                        bits: nat, i: nat)
    requires bits > 0 && IsPowerOfTwo(page) && page <= os.granularity
    requires OsHonest(os, offset, Wanted(fileLen, offset, len), bits)
    requires MapImpl(fileLen, offset, len, kind, os, bits).Ok?
    requires i < MapImpl(fileLen, offset, len, kind, os, bits).value.0.len
    ensures var (w, fileStart) := MapImpl(fileLen, offset, len, kind, os, bits).value;
            && os.base.Some? && os.base.value <= w.ptr + i < os.base.value + w.osLen
            && FileByteAt(os.base.value, fileStart, w.ptr + i) == offset + i
  {
    MapImplShowsWindow(fileLen, offset, len, kind, os, page, bits);
  }

  /** A non-empty window at `base` that shows the file from `offset` on, from the page at `fileStart`. */
  ghost predicate Shows(w: Window, base: nat, fileStart: nat, offset: nat, fileLen: nat, page: nat, bits: nat)
    requires page > 0 && bits > 0
  {
    && Invariant(w, page, bits) && w.len > 0 && fileStart % page == 0
    && w.ptr - w.delta == base && fileStart + w.delta == offset
    && fileStart + w.osLen == offset + w.len <= fileLen
  }

  lemma SpanStart(w: Window, at: nat, n: nat, page: nat, bits: nat)
    requires bits > 0 && IsPowerOfTwo(page) && Invariant(w, page, bits) && 0 < n && at + n <= w.len
    ensures var r := Span(w, at, n, page, bits);
            && r.Ok? && r.value.Some?
            && w.ptr - w.delta <= r.value.value.0 && (r.value.value.0 - (w.ptr - w.delta)) % page == 0
  {
    MaxLenFits(bits);
    FlushSpanExact(w.delta, w.len, at, n, page, bits);
    DivModUnique(w.ptr - w.delta, 0, w.ptr - w.delta, Words(bits));
  }

  /** A span of such a window is whole pages of the file that end with the requested bytes. */
  lemma SpanShowsFile(w: Window, base: nat, fileStart: nat, offset: nat, fileLen: nat, page: nat, bits: nat,
                      at: nat, n: nat)
    requires bits > 0 && IsPowerOfTwo(page) && Shows(w, base, fileStart, offset, fileLen, page, bits)
    requires 0 < n && at + n <= w.len
    ensures var r := Span(w, at, n, page, bits);
            && r.Ok? && r.value.Some?
            && var (addr, count) := r.value.value;
            && base <= addr && addr + count <= base + w.osLen
            && var first := FileByteAt(base, fileStart, addr);
            && addr % page == 0 && first >= 0 && first % page == 0
            && first <= offset + at < first + page
            && first + count == offset + at + n <= fileLen
  {
    SpanExact(w, at, n, page, bits);
    SpanStart(w, at, n, page, bits);
    SumOfMultiples(fileStart, Span(w, at, n, page, bits).value.value.0 - base, page);
  }

  /**
   All together: for a window that was mapped, and maybe made writable, a
   flush of `n` bytes at `at` is accepted exactly if they lie in the window,
   and then hands the OS whole pages from a page boundary of the file, inside
   what the OS mapped, that hold the bytes `offset + at .. offset + at + n`
   of the file.
   */
  lemma WindowsCompose(fileLen: U64, offset: U64, len: Option<nat>, kind: Kind, os: OsMap, page: nat, bits: nat,
                       at: nat, n: nat)
    requires bits > 0 && IsPowerOfTwo(page) && page <= os.granularity
    requires OsHonest(os, offset, Wanted(fileLen, offset, len), bits)
    requires MapImpl(fileLen, offset, len, kind, os, bits).Ok?
    ensures var (w, fileStart) := MapImpl(fileLen, offset, len, kind, os, bits).value;
            var r := Span(w, at, n, page, bits);
            && (r.Ok? <==> at + n <= Wanted(fileLen, offset, len))
            && (r.Ok? ==> (r.value.None? <==> n == 0))
            && (r.Ok? && r.value.Some? ==>
                  var (addr, count) := r.value.value;
                  && os.base.Some? && os.base.value <= addr && addr + count <= os.base.value + w.osLen
                  && var first := FileByteAt(os.base.value, fileStart, addr);
                  && addr % page == 0 && first >= 0 && first % page == 0
                  && first <= offset + at < first + page
                  && first + count == offset + at + n <= fileLen)
  {
    MapImplShowsWindow(fileLen, offset, len, kind, os, page, bits);
    var (w, fileStart) := MapImpl(fileLen, offset, len, kind, os, bits).value;
    SpanExact(w, at, n, page, bits);
    if 0 < n && at + n <= w.len {
      SpanShowsFile(w, os.base.value, fileStart, offset, fileLen, page, bits, at, n);
    }
  }
}
