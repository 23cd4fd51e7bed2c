/**
 The copying read over the registry (`copy_out`, `atomic_copy`, `touch`
 in `src/views.rs`): a walk over sorted, possibly nested or overlapping
 spans while other threads store through live atomic views.

 Memory is a history: `mem(n)` is the content of the mapping when the
 `n`-th access of the walk happens. Between two accesses it may change
 arbitrarily inside live atomic entries and nowhere else.
 */
module CopyOut {
  import opened Ranges
  import opened Bounds
  import opened Registry
  import opened Multiples

  type History = nat -> seq<Byte>

  // ----- what the walk may assume -----

  predicate Covered(entries: seq<Entry>, x: nat) {
    exists e :: e in entries && Covers(e.range, x)
  }

  /** `x` is the first byte of an element of `e`. */
  predicate ElementOf(e: Entry, x: nat) {
    e.size > 0 && x % e.size == 0 && e.range.start <= x && x + e.size <= e.range.end
  }

  /** An entry as `view_parts` registers it in a mapping of `total` bytes. */
  predicate WellPlaced(e: Entry, total: nat) {
    && (e.size == 4 || e.size == 8)
    && e.range.start % e.size == 0 && e.range.end % e.size == 0
    && e.range.start < e.range.end <= total
  }

  /** Every entry is well placed, and overlapping entries have one element size. */
  ghost predicate Admissible(entries: seq<Entry>, total: nat) {
    && (forall e :: e in entries ==> WellPlaced(e, total))
    && (forall e, f :: e in entries && f in entries && Overlaps(e.range, f.range) ==> e.size == f.size)
  }

  /** Only bytes of live atomic entries change. */
  ghost predicate StableOutside(mem: History, entries: seq<Entry>, total: nat) {
    && (forall n :: |mem(n)| == total)
    && (forall n, x :: 0 <= x < total && !Covered(entries, x) ==> mem(n)[x] == mem(0)[x])
  }

  // ----- what the walk does -----

  /** One access: bytes copied plainly, or one atomic load and the bytes taken from it. */
  datatype Access =
    | Plain(range: Range)
    | Load(range: Range, elem: nat, size: nat)

  /** The accesses of one walk, in order. */
  type Log = seq<Access>

  function EndOf(log: Log, start: nat): nat {
    if log == [] then start else log[|log| - 1].range.end
  }

  /** Each access starts where the one before ended, and takes at least a byte. */
  ghost predicate Chain(log: Log, start: nat) {
    log == [] ||
    var before, last := log[..|log| - 1], log[|log| - 1];
    Chain(before, start) && last.range.start == EndOf(before, start) && last.range.start < last.range.end
  }

  lemma {:induction false} ChainBounds(log: Log, start: nat, n: nat)
    requires Chain(log, start) && n < |log|
    ensures start <= log[n].range.start < log[n].range.end <= EndOf(log, start)
  {
    if |log| > 1 {
      ChainBounds(log[..|log| - 1], start, if n < |log| - 1 then n else n - 1);
    }
  }

  lemma {:induction false} ChainJoins(a: Log, b: Log, start: nat)
    requires Chain(a, start) && Chain(b, EndOf(a, start))
    ensures Chain(a + b, start) && EndOf(a + b, start) == EndOf(b, EndOf(a, start))
  {
    if b == [] {
      assert a + b == a;
    } else {
      ChainJoins(a, b[..|b| - 1], start);
      assert (a + b)[..|a + b| - 1] == a + b[..|b| - 1];
    }
  }

  /** The walk takes every byte of its range in exactly one access. */
  lemma {:induction false} TakenOnce(log: Log, start: nat, x: nat)
    requires Chain(log, start) && start <= x < EndOf(log, start)
    ensures exists n :: 0 <= n < |log| && Covers(log[n].range, x)
                        && forall k :: 0 <= k < |log| && Covers(log[k].range, x) ==> k == n
  {
    var before, last := log[..|log| - 1], log[|log| - 1];
    if x < last.range.start {
      TakenOnce(before, start, x);
      var n :| 0 <= n < |before| && Covers(before[n].range, x)
               && forall k :: 0 <= k < |before| && Covers(before[k].range, x) ==> k == n;
      forall k | 0 <= k < |log| && Covers(log[k].range, x) ensures k == n {
        assert k < |before| ==> before[k] == log[k];
      }
      assert Covers(log[n].range, x);
    } else {
      forall k | 0 <= k < |log| && Covers(log[k].range, x) ensures k == |log| - 1 {
        if k < |log| - 1 {
          ChainBounds(before, start, k);
        }
      }
      assert Covers(log[|log| - 1].range, x);
    }
  }

  /** No plain read touches a live entry; every load is an aligned element of one. */
  ghost predicate Permitted(entries: seq<Entry>, a: Access) {
    match a
    case Plain(range) => forall x: nat :: Covers(range, x) ==> !Covered(entries, x)
    case Load(range, elem, size) =>
      && (exists e :: e in entries && e.size == size && ElementOf(e, elem))
      && elem <= range.start && range.end <= elem + size
  }

  /** `dst`, which starts at mapping offset `start`, holds the bytes `[lo, hi)` of `m`. */
  ghost predicate Took(m: seq<Byte>, lo: nat, hi: nat, start: nat, dst: seq<Byte>) {
    && start <= lo && hi <= start + |dst| && hi <= |m|
    && forall k :: 0 <= k < |dst| && lo <= k + start < hi ==> dst[k] == m[k + start]
  }

  /** The destination holds, for every access, the bytes of memory at that time. */
  ghost predicate Delivered(mem: History, clock: nat, log: Log, start: nat, dst: seq<Byte>) {
    forall n :: 0 <= n < |log| ==> Took(mem(clock + n), log[n].range.start, log[n].range.end, start, dst)
  }

  /** Only the bytes of `[from, to)` of the destination differ. */
  ghost predicate WritesOnly(before: seq<Byte>, after: seq<Byte>, start: nat, from: nat, to: nat) {
    && |before| == |after|
    && forall k :: 0 <= k < |before| && !(from <= k + start < to) ==> after[k] == before[k]
  }

  /** One more access extends the chain and delivers its bytes. */
  lemma AccessTaken(mem: History, clock: nat, log: Log, a: Access, from: nat, start: nat,
                    before: seq<Byte>, after: seq<Byte>)
    requires Chain(log, from) && a.range.start == EndOf(log, from) && a.range.start < a.range.end
    requires Delivered(mem, clock, log, start, before)
    requires WritesOnly(before, after, start, a.range.start, a.range.end)
    requires Took(mem(clock + |log|), a.range.start, a.range.end, start, after)
    ensures Chain(log + [a], from) && EndOf(log + [a], from) == a.range.end
    ensures Delivered(mem, clock, log + [a], start, after)
  {
    assert (log + [a])[..|log|] == log;
    forall n | 0 <= n < |log|
      ensures Took(mem(clock + n), log[n].range.start, log[n].range.end, start, after)
    {
      assert Took(mem(clock + n), log[n].range.start, log[n].range.end, start, before);
      ChainBounds(log, from, n);
    }
  }

  /** Elements that begin before `pos` and end by `end` were taken by one load each. */
  ghost predicate WholeElements(entries: seq<Entry>, log: Log, start: nat, pos: nat, end: nat) {
    forall e, x: nat :: e in entries && ElementOf(e, x) && start <= x < pos && x + e.size <= end ==>
      Load(Range(x, x + e.size), x, e.size) in log
  }

  // ----- the registry entries the walk visits -----

  function Overlapping(entries: seq<Entry>, range: Range): (r: seq<Entry>)
    ensures forall e :: e in r <==> e in entries && Overlaps(e.range, range)
  {
    if entries == [] then []
    else
      var rest := Overlapping(entries[..|entries| - 1], range);
      var last := entries[|entries| - 1];
      assert entries == entries[..|entries| - 1] + [last];
      if Overlaps(last.range, range) then rest + [last] else rest
  }

  ghost predicate SortedByStart(s: seq<Entry>) {
    forall i, j :: 0 <= i <= j < |s| ==> s[i].range.start <= s[j].range.start
  }

  function InsertByStart(e: Entry, s: seq<Entry>): seq<Entry> {
    if s == [] then [e]
    else if e.range.start <= s[0].range.start then [e] + s
    else [s[0]] + InsertByStart(e, s[1..])
  }

  lemma {:induction false} InsertSorts(e: Entry, s: seq<Entry>)
    requires SortedByStart(s)
    ensures SortedByStart(InsertByStart(e, s))
    ensures forall f :: f in InsertByStart(e, s) <==> f == e || f in s
  {
    if s != [] && e.range.start > s[0].range.start {
      InsertSorts(e, s[1..]);
      var rest := InsertByStart(e, s[1..]);
      forall j | 0 <= j < |rest| ensures s[0].range.start <= rest[j].range.start {
        assert rest[j] in rest;
      }
      assert s == [s[0]] + s[1..];
    }
  }

  /** Any sort by start will do; the walk relies on nothing but the order. */
  function SortByStart(s: seq<Entry>): (r: seq<Entry>)
    ensures SortedByStart(r)
    ensures forall e :: e in r <==> e in s
  {
    if s == [] then []
    else
      assert s == [s[0]] + s[1..];
      var rest := SortByStart(s[1..]);
      InsertSorts(s[0], rest);
      InsertByStart(s[0], rest)
  }

  // ----- the copy -----

  method PlainCopy(m: seq<Byte>, from: nat, to: nat, start: nat, dst: array<Byte>)
    requires start <= from <= to <= start + dst.Length && to <= |m|
    modifies dst
    ensures Took(m, from, to, start, dst[..])
    ensures WritesOnly(old(dst[..]), dst[..], start, from, to)
  {
    forall k | from - start <= k < to - start {
      dst[k] := m[k + start];
    }
  }

  /** The accesses of `AtomicCopy` on `[from, to)` from element `elem` on. */
  function Loads(elem: nat, from: nat, to: nat, size: nat): Log
    requires size > 0
    decreases if elem < to then to - elem else 0
  {
    if elem >= to then []
    else
      [Load(Range(if elem < from then from else elem, if elem + size < to then elem + size else to), elem, size)]
      + Loads(elem + size, from, to, size)
  }

  /** What `AtomicCopy` promises of each load. */
  predicate AlignedLoad(a: Access, first: nat, to: nat, size: nat)
    requires size > 0
  {
    && a.Load? && a.size == size && a.elem % size == 0 && first <= a.elem < to
    && a.elem <= a.range.start && a.range.end <= a.elem + size
  }

  /** The loads are aligned elements. */
  lemma {:induction false} LoadsAligned(elem: nat, from: nat, to: nat, size: nat, n: nat)
    requires size > 0 && elem % size == 0 && n < |Loads(elem, from, to, size)|
    ensures AlignedLoad(Loads(elem, from, to, size)[n], elem, to, size)
    decreases n
  {
    if n > 0 {
      StepMultiple(elem, size);
      LoadsAligned(elem + size, from, to, size, n - 1);
    }
  }

  function First(elem: nat, from: nat): nat {
    if elem < from then from else elem
  }

  lemma ChainOfOne(a: Access)
    requires a.range.start < a.range.end
    ensures Chain([a], a.range.start) && EndOf([a], a.range.start) == a.range.end
  {
    assert [a][..|[a]| - 1] == [];
    assert Chain([], a.range.start);
  }

  /** The loads take `[from, to)` exactly, in order. */
  lemma {:induction false} LoadsChain(elem: nat, from: nat, to: nat, size: nat)
    requires size > 0 && from < elem + size && elem < to && from < to
    ensures Chain(Loads(elem, from, to, size), First(elem, from))
    ensures EndOf(Loads(elem, from, to, size), First(elem, from)) == to
    decreases if elem < to then to - elem else 0
  {
    var lo := First(elem, from);
    var hi := if elem + size < to then elem + size else to;
    var first := Load(Range(lo, hi), elem, size);
    ChainOfOne(first);
    if elem + size < to {
      LoadsChain(elem + size, from, to, size);
      ChainJoins([first], Loads(elem + size, from, to, size), lo);
    } else {
      assert Loads(elem, from, to, size) == [first];
    }
  }

  /** Every element wholly inside `[from, to)` is one whole load. */
  lemma {:induction false} LoadsWhole(elem: nat, from: nat, to: nat, size: nat, x: nat)
    requires size > 0 && elem % size == 0 && elem <= x && from <= x && x % size == 0 && x + size <= to
    ensures Load(Range(x, x + size), x, size) in Loads(elem, from, to, size)
    decreases x - elem
  {
    if elem < x {
      NextMultiple(elem, x, size);
      StepMultiple(elem, size);
      LoadsWhole(elem + size, from, to, size, x);
    }
  }

  /** The loop has done `log` and has `Loads(elem, ...)` to go. */
  ghost predicate LoopAt(first: nat, elem: nat, from: nat, to: nat, size: nat, log: Log)
    requires size > 0
  {
    && from < elem + size
    && Loads(first, from, to, size) == log + Loads(elem, from, to, size)
    && Chain(log, from)
    && EndOf(log, from) == (if elem < to then First(elem, from) else to)
  }

  lemma LoopSteps(first: nat, elem: nat, from: nat, to: nat, size: nat, log: Log)
    requires size > 0 && from < to && elem < to && LoopAt(first, elem, from, to, size, log)
    ensures var hi := if elem + size < to then elem + size else to;
            LoopAt(first, elem + size, from, to, size, log + [Load(Range(First(elem, from), hi), elem, size)])
  {
    var hi := if elem + size < to then elem + size else to;
    var load := Load(Range(First(elem, from), hi), elem, size);
    assert (log + [load])[..|log|] == log;
    assert log + ([load] + Loads(elem + size, from, to, size)) == log + [load] + Loads(elem + size, from, to, size);
  }

  /** All the elements lie inside the mapping. */
  ghost predicate Fits(log: Log, total: nat) {
    forall n :: 0 <= n < |log| && log[n].Load? ==> log[n].elem + log[n].size <= total
  }

  /** One load of an element returns all its bytes at one moment. */
  function AtomicLoad(m: seq<Byte>, elem: nat, size: nat): seq<Byte>
    requires elem + size <= |m|
  {
    m[elem..elem + size]
  }

  method TakeBytes(ghost m: seq<Byte>, bytes: seq<Byte>, elem: nat, lo: nat, hi: nat, start: nat, dst: array<Byte>)
    requires elem + |bytes| <= |m| && bytes == AtomicLoad(m, elem, |bytes|)
    requires elem <= lo <= hi <= elem + |bytes| && start <= lo && hi <= start + dst.Length
    modifies dst
    ensures Took(m, lo, hi, start, dst[..])
    ensures WritesOnly(old(dst[..]), dst[..], start, lo, hi)
  {
    forall k | lo - start <= k < hi - start {
      dst[k] := bytes[k + start - elem];
    }
  }

  /** One round of the loop of `AtomicCopy`: the load of one element and the bytes taken from it. */
  method CopyElement(mem: History, ghost total: nat, clock: nat, ghost first: nat, elem: nat,
                     from: nat, to: nat, size: nat, start: nat, dst: array<Byte>, log: Log)
    returns (log': Log)
    requires size > 0 && elem < to && start <= from < to <= start + dst.Length
    requires forall n :: |mem(n)| == total
    requires to <= total && Fits(Loads(first, from, to, size), total)
    requires LoopAt(first, elem, from, to, size, log) && Delivered(mem, clock, log, start, dst[..])
    modifies dst
    ensures LoopAt(first, elem + size, from, to, size, log') && Delivered(mem, clock, log', start, dst[..])
    ensures WritesOnly(old(dst[..]), dst[..], start, from, to)
  {
    LoopSteps(first, elem, from, to, size, log);
    var lo := if elem < from then from else elem;
    var hi := if elem + size < to then elem + size else to;
    var load := Load(Range(lo, hi), elem, size);
    assert Loads(first, from, to, size)[|log|] == load;
    var bytes := AtomicLoad(mem(clock + |log|), elem, size);
    ghost var before := dst[..];
    TakeBytes(mem(clock + |log|), bytes, elem, lo, hi, start, dst);
    AccessTaken(mem, clock, log, load, from, start, before, dst[..]);
    log' := log + [load];
  }

  lemma WritesCompose(a: seq<Byte>, b: seq<Byte>, c: seq<Byte>, start: nat, from: nat, to: nat)
    requires WritesOnly(a, b, start, from, to) && WritesOnly(b, c, start, from, to)
    ensures WritesOnly(a, c, start, from, to)
  {
  }

  /** The loop of `AtomicCopy`, from its first element. */
  method CopyElements(mem: History, ghost total: nat, clock: nat, first: nat,
                      from: nat, to: nat, size: nat, start: nat, dst: array<Byte>)
    returns (log: Log)
    requires first <= from < first + size && start <= from < to <= start + dst.Length
    requires forall n :: |mem(n)| == total
    requires to <= total && Fits(Loads(first, from, to, size), total)
    modifies dst
    ensures log == Loads(first, from, to, size)
    ensures Delivered(mem, clock, log, start, dst[..])
    ensures WritesOnly(old(dst[..]), dst[..], start, from, to)
  {
    var elem := first;
    log := [];
    while elem < to
      invariant LoopAt(first, elem, from, to, size, log)
      invariant Delivered(mem, clock, log, start, dst[..])
      invariant WritesOnly(old(dst[..]), dst[..], start, from, to)
      decreases if elem < to then to - elem else 0
    {
      ghost var before := dst[..];
      log := CopyElement(mem, total, clock, first, elem, from, to, size, start, dst, log);
      WritesCompose(old(dst[..]), before, dst[..], start, from, to);
      elem := elem + size;
    }
  }

  method AtomicCopy(mem: History, ghost total: nat, clock: nat,
                    from: nat, to: nat, size: nat, start: nat, dst: array<Byte>)
    returns (log: Log)
    requires size > 0 && start <= from < to <= start + dst.Length
    requires forall n :: |mem(n)| == total
    requires to <= total && Fits(Loads(from - from % size, from, to, size), total)
    modifies dst
    ensures log == Loads(from - from % size, from, to, size)
    ensures Delivered(mem, clock, log, start, dst[..])
    ensures WritesOnly(old(dst[..]), dst[..], start, from, to)
  {
    FloorMultiple(from, size);
    log := CopyElements(mem, total, clock, from - from % size, from, to, size, start, dst);
  }

  // ----- the walk over the spans -----

  /** `spans` are the entries that overlap `[start, end)`, by start. */
  ghost predicate SpansOf(entries: seq<Entry>, spans: seq<Entry>, start: nat, end: nat) {
    && SortedByStart(spans)
    && (forall e :: e in spans <==> e in entries && Overlaps(e.range, Range(start, end)))
  }

  /** The first `i` spans end before `pos`, as far as `[start, end)` goes. */
  ghost predicate Passed(spans: seq<Entry>, i: nat, pos: nat, end: nat) {
    pos <= end && forall j :: 0 <= j < i && j < |spans| ==> spans[j].range.end <= pos || pos == end
  }

  /** No entry covers the bytes between `pos` and the next span. */
  lemma GapIsUncovered(entries: seq<Entry>, spans: seq<Entry>, i: nat, start: nat, pos: nat, to: nat, end: nat)
    requires SpansOf(entries, spans, start, end) && Passed(spans, i, pos, end) && i <= |spans|
    requires start <= pos <= to <= end && (i < |spans| ==> to <= spans[i].range.start)
    ensures Permitted(entries, Plain(Range(pos, to)))
  {
    forall x: nat, e | pos <= x < to && e in entries ensures !Covers(e.range, x) {
      if e in spans {
        var j :| 0 <= j < |spans| && spans[j] == e;
        assert j < i || spans[i].range.start <= spans[j].range.start;
      } else {
        assert !Overlaps(e.range, Range(start, end));
      }
    }
  }

  /** One load of a span is an aligned element of the live entry. */
  lemma SpanLoad(entries: seq<Entry>, total: nat, e: Entry, from: nat, to: nat, n: nat)
    requires e in entries && WellPlaced(e, total) && e.range.start <= from < to <= e.range.end
    requires n < |Loads(from - from % e.size, from, to, e.size)|
    ensures var a := Loads(from - from % e.size, from, to, e.size)[n];
            Permitted(entries, a) && a.Load? && a.elem + a.size <= total
  {
    FloorMultiple(from, e.size);
    var first := from - from % e.size;
    var a := Loads(first, from, to, e.size)[n];
    if first < e.range.start {
      NextMultiple(first, e.range.start, e.size);
    }
    LoadsAligned(first, from, to, e.size, n);
    NextMultiple(a.elem, e.range.end, e.size);
    assert ElementOf(e, a.elem);
  }

  lemma SpanLoads(entries: seq<Entry>, total: nat, e: Entry, from: nat, to: nat)
    requires e in entries && WellPlaced(e, total) && e.range.start <= from < to <= e.range.end
    ensures var log := Loads(from - from % e.size, from, to, e.size);
            && Fits(log, total) && Chain(log, from) && EndOf(log, from) == to
            && (forall n :: 0 <= n < |log| ==> Permitted(entries, log[n]))
  {
    FloorMultiple(from, e.size);
    var log := Loads(from - from % e.size, from, to, e.size);
    LoadsChain(from - from % e.size, from, to, e.size);
    forall n | 0 <= n < |log| ensures Permitted(entries, log[n]) && log[n].Load? && log[n].elem + log[n].size <= total {
      SpanLoad(entries, total, e, from, to, n);
    }
  }

  /** Elements that begin in this part of a span are loaded whole. */
  lemma SpanWhole(entries: seq<Entry>, total: nat, e: Entry, from: nat, to: nat, end: nat, f: Entry, x: nat)
    requires Admissible(entries, total) && e in entries && f in entries
    requires e.range.start <= from < to && to == (if e.range.end < end then e.range.end else end)
    requires ElementOf(f, x) && from <= x < to && x + f.size <= end
    ensures Load(Range(x, x + f.size), x, f.size) in Loads(from - from % e.size, from, to, e.size)
  {
    assert WellPlaced(e, total) && WellPlaced(f, total);
    assert Overlaps(e.range, f.range);
    FloorMultiple(from, e.size);
    NextMultiple(x, e.range.end, e.size);
    LoadsWhole(from - from % e.size, from, to, e.size, x);
  }

  /** Two walks one after the other. */
  lemma WalksJoin(mem: History, a: Log, b: Log, from: nat, start: nat, to: nat,
                  before: seq<Byte>, after: seq<Byte>)
    requires Chain(a, from) && Chain(b, EndOf(a, from)) && EndOf(b, EndOf(a, from)) == to
    requires Delivered(mem, 0, a, start, before) && Delivered(mem, |a|, b, start, after)
    requires WritesOnly(before, after, start, EndOf(a, from), to)
    ensures Chain(a + b, from) && EndOf(a + b, from) == to
    ensures Delivered(mem, 0, a + b, start, after)
  {
    ChainJoins(a, b, from);
    forall n | 0 <= n < |a + b|
      ensures Took(mem(0 + n), (a + b)[n].range.start, (a + b)[n].range.end, start, after)
    {
      if n < |a| {
        assert Took(mem(0 + n), a[n].range.start, a[n].range.end, start, before);
        ChainBounds(a, from, n);
      } else {
        assert Took(mem(|a| + (n - |a|)), b[n - |a|].range.start, b[n - |a|].range.end, start, after);
      }
    }
  }

  /** What the walk has done up to `pos`. */
  ghost predicate WalkedTo(mem: History, entries: seq<Entry>, log: Log,
                           start: nat, pos: nat, end: nat, dst: seq<Byte>)
  {
    && Chain(log, start) && EndOf(log, start) == pos
    && (forall n :: 0 <= n < |log| ==> Permitted(entries, log[n]))
    && Delivered(mem, 0, log, start, dst)
    && WholeElements(entries, log, start, pos, end)
  }

  lemma WalkPlain(mem: History, entries: seq<Entry>, log: Log, start: nat, pos: nat, to: nat, end: nat,
                  before: seq<Byte>, after: seq<Byte>)
    requires WalkedTo(mem, entries, log, start, pos, end, before) && pos < to
    requires Permitted(entries, Plain(Range(pos, to)))
    requires Took(mem(|log|), pos, to, start, after) && WritesOnly(before, after, start, pos, to)
    ensures WalkedTo(mem, entries, log + [Plain(Range(pos, to))], start, to, end, after)
  {
    AccessTaken(mem, 0, log, Plain(Range(pos, to)), start, start, before, after);
    forall e, x: nat | e in entries && ElementOf(e, x) && start <= x < to && x + e.size <= end
      ensures Load(Range(x, x + e.size), x, e.size) in log
    {
      if pos <= x {
        assert Covers(Range(pos, to), x) && Covers(e.range, x);
      }
    }
  }

  /** All elements that begin in this part of a span. */
  lemma SpanIsWhole(entries: seq<Entry>, total: nat, e: Entry, from: nat, to: nat, end: nat)
    requires Admissible(entries, total) && e in entries && e.size > 0
    requires e.range.start <= from < to && to == (if e.range.end < end then e.range.end else end)
    ensures WholeElements(entries, Loads(from - from % e.size, from, to, e.size), from, to, end)
  {
    var more := Loads(from - from % e.size, from, to, e.size);
    forall f, x: nat | f in entries && ElementOf(f, x) && from <= x < to && x + f.size <= end
      ensures Load(Range(x, x + f.size), x, f.size) in more
    {
      SpanWhole(entries, total, e, from, to, end, f, x);
    }
  }

  lemma WholeJoins(entries: seq<Entry>, log: Log, more: Log, start: nat, pos: nat, to: nat, end: nat)
    requires WholeElements(entries, log, start, pos, end) && WholeElements(entries, more, pos, to, end)
    ensures WholeElements(entries, log + more, start, to, end)
  {
  }

  lemma WalkSpan(mem: History, entries: seq<Entry>, log: Log, more: Log,
                 start: nat, pos: nat, to: nat, end: nat, before: seq<Byte>, after: seq<Byte>)
    requires WalkedTo(mem, entries, log, start, pos, end, before)
    requires Chain(more, pos) && EndOf(more, pos) == to
    requires forall n :: 0 <= n < |more| ==> Permitted(entries, more[n])
    requires WholeElements(entries, more, pos, to, end)
    requires Delivered(mem, |log|, more, start, after) && WritesOnly(before, after, start, pos, to)
    ensures WalkedTo(mem, entries, log + more, start, to, end, after)
  {
    WalksJoin(mem, log, more, start, start, to, before, after);
    WholeJoins(entries, log, more, start, pos, to, end);
  }

  /** The bytes before the next span, copied plainly. */
  method CopyGap(mem: History, ghost total: nat, ghost entries: seq<Entry>, log: Log,
                 start: nat, pos: nat, to: nat, ghost end: nat, dst: array<Byte>)
    returns (log': Log)
    requires forall n :: |mem(n)| == total
    requires start <= pos < to <= end && end == start + dst.Length && end <= total
    requires Permitted(entries, Plain(Range(pos, to)))
    requires WalkedTo(mem, entries, log, start, pos, end, dst[..])
    modifies dst
    ensures WalkedTo(mem, entries, log', start, to, end, dst[..])
  {
    ghost var before := dst[..];
    PlainCopy(mem(|log|), pos, to, start, dst);
    WalkPlain(mem, entries, log, start, pos, to, end, before, dst[..]);
    log' := log + [Plain(Range(pos, to))];
  }

  /** The bytes of one span, loaded element by element. */
  method CopySpan(mem: History, ghost total: nat, ghost entries: seq<Entry>, span: Entry, log: Log,
                  start: nat, pos: nat, to: nat, ghost end: nat, dst: array<Byte>)
    returns (log': Log)
    requires forall n :: |mem(n)| == total
    requires Admissible(entries, total) && span in entries && span.size > 0
    requires start <= pos < to <= end && end == start + dst.Length && end <= total
    requires span.range.start <= pos && to == (if span.range.end < end then span.range.end else end)
    requires WalkedTo(mem, entries, log, start, pos, end, dst[..])
    modifies dst
    ensures WalkedTo(mem, entries, log', start, to, end, dst[..])
  {
    ghost var before := dst[..];
    SpanLoads(entries, total, span, pos, to);
    var more := AtomicCopy(mem, total, |log|, pos, to, span.size, start, dst);
    SpanIsWhole(entries, total, span, pos, to, end);
    WalkSpan(mem, entries, log, more, start, pos, to, end, before, dst[..]);
    log' := log + more;
  }

  lemma WalkBegins(mem: History, entries: seq<Entry>, start: nat, end: nat, dst: seq<Byte>)
    ensures WalkedTo(mem, entries, [], start, start, end, dst)
  {
  }

  function SpansIn(entries: seq<Entry>, start: nat, end: nat): (spans: seq<Entry>)
    ensures SpansOf(entries, spans, start, end)
  {
    if entries == [] then [] else SortByStart(Overlapping(entries, Range(start, end)))
  }

  /** The body of the walk's loop: the gap before span `i`, then the span itself. */
  method VisitSpan(mem: History, ghost total: nat, ghost entries: seq<Entry>, spans: seq<Entry>, i: nat,
                   log: Log, start: nat, pos: nat, end: nat, dst: array<Byte>)
    returns (log': Log, pos': nat)
    requires forall n :: |mem(n)| == total
    requires Admissible(entries, total) && SpansOf(entries, spans, start, end) && i < |spans|
    requires start <= pos && end == start + dst.Length && end <= total && Passed(spans, i, pos, end)
    requires WalkedTo(mem, entries, log, start, pos, end, dst[..])
    modifies dst
    ensures pos <= pos' && Passed(spans, i + 1, pos', end)
    ensures WalkedTo(mem, entries, log', start, pos', end, dst[..])
  {
    log', pos' := log, pos;
    var span := spans[i];
    assert span in spans;
    assert WellPlaced(span, total);
    if span.range.start > pos' {
      var plainTo := if span.range.start < end then span.range.start else end;
      GapIsUncovered(entries, spans, i, start, pos', plainTo, end);
      log' := CopyGap(mem, total, entries, log', start, pos', plainTo, end, dst);
      pos' := plainTo;
    }
    var atomicTo := if span.range.end < end then span.range.end else end;
    if pos' < atomicTo {
      log' := CopySpan(mem, total, entries, span, log', start, pos', atomicTo, end, dst);
      pos' := atomicTo;
    }
  }

  /**
   Copies `dst.Length` bytes at mapping offset `start`, while memory keeps
   changing under live atomic views. Every byte is written by exactly one
   access (`Chain`, see `TakenOnce`); a byte is read plainly only if no
   live entry covers it; every load is an aligned element inside a live
   entry of that size; and each element that lies in the range is taken
   from a single load.
   */
  method CopyOut(mem: History, ghost total: nat, entries: seq<Entry>, start: nat, dst: array<Byte>)
    returns (log: Log)
    requires Admissible(entries, total) && StableOutside(mem, entries, total)
    requires start + dst.Length <= total
    modifies dst
    ensures var end := start + dst.Length; WalkedTo(mem, entries, log, start, end, end, dst[..])
  {
    var end := start + dst.Length;
    var spans := SpansIn(entries, start, end);
    var pos := start;
    log := [];
    WalkBegins(mem, entries, start, end, dst[..]);
    var i := 0;
    while i < |spans|
      invariant 0 <= i <= |spans| && start <= pos
      invariant Passed(spans, i, pos, end)
      invariant WalkedTo(mem, entries, log, start, pos, end, dst[..])
    {
      log, pos := VisitSpan(mem, total, entries, spans, i, log, start, pos, end, dst);
      i := i + 1;
    }
    if pos < end {
      GapIsUncovered(entries, spans, i, start, pos, end, end);
      log := CopyGap(mem, total, entries, log, start, pos, end, end, dst);
    }
  }

  // ----- what the reader gets -----

  /** Bytes under no live view arrive as they were and still are. */
  lemma UncoveredByteUnchanged(mem: History, entries: seq<Entry>, total: nat, log: Log,
                               start: nat, end: nat, dst: seq<Byte>, x: nat)
    requires StableOutside(mem, entries, total) && WalkedTo(mem, entries, log, start, end, end, dst)
    requires start <= x < end <= total && end == start + |dst| && !Covered(entries, x)
    ensures dst[x - start] == mem(0)[x]
  {
    TakenOnce(log, start, x);
    var n :| 0 <= n < |log| && Covers(log[n].range, x);
    assert Took(mem(0 + n), log[n].range.start, log[n].range.end, start, dst);
    assert dst[x - start] == mem(n)[x - start + start];
  }

  /** No tearing: an element inside the range arrives as it was at one moment. */
  lemma ElementArrivesWhole(mem: History, entries: seq<Entry>, log: Log, start: nat, end: nat,
                            dst: seq<Byte>, e: Entry, x: nat)
    requires WalkedTo(mem, entries, log, start, end, end, dst) && end == start + |dst|
    requires e in entries && ElementOf(e, x) && start <= x && x + e.size <= end
    ensures exists n :: 0 <= n < |log| && x + e.size <= |mem(n)|
                        && dst[x - start..x - start + e.size] == AtomicLoad(mem(n), x, e.size)
  {
    assert Load(Range(x, x + e.size), x, e.size) in log;
    var n :| 0 <= n < |log| && log[n] == Load(Range(x, x + e.size), x, e.size);
    assert Took(mem(0 + n), x, x + e.size, start, dst);
    assert mem(0 + n) == mem(n);
    assert dst[x - start..x - start + e.size] == AtomicLoad(mem(n), x, e.size);
  }

  /** With no stores in progress the copy is the mapping's bytes. */
  lemma QuietCopyIsExact(mem: History, entries: seq<Entry>, total: nat, log: Log,
                         start: nat, end: nat, dst: seq<Byte>)
    requires WalkedTo(mem, entries, log, start, end, end, dst)
    requires end == start + |dst| && end <= total && |mem(0)| == total
    requires forall n :: mem(n) == mem(0)
    ensures dst == mem(0)[start..end]
  {
    forall k | 0 <= k < |dst| ensures dst[k] == mem(0)[start..end][k] {
      TakenOnce(log, start, start + k);
      var n :| 0 <= n < |log| && Covers(log[n].range, start + k);
      assert Took(mem(0 + n), log[n].range.start, log[n].range.end, start, dst);
      assert mem(0 + n) == mem(0);
    }
  }

  // ----- faulting pages in -----

  /** One byte read, or one element loaded, for offset `off`. */
  datatype Touch = ByteAt(off: nat) | ElementAt(off: nat, elem: nat, size: nat)

  ghost predicate TouchAllowed(entries: seq<Entry>, t: Touch) {
    match t
    case ByteAt(off) => !Covered(entries, off)
    case ElementAt(off, elem, size) =>
      && (exists e :: e in entries && e.size == size && ElementOf(e, elem))
      && elem <= off < elem + size
  }

  function Find(entries: seq<Entry>, off: nat): (r: Option<Entry>)
    ensures r.Some? ==> r.value in entries && Covers(r.value.range, off)
    ensures r.None? ==> !Covered(entries, off)
  {
    if entries == [] then None
    else if Covers(entries[0].range, off) then Some(entries[0])
    else
      assert entries == [entries[0]] + entries[1..];
      Find(entries[1..], off)
  }

  function TouchAt(entries: seq<Entry>, off: nat): Touch
    requires forall e :: e in entries ==> e.size > 0
  {
    var found := Find(entries, off);
    if found.Some? then ElementAt(off, off - off % found.value.size, found.value.size) else ByteAt(off)
  }

  lemma ElementAround(e: Entry, total: nat, off: nat)
    requires WellPlaced(e, total) && Covers(e.range, off)
    ensures ElementOf(e, off - off % e.size) && off - off % e.size <= off < off - off % e.size + e.size
  {
    FloorMultiple(off, e.size);
    var elem := off - off % e.size;
    NextMultiple(elem, e.range.end, e.size);
    if elem < e.range.start {
      NextMultiple(elem, e.range.start, e.size);
    }
  }

  lemma TouchAtAllowed(entries: seq<Entry>, total: nat, off: nat)
    requires Admissible(entries, total)
    ensures (forall e :: e in entries ==> e.size > 0) && TouchAllowed(entries, TouchAt(entries, off))
  {
    forall e | e in entries ensures e.size > 0 {
      assert WellPlaced(e, total);
    }
    var found := Find(entries, off);
    if found.Some? {
      ElementAround(found.value, total, off);
    }
  }

  function NextOff(touches: seq<Touch>, start: nat, page: nat): nat {
    if touches == [] then start else touches[|touches| - 1].off + page
  }

  /** One touch per page length, from `start` on. */
  ghost predicate Stride(touches: seq<Touch>, start: nat, page: nat) {
    touches == [] ||
    var before := touches[..|touches| - 1];
    Stride(before, start, page) && touches[|touches| - 1].off == NextOff(before, start, page)
  }

  ghost predicate Near(touches: seq<Touch>, x: nat, page: nat) {
    exists n :: 0 <= n < |touches| && touches[n].off <= x < touches[n].off + page
  }

  /** A stride leaves no page length untouched. */
  lemma {:induction false} StrideReaches(touches: seq<Touch>, start: nat, page: nat, x: nat)
    requires Stride(touches, start, page) && start <= x < NextOff(touches, start, page)
    ensures Near(touches, x, page)
  {
    var before, last := touches[..|touches| - 1], touches[|touches| - 1];
    if x < last.off {
      StrideReaches(before, start, page, x);
      var n :| 0 <= n < |before| && before[n].off <= x < before[n].off + page;
      assert touches[n].off <= x < touches[n].off + page;
    }
  }

  /** The page that holds byte `x` is touched. */
  ghost predicate PageTouched(touches: seq<Touch>, x: nat, page: nat)
    requires page > 0
  {
    exists n :: 0 <= n < |touches| && touches[n].off / page == x / page
  }

  lemma {:induction false} StrideAligned(touches: seq<Touch>, start: nat, page: nat, n: nat)
    requires page > 0 && start % page == 0 && Stride(touches, start, page) && n < |touches|
    ensures touches[n].off % page == 0
  {
    var before := touches[..|touches| - 1];
    if n < |touches| - 1 {
      StrideAligned(before, start, page, n);
    } else if before != [] {
      StrideAligned(before, start, page, |before| - 1);
      StepMultiple(before[|before| - 1].off, page);
    }
  }

  lemma SamePage(off: nat, x: nat, page: nat)
    requires page > 0 && off % page == 0 && off <= x < off + page
    ensures off / page == x / page
  {
    var q := off / page;
    assert off == q * page && x == q * page + (x - off);
    DivModUnique(x, q, x - off, page);
  }

  /** From a page boundary a stride of one page touches every page. */
  lemma StrideReachesPages(touches: seq<Touch>, start: nat, page: nat, x: nat)
    requires page > 0 && start % page == 0 && Stride(touches, start, page)
    requires start <= x < NextOff(touches, start, page)
    ensures PageTouched(touches, x, page)
  {
    StrideReaches(touches, start, page, x);
    var n :| 0 <= n < |touches| && touches[n].off <= x < touches[n].off + page;
    StrideAligned(touches, start, page, n);
    SamePage(touches[n].off, x, page);
  }

  /**
   Touches one offset in every stretch of `page` bytes of the range, and
   so every page if it starts on one: a byte where no live view is, an
   aligned element of a live view elsewhere.
   */
  method TouchPages(entries: seq<Entry>, ghost total: nat, start: nat, len: nat, page: nat)
    returns (touches: seq<Touch>)
    requires Admissible(entries, total) && start + len <= total
    ensures page == 0 ==> touches == []
    ensures Stride(touches, start, page)
    ensures forall n :: 0 <= n < |touches| ==>
      TouchAllowed(entries, touches[n]) && start <= touches[n].off < start + len
    ensures page > 0 ==> forall x: nat {:trigger Near(touches, x, page)} ::
      start <= x < start + len ==> Near(touches, x, page)
    ensures page > 0 && start % page == 0 ==> forall x: nat {:trigger PageTouched(touches, x, page)} ::
      start <= x < start + len ==> PageTouched(touches, x, page)
  {
    touches := [];
    if len == 0 || page == 0 {
      return;
    }
    var off := start;
    while off < start + len
      invariant start <= off && off == NextOff(touches, start, page)
      invariant Stride(touches, start, page)
      invariant forall n :: 0 <= n < |touches| ==>
        TouchAllowed(entries, touches[n]) && start <= touches[n].off < start + len
      decreases if off < start + len then start + len - off else 0
    {
      TouchAtAllowed(entries, total, off);
      var touch := TouchAt(entries, off);
      assert (touches + [touch])[..|touches|] == touches;
      touches := touches + [touch];
      off := off + page;
    }
    forall x: nat | start <= x < start + len ensures Near(touches, x, page) {
      StrideReaches(touches, start, page, x);
    }
    if start % page == 0 {
      forall x: nat | start <= x < start + len ensures PageTouched(touches, x, page) {
        StrideReachesPages(touches, start, page, x);
      }
    }
  }

  /** `touch_pages_range`: every page that holds a byte of the range, from the first page's start. */
  method TouchPagesRange(entries: seq<Entry>, total: U64, offset: U64, len: U64, page: nat)
    returns (error: Option<Error>, touches: seq<Touch>)
    requires Admissible(entries, total) && page > 0
    ensures error == if len == 0 || offset + len <= total then None else Some(OutOfBounds(offset, len, total))
    ensures error.None? && len > 0 ==> forall x: nat {:trigger PageTouched(touches, x, page)} ::
      offset <= x < offset + len ==> PageTouched(touches, x, page)
    ensures error.Some? ==> touches == []
    ensures forall n :: 0 <= n < |touches| ==>
      TouchAllowed(entries, touches[n]) && touches[n].off < offset + len <= total
  {
    touches := [];
    if len == 0 {
      return None, touches;
    }
    SliceRangeExact(offset, len, total, U64_MAX);
    var range := SliceRange(offset, len, total);
    if range.Err? {
      return Some(range.error), touches;
    }
    FloorMultiple(range.value.start, page);
    var firstPage := range.value.start - range.value.start % page;
    touches := TouchPages(entries, total, firstPage, range.value.end - firstPage, page);
    return None, touches;
  }
}
