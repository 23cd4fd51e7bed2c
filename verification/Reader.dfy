/**
 The cursor `MmapReader` (`src/mmap.rs`) over a mapping that does not
 change: `read`, `seek`, `set_position`, `fill_buf` and `consume`, in the
 zero-copy form and in the form with an inline buffer, against a plain
 position in a sequence of bytes.
 */
module Readers {
  import opened Ranges
  import opened Bounds

  const READER_BUF_LEN: nat := 4096

  type I64 = x: int | -0x8000_0000_0000_0000 <= x < 0x8000_0000_0000_0000

  datatype SeekFrom = Start(n: U64) | End(delta: I64) | Current(delta: I64)

  datatype Op =
    | Read(n: U64)
    | Seek(from: SeekFrom)
    | SetPosition(to: U64)
    | FillBuf
    | Consume(n: U64)

  datatype Answer = Data(bytes: seq<Byte>) | Position(at: U64) | Failed(error: Error) | Done

  // ----- the reference: a position in a sequence of bytes -----

  /** What is left from `pos` on. */
  function Rest(bytes: seq<Byte>, pos: nat): seq<Byte> {
    bytes[Min(pos, |bytes|)..]
  }

  function Target(len: nat, pos: nat, from: SeekFrom): int {
    match from
    case Start(n) => n
    case End(delta) => len + delta
    case Current(delta) => pos + delta
  }

  /** Where the cursor goes, in unbounded arithmetic. */
  function Moved(bytes: Bytes, pos: U64, op: Op): U64 {
    match op
    case Read(n) => if pos < |bytes| then Min(pos + n, |bytes|) else pos
    case Seek(from) =>
      var target := Target(|bytes|, pos, from);
      if 0 <= target < U64_LIMIT then target else pos
    case SetPosition(to) => to
    case FillBuf => pos
    case Consume(n) => Min(pos + n, U64_MAX)
  }

  /** The answers a cursor may give; only the length of a filled buffer is left open. */
  predicate Right(bytes: Bytes, pos: U64, op: Op, answer: Answer) {
    match op
    case Read(n) => answer == Data(Rest(bytes, pos)[..Min(n, |Rest(bytes, pos)|)])
    case Seek(from) =>
      var target := Target(|bytes|, pos, from);
      answer == if 0 <= target < U64_LIMIT then Position(target) else Failed(InvalidInput)
    case SetPosition(_) => answer == Done
    case FillBuf =>
      answer.Data? && answer.bytes <= Rest(bytes, pos) && (answer.bytes == [] <==> pos >= |bytes|)
    case Consume(_) => answer == Done
  }

  function CursorAfter(bytes: Bytes, ops: seq<Op>): U64 {
    if ops == [] then 0 else Moved(bytes, CursorAfter(bytes, ops[..|ops| - 1]), ops[|ops| - 1])
  }

  /** `unsigned_abs`. */
  function Magnitude(delta: I64): U64 {
    if delta >= 0 then delta else -(delta as int)
  }

  // ----- the reader as a value -----

  /** `buffered` is the filled part of the buffer. */
  datatype State = State(pos: U64, bufStart: U64, buffered: seq<Byte>) {

    /** The buffer holds the file's bytes at the place it claims. */
    ghost predicate Valid(bytes: Bytes) {
      && |buffered| <= READER_BUF_LEN
      && bufStart + |buffered| <= |bytes|
      && buffered == bytes[bufStart..bufStart + |buffered|]
    }
  }

  const FRESH := State(0, 0, [])

  function DoRead(bytes: Bytes, s: State, n: U64): (State, Answer) {
    if s.pos >= |bytes| then (s.(buffered := []), Data([]))
    else
      var want := Min(n, |bytes| - s.pos);
      (s.(pos := s.pos + want, buffered := []), Data(bytes[s.pos..s.pos + want]))
  }

  function DoSeek(bytes: Bytes, s: State, from: SeekFrom): (State, Answer) {
    var cleared := s.(buffered := []);
    if from.Start? then (cleared.(pos := from.n), Position(from.n))
    else
      var base: U64 := if from.End? then |bytes| else s.pos;
      var to := if from.delta >= 0 then CheckedAdd(base, Magnitude(from.delta))
                else CheckedSub(base, Magnitude(from.delta));
      if to.Some? then (cleared.(pos := to.value), Position(to.value)) else (cleared, Failed(InvalidInput))
  }

  /**
   Zero-copy, the rest of the mapping; else the buffer, filled again when
   it is empty or does not hold the position.
   */
  function DoFill(bytes: Bytes, zeroCopy: bool, s: State): (State, seq<Byte>) {
    if zeroCopy then (s, bytes[Min(s.pos, |bytes|)..])
    else if |s.buffered| == 0 || s.pos < s.bufStart || s.pos >= s.bufStart + |s.buffered| then
      if s.pos >= |bytes| then (s.(buffered := []), [])
      else
        var filled := bytes[s.pos..s.pos + Min(|bytes| - s.pos, READER_BUF_LEN)];
        (State(s.pos, s.pos, filled), filled)
    else
      (s, s.buffered[s.pos - s.bufStart..])
  }

  function DoConsume(s: State, n: U64): State {
    s.(pos := SaturatingAdd(s.pos, n))
  }

  function Do(bytes: Bytes, zeroCopy: bool, s: State, op: Op): (State, Answer) {
    match op
    case Read(n) => DoRead(bytes, s, n)
    case Seek(from) => DoSeek(bytes, s, from)
    case SetPosition(to) => (s.(pos := to, buffered := []), Done)
    case FillBuf =>
      var (filled, lent) := DoFill(bytes, zeroCopy, s);
      (filled, Data(lent))
    case Consume(n) => (DoConsume(s, n), Done)
  }

  // ----- the reader in place -----

  class MmapReader {
    const bytes: Bytes
    const zeroCopy: bool
    const buf: array<Byte>
    var pos: U64
    var bufStart: U64
    var bufLen: nat

    ghost function Model(): State
      reads this, buf
      requires bufLen <= buf.Length
    {
      State(pos, bufStart, buf[..bufLen])
    }

    ghost predicate Valid()
      reads this, buf
    {
      buf.Length == READER_BUF_LEN && bufLen <= buf.Length && Model().Valid(bytes)
    }

    constructor (bytes: Bytes, zeroCopy: bool)
      ensures Valid() && fresh(buf) && Model() == FRESH
      ensures this.bytes == bytes && this.zeroCopy == zeroCopy
    {
      this.bytes, this.zeroCopy := bytes, zeroCopy;
      buf := new Byte[READER_BUF_LEN](_ => 0);
      pos, bufStart, bufLen := 0, 0, 0;
    }

    /** `read_into` for a range inside the mapping. */
    method CopyInto(at: nat, n: nat, dst: array<Byte>)
      requires at + n <= |bytes| && n <= dst.Length
      modifies dst
      ensures dst[..n] == bytes[at..at + n] && dst[n..] == old(dst[n..])
    {
      forall k | 0 <= k < n {
        dst[k] := bytes[at + k];
      }
    }

    method Read(dst: array<Byte>) returns (n: nat)
      requires Valid() && dst != buf && dst.Length < U64_LIMIT
      modifies this, dst
      ensures Valid() && n <= dst.Length && dst[n..] == old(dst[n..])
      ensures (Model(), Data(dst[..n])) == Do(bytes, zeroCopy, old(Model()), Op.Read(dst.Length))
    {
      bufLen := 0;
      var total := |bytes|;
      if pos >= total {
        return 0;
      }
      var want := Min(dst.Length, total - pos);
      if want == 0 {
        assert dst[..0] == bytes[pos..pos + want];
        return 0;
      }
      assert SliceRange(pos, want, total).Ok?;
      CopyInto(pos, want, dst);
      pos := pos + want;
      return want;
    }

    method Seek(from: SeekFrom) returns (r: Result<U64>)
      requires Valid()
      modifies this
      ensures Valid()
      ensures (Model(), if r.Ok? then Position(r.value) else Failed(r.error))
              == Do(bytes, zeroCopy, old(Model()), Op.Seek(from))
    {
      bufLen := 0;
      var base: U64, delta: I64 := 0, 0;
      match from {
        case Start(n) =>
          pos := n;
          return Ok(n);
        case End(d) => base, delta := |bytes|, d;
        case Current(d) => base, delta := pos, d;
      }
      var newPos := if delta >= 0 then CheckedAdd(base, Magnitude(delta)) else CheckedSub(base, Magnitude(delta));
      if newPos.None? {
        return Err(InvalidInput);
      }
      pos := newPos.value;
      return Ok(pos);
    }

    method SetPosition(to: U64)
      requires Valid()
      modifies this
      ensures Valid()
      ensures (Model(), Done) == Do(bytes, zeroCopy, old(Model()), Op.SetPosition(to))
    {
      bufLen := 0;
      pos := to;
    }

    method FillBuf() returns (lent: seq<Byte>)
      requires Valid()
      modifies this, buf
      ensures Valid()
      ensures (Model(), Data(lent)) == Do(bytes, zeroCopy, old(Model()), Op.FillBuf)
    {
      if zeroCopy {
        return bytes[Min(pos, |bytes|)..];
      }
      if bufLen == 0 || pos < bufStart || pos >= bufStart + bufLen {
        bufLen := 0;
        var total := |bytes|;
        if pos >= total {
          return [];
        }
        var n := Min(total - pos, READER_BUF_LEN);
        assert SliceRange(pos, n, total).Ok?;
        CopyInto(pos, n, buf);
        bufStart, bufLen := pos, n;
      }
      return buf[pos - bufStart..bufLen];
    }

    method Consume(n: U64)
      requires Valid()
      modifies this
      ensures Valid()
      ensures (Model(), Done) == Do(bytes, zeroCopy, old(Model()), Op.Consume(n))
    {
      pos := SaturatingAdd(pos, n);
    }
  }

  // ----- any interleaving of calls -----

  function After(bytes: Bytes, zeroCopy: bool, ops: seq<Op>): State {
    if ops == [] then FRESH else Do(bytes, zeroCopy, After(bytes, zeroCopy, ops[..|ops| - 1]), ops[|ops| - 1]).0
  }

  /** The answer to the last call of a run. */
  function LastAnswer(bytes: Bytes, zeroCopy: bool, ops: seq<Op>): Answer
    requires ops != []
  {
    Do(bytes, zeroCopy, After(bytes, zeroCopy, ops[..|ops| - 1]), ops[|ops| - 1]).1
  }

  lemma BufferedIsRest(bytes: Bytes, s: State)
    requires s.Valid(bytes) && s.bufStart <= s.pos < s.bufStart + |s.buffered|
    ensures s.buffered[s.pos - s.bufStart..] <= Rest(bytes, s.pos)
  {
    var lent, rest := s.buffered[s.pos - s.bufStart..], Rest(bytes, s.pos);
    assert |lent| <= |rest|;
    forall k | 0 <= k < |lent| ensures lent[k] == rest[k] {
      assert lent[k] == s.buffered[s.pos - s.bufStart + k] == bytes[s.pos + k];
    }
  }

  /** What `fill_buf` lends begins at the position and is empty only at the end. */
  lemma FillLendsRest(bytes: Bytes, zeroCopy: bool, s: State)
    requires s.Valid(bytes)
    ensures var (s', lent) := DoFill(bytes, zeroCopy, s);
            && s'.Valid(bytes) && s'.pos == s.pos
            && lent <= Rest(bytes, s.pos) && (lent == [] <==> s.pos >= |bytes|)
  {
    if !zeroCopy && s.bufStart <= s.pos < s.bufStart + |s.buffered| {
      BufferedIsRest(bytes, s);
    }
  }

  /** The position is in the buffered part of the file. */
  predicate Holds(s: State) {
    s.bufStart <= s.pos < s.bufStart + |s.buffered|
  }

  /**
   How much `fill_buf` lends: zero-copy, all the rest; else up to the end of
   the buffer, which stays as it is while it holds the position and is
   otherwise filled with as much of the rest as it takes.
   */
  lemma FillLendsAll(bytes: Bytes, zeroCopy: bool, s: State)
    requires s.Valid(bytes)
    ensures var (s', lent) := DoFill(bytes, zeroCopy, s);
            if zeroCopy then s' == s && lent == Rest(bytes, s.pos)
            else if Holds(s) then s' == s && s.pos + |lent| == s.bufStart + |s.buffered|
            else |lent| == Min(READER_BUF_LEN, |Rest(bytes, s.pos)|) && s'.buffered == lent
  {
    FillLendsRest(bytes, zeroCopy, s);
  }

  /** One call keeps the buffer honest, moves as the cursor does, and answers right. */
  lemma CallAgrees(bytes: Bytes, zeroCopy: bool, s: State, op: Op)
    requires s.Valid(bytes)
    ensures var (s', answer) := Do(bytes, zeroCopy, s, op);
            s'.Valid(bytes) && s'.pos == Moved(bytes, s.pos, op) && Right(bytes, s.pos, op, answer)
  {
    if op.FillBuf? {
      FillLendsRest(bytes, zeroCopy, s);
    }
  }

  /**
   Over any interleaving of calls, in either form, the reader stands where
   a plain cursor stands, and every answer is one the cursor gives.
   */
  lemma {:induction false} AgreesWithCursor(bytes: Bytes, zeroCopy: bool, ops: seq<Op>)
    ensures After(bytes, zeroCopy, ops).Valid(bytes)
    ensures After(bytes, zeroCopy, ops).pos == CursorAfter(bytes, ops)
    ensures ops != [] ==>
              Right(bytes, CursorAfter(bytes, ops[..|ops| - 1]), ops[|ops| - 1], LastAnswer(bytes, zeroCopy, ops))
  {
    if ops != [] {
      var before := ops[..|ops| - 1];
      AgreesWithCursor(bytes, zeroCopy, before);
      CallAgrees(bytes, zeroCopy, After(bytes, zeroCopy, before), ops[|ops| - 1]);
    }
  }

  /** `read`, `seek` and `set_position` discard the buffer; `consume` and zero-copy reads leave it. */
  lemma CallsDiscardBuffer(bytes: Bytes, zeroCopy: bool, s: State, op: Op)
    ensures op.Read? || op.Seek? || op.SetPosition? ==> Do(bytes, zeroCopy, s, op).0.buffered == []
    ensures op.Consume? || (op.FillBuf? && zeroCopy) ==> Do(bytes, zeroCopy, s, op).0.buffered == s.buffered
  {
  }

  /** A seek that fails leaves the position where it was. */
  lemma FailedSeekStays(bytes: Bytes, zeroCopy: bool, ops: seq<Op>, from: SeekFrom)
    requires LastAnswer(bytes, zeroCopy, ops + [Seek(from)]).Failed?
    ensures CursorAfter(bytes, ops + [Seek(from)]) == CursorAfter(bytes, ops)
    ensures After(bytes, zeroCopy, ops + [Seek(from)]).pos == After(bytes, zeroCopy, ops).pos
  {
    assert (ops + [Seek(from)])[..|ops|] == ops;
    AgreesWithCursor(bytes, zeroCopy, ops + [Seek(from)]);
    AgreesWithCursor(bytes, zeroCopy, ops);
  }

  /** The two forms stand at the same place and give the same bytes, except that a filled buffer may be shorter. */
  lemma FormsAgree(bytes: Bytes, ops: seq<Op>)
    requires ops != []
    ensures After(bytes, true, ops).pos == After(bytes, false, ops).pos
    ensures var zero, buffered := LastAnswer(bytes, true, ops), LastAnswer(bytes, false, ops);
            if ops[|ops| - 1].FillBuf? then
              zero.Data? && buffered.Data? && buffered.bytes <= zero.bytes
              && (buffered.bytes == [] <==> zero.bytes == [])
            else zero == buffered
  {
    AgreesWithCursor(bytes, true, ops);
    AgreesWithCursor(bytes, false, ops);
  }

  // ----- reading a stream -----

  /** A caller takes bytes by `read`, or by `fill_buf` and `consume` of part of the buffer. */
  datatype Pull = ByRead(n: U64) | ByBuffer(n: U64)

  /** `consume` of up to `n` of the lent bytes, which the caller takes. */
  function TakeLent(filled: State, lent: seq<Byte>, n: U64): (State, seq<Byte>) {
    (DoConsume(filled, Min(n, |lent|)), lent[..Min(n, |lent|)])
  }

  /** The reader after one pull, and the bytes the caller got. */
  function Pulled(bytes: Bytes, zeroCopy: bool, s: State, pull: Pull): (State, seq<Byte>) {
    match pull
    case ByRead(n) =>
      var (s', answer) := DoRead(bytes, s, n);
      (s', answer.bytes)
    case ByBuffer(n) =>
      var (filled, lent) := DoFill(bytes, zeroCopy, s);
      TakeLent(filled, lent, n)
  }

  /** The first of the lent bytes are the next bytes of the file. */
  lemma TakenIsNext(bytes: Bytes, pos: nat, lent: seq<Byte>, n: nat)
    requires pos <= |bytes| && n <= |lent| && lent <= Rest(bytes, pos)
    ensures pos + n <= |bytes| && lent[..n] == bytes[pos..pos + n]
  {
    var rest := Rest(bytes, pos);
    forall k | 0 <= k < n ensures lent[..n][k] == bytes[pos..pos + n][k] {
      assert lent[k] == rest[k] == bytes[pos + k];
    }
  }

  /** From position `pos` the reader has moved to `s'` and delivered the bytes in between. */
  ghost predicate Delivers(bytes: Bytes, pos: nat, s': State, got: seq<Byte>) {
    && s'.Valid(bytes)
    && s'.pos == pos + |got| <= |bytes| && got == bytes[pos..pos + |got|]
  }

  /** The lent bytes start at the position, so taking some of them moves to the first not taken. */
  lemma TakeAdvances(bytes: Bytes, filled: State, lent: seq<Byte>, n: U64)
    requires filled.Valid(bytes) && filled.pos <= |bytes| && lent <= Rest(bytes, filled.pos)
    ensures var (s', got) := TakeLent(filled, lent, n); Delivers(bytes, filled.pos, s', got)
    ensures n > 0 && lent != [] ==> TakeLent(filled, lent, n).1 != []
  {
    TakenIsNext(bytes, filled.pos, lent, Min(n, |lent|));
  }

  /** A pull delivers the next bytes, at least one while any are asked for and left. */
  lemma PullAdvances(bytes: Bytes, zeroCopy: bool, s: State, pull: Pull)
    requires s.Valid(bytes) && s.pos <= |bytes|
    ensures var (s', got) := Pulled(bytes, zeroCopy, s, pull);
            Delivers(bytes, s.pos, s', got) && (pull.n > 0 && s.pos < |bytes| ==> got != [])
  {
    match pull
    case ByRead(n) =>
    case ByBuffer(n) =>
      FillLendsRest(bytes, zeroCopy, s);
      var (filled, lent) := DoFill(bytes, zeroCopy, s);
      TakeAdvances(bytes, filled, lent, n);
  }

  /** The reader after the pulls, and all the bytes the caller got. */
  function Stream(bytes: Bytes, zeroCopy: bool, pulls: seq<Pull>): (State, seq<Byte>) {
    if pulls == [] then (FRESH, [])
    else
      var (s, got) := Stream(bytes, zeroCopy, pulls[..|pulls| - 1]);
      var (s', more) := Pulled(bytes, zeroCopy, s, pulls[|pulls| - 1]);
      (s', got + more)
  }

  lemma StreamGrows(bytes: Bytes, s: State, got: seq<Byte>, s': State, more: seq<Byte>)
    requires Delivers(bytes, 0, s, got) && Delivers(bytes, s.pos, s', more)
    ensures Delivers(bytes, 0, s', got + more)
  {
    assert bytes[0..s.pos] + bytes[s.pos..s'.pos] == bytes[0..s'.pos];
  }

  /** What the caller has got is the file up to the position. */
  lemma {:induction false} StreamDelivers(bytes: Bytes, zeroCopy: bool, pulls: seq<Pull>)
    ensures var (s, got) := Stream(bytes, zeroCopy, pulls); Delivers(bytes, 0, s, got)
  {
    if pulls != [] {
      var before, last := pulls[..|pulls| - 1], pulls[|pulls| - 1];
      StreamDelivers(bytes, zeroCopy, before);
      var (s, got) := Stream(bytes, zeroCopy, before);
      PullAdvances(bytes, zeroCopy, s, last);
      var (s', more) := Pulled(bytes, zeroCopy, s, last);
      StreamGrows(bytes, s, got, s', more);
    }
  }

  /** While bytes are left, each non-empty pull delivers at least one. */
  lemma {:induction false} StreamAdvances(bytes: Bytes, zeroCopy: bool, pulls: seq<Pull>)
    requires forall k :: 0 <= k < |pulls| ==> pulls[k].n > 0
    ensures |Stream(bytes, zeroCopy, pulls).1| >= Min(|pulls|, |bytes|)
  {
    if pulls != [] {
      var before, last := pulls[..|pulls| - 1], pulls[|pulls| - 1];
      StreamAdvances(bytes, zeroCopy, before);
      StreamDelivers(bytes, zeroCopy, before);
      PullAdvances(bytes, zeroCopy, Stream(bytes, zeroCopy, before).0, last);
      assert last.n > 0;
    }
  }

  /**
   However a caller mixes `read` with `fill_buf` and `consume`, it gets the
   file's bytes in order, none twice and none left out; as many non-empty
   pulls as the file has bytes deliver the whole file.
   */
  lemma StreamIsTheFile(bytes: Bytes, zeroCopy: bool, pulls: seq<Pull>)
    requires forall k :: 0 <= k < |pulls| ==> pulls[k].n > 0
    ensures |Stream(bytes, zeroCopy, pulls).1| >= Min(|pulls|, |bytes|)
    ensures Stream(bytes, zeroCopy, pulls).1 <= bytes
    ensures |pulls| >= |bytes| ==> Stream(bytes, zeroCopy, pulls).1 == bytes
  {
    StreamDelivers(bytes, zeroCopy, pulls);
    StreamAdvances(bytes, zeroCopy, pulls);
  }
}
