/**
 Flush accounting under concurrency (`src/mmap.rs`: `flush_mapped`,
 `count_update`, `record_write`; `src/atomic.rs`, `src/iterator.rs`: the
 places that record on drop).

 Every access to the two counters is one step, and so is the call that
 writes the pages back, which may fail. The mapping's lock is left out:
 it only forbids some of the interleavings below.

 Each call carries, besides its own state, where its recorded bytes are
 now (`place`) and the times of its last write and of its swap. No step
 depends on these; they are what the theorems speak about.
 */
module FlushLedger {

  datatype Policy =
    | Never            // also Manual and EveryMillis: no flush in the writer
    | Always
    | EveryBytes(n: nat)
    | EveryWrites(n: nat)

  datatype Place = Unrecorded | Pending | Taken(flush: nat) | Settled(flush: nat)

  datatype Pc =
    | Open                                     // may write
    | Wrote                                    // update: next, add to the byte counter
    | Added(pending: nat)                      // update: next, add to the write counter, decide
    | SwapBytes                                // flush: next, take the byte counter
    | SwapWrites(bytes: nat)                   // flush: next, take the write counter
    | Sync(bytes: nat, writes: nat)            // flush: next, write the pages back
    | RestoreBytes(bytes: nat, writes: nat)    // failed: next, give the bytes back
    | RestoreWrites(writes: nat)               // failed: next, give the writes back
    | End

  datatype Kind =
    | Update    // update_region, try_update_region
    | Holder    // MappedSliceMut, chunks_mut, an atomic view: records once, on release
    | Flush     // flush, or the time-based flusher's callback

  datatype Call = Call(
    kind: Kind, len: nat, pc: Pc,
    place: Place, written: bool, wroteAt: nat, swappedAt: nat, durable: bool)

  datatype Ledger = Ledger(
    policy: Policy,
    pending: nat,      // written_since_last_flush
    writes: nat,       // writes_since_last_flush
    clock: nat,
    failed: bool,      // some flush has failed
    calls: seq<Call>)

  function New(policy: Policy): Ledger {
    Ledger(policy, 0, 0, 0, false, [])
  }

  datatype Event =
    | Begin(kind: Kind, len: nat)
    | Write(call: nat)             // bytes stored while the call is open
    | Reject(call: nat)            // an update that is out of bounds
    | Step(call: nat, ok: bool)    // the next step; `ok` is the result of the write-back

  predicate Happens(s: Ledger, e: Event) {
    match e
    case Begin(_, _) => true
    case Write(i) => i < |s.calls| && s.calls[i].pc.Open? && !s.calls[i].kind.Flush? && s.calls[i].len > 0
    case Reject(i) => i < |s.calls| && s.calls[i].pc.Open? && s.calls[i].kind.Update?
    case Step(i, _) =>
      && i < |s.calls| && !s.calls[i].pc.End?
      && (s.calls[i].pc.Open? ==> s.calls[i].kind.Holder?)
  }

  function Set(s: Ledger, i: nat, c: Call): Ledger
    requires i < |s.calls|
  {
    s.(calls := s.calls[i := c])
  }

  function Moved(c: Call, from: Place, to: Place): Call {
    if c.place == from then c.(place := to) else c
  }

  /** All bytes at `from` are now at `to`. */
  function Relabel(calls: seq<Call>, from: Place, to: Place): seq<Call> {
    seq(|calls|, i requires 0 <= i < |calls| => Moved(calls[i], from, to))
  }

  /** The policy's decision from the two values the update's additions returned. */
  predicate AsksFlush(policy: Policy, pending: nat, writes: nat) {
    match policy
    case Never => false
    case Always => true
    case EveryBytes(n) => n > 0 && pending >= n
    case EveryWrites(n) => n > 0 && writes >= n
  }

  function Advance(s: Ledger, i: nat, ok: bool): Ledger
    requires Happens(s, Step(i, ok))
  {
    var c := s.calls[i];
    match c.pc
    case Open => Set(s, i, c.(pc := End, place := Pending)).(pending := s.pending + c.len)
    case Wrote =>
      Set(s, i, c.(pc := Added(s.pending + c.len), place := Pending)).(pending := s.pending + c.len)
    case Added(pending) =>
      Set(s, i, c.(pc := if AsksFlush(s.policy, pending, s.writes + 1) then SwapBytes else End)).(
        writes := s.writes + 1)
    case SwapBytes =>
      var moved := Relabel(s.calls, Pending, Taken(i));
      s.(pending := 0, calls := moved[i := moved[i].(pc := SwapWrites(s.pending), swappedAt := s.clock)])
    case SwapWrites(bytes) => Set(s, i, c.(pc := Sync(bytes, s.writes))).(writes := 0)
    case Sync(bytes, writes) =>
      if ok then
        var moved := Relabel(s.calls, Taken(i), Settled(i));
        s.(calls := moved[i := moved[i].(pc := End, durable := true)])
      else
        Set(s, i, c.(pc := RestoreBytes(bytes, writes))).(failed := true)
    case RestoreBytes(bytes, writes) =>
      var moved := Relabel(s.calls, Taken(i), Pending);
      s.(pending := s.pending + bytes, calls := moved[i := moved[i].(pc := RestoreWrites(writes))])
    case RestoreWrites(writes) => Set(s, i, c.(pc := End)).(writes := s.writes + writes)
  }

  function FirstCall(kind: Kind, len: nat): Call {
    Call(kind, len, if kind.Flush? then SwapBytes else Open, Unrecorded, false, 0, 0, false)
  }

  function Apply(s: Ledger, e: Event): Ledger {
    if !Happens(s, e) then s
    else
      var s' := match e
        case Begin(kind, len) => s.(calls := s.calls + [FirstCall(kind, len)])
        case Write(i) =>
          Set(s, i, s.calls[i].(
            pc := if s.calls[i].kind.Update? then Wrote else Open, written := true, wroteAt := s.clock))
        case Reject(i) => Set(s, i, s.calls[i].(pc := End))
        case Step(i, ok) => Advance(s, i, ok);
      s'.(clock := s.clock + 1)
  }

  function Run(s: Ledger, events: seq<Event>): Ledger {
    if events == [] then s else Apply(Run(s, events[..|events| - 1]), events[|events| - 1])
  }

  // ----- sums -----

  /** The bytes recorded by the calls whose bytes are at `place`. */
  function Amount(calls: seq<Call>, place: Place): nat {
    if calls == [] then 0
    else
      var last := calls[|calls| - 1];
      Amount(calls[..|calls| - 1], place) + (if last.place == place then last.len else 0)
  }

  function At(c: Call, place: Place): nat {
    if c.place == place then c.len else 0
  }

  lemma {:induction false} AmountOfUpdate(calls: seq<Call>, i: nat, c: Call, place: Place)
    requires i < |calls|
    ensures Amount(calls[i := c], place) + At(calls[i], place) == Amount(calls, place) + At(c, place)
  {
    var front := calls[..|calls| - 1];
    if i < |calls| - 1 {
      AmountOfUpdate(front, i, c, place);
      assert calls[i := c][..|calls| - 1] == front[i := c];
    } else {
      assert calls[i := c][..|calls| - 1] == front;
    }
  }

  lemma RelabelLast(calls: seq<Call>, from: Place, to: Place)
    requires calls != []
    ensures Relabel(calls, from, to) ==
            Relabel(calls[..|calls| - 1], from, to) + [Moved(calls[|calls| - 1], from, to)]
  {
  }

  lemma AmountOfLast(front: seq<Call>, last: Call, place: Place)
    ensures Amount(front + [last], place) == Amount(front, place) + At(last, place)
  {
    assert (front + [last])[..|front|] == front;
  }

  /** Moving bytes from one place to another conserves them. */
  lemma {:induction false} AmountOfRelabel(calls: seq<Call>, from: Place, to: Place, place: Place)
    requires from != to
    ensures Amount(Relabel(calls, from, to), place) ==
              if place == from then 0
              else if place == to then Amount(calls, to) + Amount(calls, from)
              else Amount(calls, place)
  {
    if calls != [] {
      var front, last := calls[..|calls| - 1], calls[|calls| - 1];
      AmountOfRelabel(front, from, to, place);
      RelabelLast(calls, from, to);
      AmountOfLast(Relabel(front, from, to), Moved(last, from, to), place);
    }
  }

  // ----- the books balance -----

  /** What a flush has taken and not yet settled or given back. */
  function InHand(c: Call): nat {
    match c.pc
    case SwapWrites(bytes) => bytes
    case Sync(bytes, _) => bytes
    case RestoreBytes(bytes, _) => bytes
    case _ => 0
  }

  predicate Busy(c: Call) {
    c.pc.SwapWrites? || c.pc.Sync? || c.pc.RestoreBytes?
  }

  /** The byte counter and every flush in progress agree with the places of the bytes. */
  ghost predicate Balanced(s: Ledger) {
    && s.pending == Amount(s.calls, Pending)
    && forall f :: 0 <= f < |s.calls| ==> InHand(s.calls[f]) == Amount(s.calls, Taken(f))
  }

  /** Call `i` has recorded what it wrote, and its bytes are where `place` says. */
  ghost predicate PlaceOk(calls: seq<Call>, clock: nat, i: nat)
    requires i < |calls|
  {
    var c := calls[i];
    && (c.pc.Open? || c.pc.Wrote? ==> c.place.Unrecorded?)
    && (c.place.Unrecorded? ==> (c.pc.Open? && !c.kind.Update?) || c.pc.Wrote? || !c.written)
    && (c.written ==> c.len > 0 && c.wroteAt < clock)
    && (Busy(c) || c.durable ==> c.swappedAt < clock)
    && (c.durable ==> c.pc.End?)
    && (c.place.Taken? ==>
          && c.place.flush < |calls| && Busy(calls[c.place.flush])
          && (c.written ==> c.wroteAt < calls[c.place.flush].swappedAt))
    && (c.place.Settled? ==>
          && c.place.flush < |calls| && calls[c.place.flush].durable
          && (c.written ==> c.wroteAt < calls[c.place.flush].swappedAt))
  }

  /** Bytes are taken by flushes in progress, and settled by flushes that succeeded. */
  ghost predicate PlacesInv(s: Ledger) {
    forall i :: 0 <= i < |s.calls| ==> PlaceOk(s.calls, s.clock, i)
  }

  ghost predicate LedgerInv(s: Ledger) {
    Balanced(s) && PlacesInv(s)
  }

  lemma {:induction false} NoneTaken(calls: seq<Call>, place: Place)
    requires forall i :: 0 <= i < |calls| ==> calls[i].place != place
    ensures Amount(calls, place) == 0
  {
    if calls != [] {
      NoneTaken(calls[..|calls| - 1], place);
    }
  }

  /** Call `i` changes alone and its bytes are not about to move between flushes. */
  lemma SetKeepsPlace(s: Ledger, i: nat, c: Call, j: nat)
    requires PlacesInv(s) && i < |s.calls| && j < |s.calls|
    requires c.place.Taken? || c.place.Settled? ==> c.place == s.calls[i].place
    requires c.written ==> c.len > 0 && c.wroteAt <= s.clock
    requires !c.place.Unrecorded? ==> c.wroteAt == s.calls[i].wroteAt && c.written == s.calls[i].written
    requires Busy(c) == Busy(s.calls[i]) && c.durable == s.calls[i].durable && c.swappedAt == s.calls[i].swappedAt
    requires c.durable ==> c.pc.End?
    requires c.pc.Open? || c.pc.Wrote? ==> c.place.Unrecorded?
    requires c.place.Unrecorded? ==> (c.pc.Open? && !c.kind.Update?) || c.pc.Wrote? || !c.written
    ensures PlaceOk(s.calls[i := c], s.clock + 1, j)
  {
    assert PlaceOk(s.calls, s.clock, j) && PlaceOk(s.calls, s.clock, i);
  }

  lemma SwapKeepsPlace(s: Ledger, i: nat, ok: bool, j: nat)
    requires PlacesInv(s) && Happens(s, Step(i, ok)) && s.calls[i].pc.SwapBytes? && j < |s.calls|
    ensures PlaceOk(Advance(s, i, ok).calls, s.clock + 1, j)
  {
    assert PlaceOk(s.calls, s.clock, j) && PlaceOk(s.calls, s.clock, i);
  }

  lemma SyncKeepsPlace(s: Ledger, i: nat, j: nat)
    requires PlacesInv(s) && Happens(s, Step(i, true)) && s.calls[i].pc.Sync? && j < |s.calls|
    ensures PlaceOk(Advance(s, i, true).calls, s.clock + 1, j)
  {
    assert PlaceOk(s.calls, s.clock, j) && PlaceOk(s.calls, s.clock, i);
  }

  lemma RestoreKeepsPlace(s: Ledger, i: nat, ok: bool, j: nat)
    requires PlacesInv(s) && Happens(s, Step(i, ok)) && s.calls[i].pc.RestoreBytes? && j < |s.calls|
    ensures PlaceOk(Advance(s, i, ok).calls, s.clock + 1, j)
  {
    assert PlaceOk(s.calls, s.clock, j) && PlaceOk(s.calls, s.clock, i);
  }

  lemma StepKeepsPlace(s: Ledger, i: nat, ok: bool, j: nat)
    requires PlacesInv(s) && Happens(s, Step(i, ok)) && j < |s.calls|
    ensures PlaceOk(Advance(s, i, ok).calls, s.clock + 1, j)
  {
    assert PlaceOk(s.calls, s.clock, i);
    var c := s.calls[i];
    if c.pc.SwapBytes? {
      SwapKeepsPlace(s, i, ok, j);
    } else if c.pc.Sync? && ok {
      SyncKeepsPlace(s, i, j);
    } else if c.pc.RestoreBytes? {
      RestoreKeepsPlace(s, i, ok, j);
    } else {
      SetKeepsPlace(s, i, Advance(s, i, ok).calls[i], j);
    }
  }

  lemma ApplyKeepsPlaces(s: Ledger, e: Event)
    requires PlacesInv(s)
    ensures PlacesInv(Apply(s, e))
  {
    if Happens(s, e) {
      var s' := Apply(s, e);
      forall j | 0 <= j < |s'.calls| ensures PlaceOk(s'.calls, s'.clock, j) {
        match e
        case Begin(kind, len) =>
          if j < |s.calls| {
            assert PlaceOk(s.calls, s.clock, j);
          }
        case Write(i) =>
          assert PlaceOk(s.calls, s.clock, i);
          SetKeepsPlace(s, i, s'.calls[i], j);
        case Reject(i) =>
          assert PlaceOk(s.calls, s.clock, i);
          SetKeepsPlace(s, i, s'.calls[i], j);
        case Step(i, ok) => StepKeepsPlace(s, i, ok, j);
      }
    }
  }

  lemma UpdateKeepsBalance(s: Ledger, i: nat, c: Call)
    requires Balanced(s) && i < |s.calls|
    requires c.place == s.calls[i].place && c.len == s.calls[i].len && InHand(c) == InHand(s.calls[i])
    ensures Balanced(Set(s, i, c))
  {
    AmountOfUpdate(s.calls, i, c, Pending);
    forall f | 0 <= f < |s.calls| ensures InHand(s.calls[i := c][f]) == Amount(s.calls[i := c], Taken(f)) {
      AmountOfUpdate(s.calls, i, c, Taken(f));
    }
  }

  /** A call's recorded bytes enter the counter. */
  lemma RecordKeepsBalance(s: Ledger, i: nat, c: Call)
    requires Balanced(s) && i < |s.calls|
    requires s.calls[i].place.Unrecorded? && c.place.Pending? && c.len == s.calls[i].len
    requires InHand(c) == InHand(s.calls[i])
    ensures Balanced(Set(s, i, c).(pending := s.pending + c.len))
  {
    AmountOfUpdate(s.calls, i, c, Pending);
    forall f | 0 <= f < |s.calls| ensures InHand(s.calls[i := c][f]) == Amount(s.calls[i := c], Taken(f)) {
      AmountOfUpdate(s.calls, i, c, Taken(f));
    }
  }

  /** After a flush has moved bytes, only its own hands have changed. */
  lemma MovedHands(s: Ledger, i: nat, from: Place, to: Place, c: Call, f: nat)
    requires Balanced(s) && i < |s.calls| && f < |s.calls| && from != to
    requires c.place == Relabel(s.calls, from, to)[i].place && c.len == s.calls[i].len
    requires InHand(c) == Amount(Relabel(s.calls, from, to), Taken(i))
    requires f != i ==> from != Taken(f) && to != Taken(f)
    ensures InHand(Relabel(s.calls, from, to)[i := c][f]) == Amount(Relabel(s.calls, from, to)[i := c], Taken(f))
  {
    AmountOfUpdate(Relabel(s.calls, from, to), i, c, Taken(f));
    if f != i {
      AmountOfRelabel(s.calls, from, to, Taken(f));
    }
  }

  /** A flush moves bytes between the counter, its hands and the file. */
  lemma MoveKeepsBalance(s: Ledger, i: nat, from: Place, to: Place, c: Call, pending: nat)
    requires Balanced(s) && i < |s.calls| && from != to
    requires c.place == Relabel(s.calls, from, to)[i].place && c.len == s.calls[i].len
    requires pending == Amount(Relabel(s.calls, from, to), Pending)
    requires InHand(c) == Amount(Relabel(s.calls, from, to), Taken(i))
    requires from == Pending || from == Taken(i)
    requires to == Pending || to == Taken(i) || to == Settled(i)
    ensures Balanced(s.(pending := pending, calls := Relabel(s.calls, from, to)[i := c]))
  {
    AmountOfUpdate(Relabel(s.calls, from, to), i, c, Pending);
    forall f | 0 <= f < |s.calls|
      ensures InHand(Relabel(s.calls, from, to)[i := c][f]) == Amount(Relabel(s.calls, from, to)[i := c], Taken(f))
    {
      MovedHands(s, i, from, to, c, f);
    }
  }

  lemma SwapKeepsBalance(s: Ledger, i: nat, ok: bool)
    requires Balanced(s) && Happens(s, Step(i, ok)) && s.calls[i].pc.SwapBytes?
    ensures Balanced(Advance(s, i, ok))
  {
    AmountOfRelabel(s.calls, Pending, Taken(i), Pending);
    AmountOfRelabel(s.calls, Pending, Taken(i), Taken(i));
    MoveKeepsBalance(s, i, Pending, Taken(i), Advance(s, i, ok).calls[i], 0);
  }

  lemma SyncKeepsBalance(s: Ledger, i: nat)
    requires Balanced(s) && Happens(s, Step(i, true)) && s.calls[i].pc.Sync?
    ensures Balanced(Advance(s, i, true))
  {
    AmountOfRelabel(s.calls, Taken(i), Settled(i), Pending);
    AmountOfRelabel(s.calls, Taken(i), Settled(i), Taken(i));
    MoveKeepsBalance(s, i, Taken(i), Settled(i), Advance(s, i, true).calls[i], s.pending);
  }

  lemma RestoreKeepsBalance(s: Ledger, i: nat, ok: bool)
    requires Balanced(s) && Happens(s, Step(i, ok)) && s.calls[i].pc.RestoreBytes?
    ensures Balanced(Advance(s, i, ok))
  {
    AmountOfRelabel(s.calls, Taken(i), Pending, Pending);
    AmountOfRelabel(s.calls, Taken(i), Pending, Taken(i));
    MoveKeepsBalance(s, i, Taken(i), Pending, Advance(s, i, ok).calls[i], s.pending + s.calls[i].pc.bytes);
  }

  lemma StepKeepsBalance(s: Ledger, i: nat, ok: bool)
    requires LedgerInv(s) && Happens(s, Step(i, ok))
    ensures Balanced(Advance(s, i, ok))
  {
    var pc := s.calls[i].pc;
    if pc.SwapBytes? {
      SwapKeepsBalance(s, i, ok);
    } else if pc.Sync? && ok {
      SyncKeepsBalance(s, i);
    } else if pc.RestoreBytes? {
      RestoreKeepsBalance(s, i, ok);
    } else if pc.Open? || pc.Wrote? {
      assert PlaceOk(s.calls, s.clock, i);
      RecordKeepsBalance(s, i, Advance(s, i, ok).calls[i]);
    } else {
      UpdateKeepsBalance(s, i, Advance(s, i, ok).calls[i]);
    }
  }

  lemma BeginKeepsBalance(s: Ledger, kind: Kind, len: nat)
    requires LedgerInv(s)
    ensures Balanced(s.(calls := s.calls + [FirstCall(kind, len)]))
  {
    var c := FirstCall(kind, len);
    AmountOfLast(s.calls, c, Pending);
    forall f | 0 <= f < |s.calls| + 1 ensures InHand((s.calls + [c])[f]) == Amount(s.calls + [c], Taken(f)) {
      AmountOfLast(s.calls, c, Taken(f));
      if f == |s.calls| {
        forall i | 0 <= i < |s.calls| ensures s.calls[i].place != Taken(f) {
          assert PlaceOk(s.calls, s.clock, i);
        }
        NoneTaken(s.calls, Taken(f));
      }
    }
  }

  /** The books do not depend on the time. */
  lemma ClockKeepsBalance(s: Ledger, clock: nat)
    requires Balanced(s)
    ensures Balanced(s.(clock := clock))
  {
  }

  lemma ApplyKeepsBalance(s: Ledger, e: Event)
    requires LedgerInv(s)
    ensures Balanced(Apply(s, e))
  {
    if Happens(s, e) {
      var s' := Apply(s, e);
      match e
      case Begin(kind, len) =>
        BeginKeepsBalance(s, kind, len);
        ClockKeepsBalance(s.(calls := s.calls + [FirstCall(kind, len)]), s.clock + 1);
      case Write(i) =>
        UpdateKeepsBalance(s, i, s'.calls[i]);
        ClockKeepsBalance(Set(s, i, s'.calls[i]), s.clock + 1);
      case Reject(i) =>
        UpdateKeepsBalance(s, i, s'.calls[i]);
        ClockKeepsBalance(Set(s, i, s'.calls[i]), s.clock + 1);
      case Step(i, ok) =>
        StepKeepsBalance(s, i, ok);
        ClockKeepsBalance(Advance(s, i, ok), s.clock + 1);
    }
  }

  lemma {:induction false} RunKeepsLedger(policy: Policy, events: seq<Event>)
    ensures LedgerInv(Run(New(policy), events))
  {
    if events != [] {
      var before := events[..|events| - 1];
      RunKeepsLedger(policy, before);
      ApplyKeepsPlaces(Run(New(policy), before), events[|events| - 1]);
      ApplyKeepsBalance(Run(New(policy), before), events[|events| - 1]);
    }
  }

  // ----- conservation -----

  function Recorded(calls: seq<Call>): nat {
    if calls == [] then 0
    else
      var last := calls[|calls| - 1];
      Recorded(calls[..|calls| - 1]) + (if last.place.Unrecorded? then 0 else last.len)
  }

  function Durable(calls: seq<Call>): nat {
    if calls == [] then 0
    else
      var last := calls[|calls| - 1];
      Durable(calls[..|calls| - 1]) + (if last.place.Settled? then last.len else 0)
  }

  /** Bytes taken by one of the first `n` calls. */
  function TakenBelow(calls: seq<Call>, n: nat): nat {
    if calls == [] then 0
    else
      var last := calls[|calls| - 1];
      TakenBelow(calls[..|calls| - 1], n) + (if last.place.Taken? && last.place.flush < n then last.len else 0)
  }

  /** What the first `n` calls have in hand together. */
  function AllInHand(calls: seq<Call>, n: nat): nat
    requires n <= |calls|
  {
    if n == 0 then 0 else AllInHand(calls, n - 1) + InHand(calls[n - 1])
  }

  lemma {:induction false} RecordedSplits(calls: seq<Call>, n: nat)
    requires forall i :: 0 <= i < |calls| && calls[i].place.Taken? ==> calls[i].place.flush < n
    ensures Recorded(calls) == Amount(calls, Pending) + TakenBelow(calls, n) + Durable(calls)
  {
    if calls != [] {
      RecordedSplits(calls[..|calls| - 1], n);
    }
  }

  lemma {:induction false} TakenSplits(calls: seq<Call>, n: nat)
    ensures TakenBelow(calls, n + 1) == TakenBelow(calls, n) + Amount(calls, Taken(n))
  {
    if calls != [] {
      TakenSplits(calls[..|calls| - 1], n);
    }
  }

  lemma {:induction false} TakenBelowZero(calls: seq<Call>)
    ensures TakenBelow(calls, 0) == 0
  {
    if calls != [] {
      TakenBelowZero(calls[..|calls| - 1]);
    }
  }

  lemma {:induction false} InHandIsTaken(s: Ledger, n: nat)
    requires Balanced(s) && n <= |s.calls|
    ensures AllInHand(s.calls, n) == TakenBelow(s.calls, n)
  {
    if n == 0 {
      TakenBelowZero(s.calls);
    } else {
      InHandIsTaken(s, n - 1);
      TakenSplits(s.calls, n - 1);
    }
  }

  /**
   Conservation: in every reachable state the recorded bytes are the byte
   counter plus what unfinished flushes hold plus what successful flushes
   have settled. A failed flush loses nothing.
   */
  lemma RecordedBytesConserved(policy: Policy, events: seq<Event>)
    ensures var s := Run(New(policy), events);
            Recorded(s.calls) == s.pending + AllInHand(s.calls, |s.calls|) + Durable(s.calls)
  {
    var s := Run(New(policy), events);
    RunKeepsLedger(policy, events);
    forall i | 0 <= i < |s.calls| && s.calls[i].place.Taken? ensures s.calls[i].place.flush < |s.calls| {
      assert PlaceOk(s.calls, s.clock, i);
    }
    RecordedSplits(s.calls, |s.calls|);
    InHandIsTaken(s, |s.calls|);
  }

  // ----- pending zero means flushed -----

  ghost predicate AllEnded(s: Ledger) {
    forall i :: 0 <= i < |s.calls| ==> s.calls[i].pc.End?
  }

  /** A successful flush that began after the call's last write. */
  ghost predicate CoveredByFlush(s: Ledger, i: nat)
    requires i < |s.calls|
  {
    exists f :: 0 <= f < |s.calls| && s.calls[f].durable && s.calls[i].wroteAt < s.calls[f].swappedAt
  }

  lemma {:induction false} NothingPending(calls: seq<Call>, i: nat)
    requires i < |calls| && Amount(calls, Pending) == 0 && calls[i].place.Pending?
    ensures calls[i].len == 0
  {
    if i < |calls| - 1 {
      NothingPending(calls[..|calls| - 1], i);
    }
  }

  /**
   With no call in progress and no write guard or atomic view alive, a
   byte counter of zero means that every byte that was written is covered
   by a successful flush that began after the write.
   */
  lemma ZeroPendingMeansFlushed(policy: Policy, events: seq<Event>, i: nat)
    requires var s := Run(New(policy), events);
             AllEnded(s) && s.pending == 0 && i < |s.calls| && s.calls[i].written
    ensures CoveredByFlush(Run(New(policy), events), i)
  {
    RunKeepsLedger(policy, events);
    WrittenIsSettled(Run(New(policy), events), i);
  }

  lemma WrittenIsSettled(s: Ledger, i: nat)
    requires LedgerInv(s) && AllEnded(s) && s.pending == 0
    requires i < |s.calls| && s.calls[i].written
    ensures CoveredByFlush(s, i)
  {
    assert PlaceOk(s.calls, s.clock, i);
    if s.calls[i].place.Pending? {
      NothingPending(s.calls, i);
    } else {
      assert s.calls[s.calls[i].place.flush].durable;
    }
  }

  // ----- the flush policy bounds what is pending -----

  /** The policy asks some update to flush. */
  predicate Limits(policy: Policy) {
    match policy
    case Never => false
    case Always => true
    case EveryBytes(n) => n > 0
    case EveryWrites(n) => n > 0
  }

  /** With these counters the policy's limit is reached. */
  predicate Reached(policy: Policy, pending: nat, writes: nat) {
    match policy
    case Never => false
    case Always => pending > 0
    case EveryBytes(n) => pending >= n
    case EveryWrites(n) => writes >= n
  }

  /** The policy is to flush when the counters stand so; a limit of 0 is never reached. */
  predicate AtLimit(policy: Policy, pending: nat, writes: nat) {
    Limits(policy) && Reached(policy, pending, writes)
  }

  /** The call has decided to flush and not yet taken the counter that the policy limits. */
  predicate WillTake(policy: Policy, c: Call) {
    c.pc.SwapBytes? ||
    match policy
    case Never => false
    case Always => c.pc.Added?
    case EveryBytes(n) => c.pc.Added? && c.pc.pending >= n
    case EveryWrites(_) => c.pc.SwapWrites?
  }

  ghost predicate SomeTakes(s: Ledger) {
    exists i :: 0 <= i < |s.calls| && WillTake(s.policy, s.calls[i])
  }

  /** A counter at its limit has a call that has decided to take it. */
  ghost predicate Bounded(s: Ledger) {
    Reached(s.policy, s.pending, s.writes) ==> SomeTakes(s)
  }

  /**
   The guard of the steps that raise a counter without asking the policy:
   a failed flush giving back what it took, and the release of a mutable
   slice, a chunk walk or an atomic view. They break the bound when they
   reach the limit and no call is about to take the counter.
   */
  ghost predicate Breaks(s: Ledger, e: Event) {
    && e.Step? && Happens(s, e) && !SomeTakes(s)
    && match s.calls[e.call].pc
       case RestoreBytes(bytes, _) => Reached(s.policy, s.pending + bytes, s.writes)
       case RestoreWrites(writes) => Reached(s.policy, s.pending, s.writes + writes)
       case Open => Reached(s.policy, s.pending + s.calls[e.call].len, s.writes)
       case _ => false
  }

  /** A flush is called, or an update counts itself. */
  predicate Repairs(s: Ledger, e: Event) {
    || (e.Begin? && e.kind.Flush?)
    || (e.Step? && Happens(s, e) &&
        if s.policy.EveryWrites? then s.calls[e.call].pc.Added? else s.calls[e.call].pc.Wrote?)
  }

  lemma PolicyIsFixed(s: Ledger, e: Event)
    ensures Apply(s, e).policy == s.policy
  {
  }

  predicate ActsOn(e: Event, i: nat) {
    match e
    case Begin(_, _) => false
    case Write(call) => call == i
    case Reject(call) => call == i
    case Step(call, _) => call == i
  }

  /** An event moves no other call on. */
  lemma OthersStay(s: Ledger, e: Event, i: nat)
    requires i < |s.calls| && !ActsOn(e, i)
    ensures var s' := Apply(s, e);
            i < |s'.calls| && s'.calls[i].pc == s.calls[i].pc && s'.calls[i].kind == s.calls[i].kind
  {
  }

  /** A call that is about to take the counter stays so until the counter is zero. */
  lemma TakersStay(s: Ledger, e: Event, i: nat)
    requires Limits(s.policy) && i < |s.calls| && WillTake(s.policy, s.calls[i])
    ensures var s' := Apply(s, e);
            i < |s'.calls| && (WillTake(s.policy, s'.calls[i]) || !Reached(s.policy, s'.pending, s'.writes))
  {
    if !ActsOn(e, i) {
      OthersStay(s, e, i);
    }
  }

  lemma StepStartsTaker(s: Ledger, e: Event)
    requires Limits(s.policy) && e.Step? && e.call < |s.calls| && !WillTake(s.policy, s.calls[e.call])
    requires e.call < |Apply(s, e).calls| && WillTake(s.policy, Apply(s, e).calls[e.call])
    ensures Repairs(s, e)
  {
  }

  /** A new taker is a flush just called or an update that just counted itself. */
  lemma TakersAppear(s: Ledger, e: Event, i: nat)
    requires Limits(s.policy) && i < |Apply(s, e).calls| && WillTake(s.policy, Apply(s, e).calls[i])
    requires i < |s.calls| ==> !WillTake(s.policy, s.calls[i])
    ensures Repairs(s, e)
  {
    if i < |s.calls| && !ActsOn(e, i) {
      OthersStay(s, e, i);
    } else if e.Step? {
      StepStartsTaker(s, e);
    }
  }

  /** With no taker, only the guarded steps and counting updates reach the limit, and nothing undoes it. */
  lemma LimitReached(s: Ledger, e: Event)
    requires Limits(s.policy) && !SomeTakes(s) && !Repairs(s, e)
    ensures var s' := Apply(s, e);
            && (Reached(s.policy, s.pending, s.writes) ==> Reached(s.policy, s'.pending, s'.writes))
            && (!Reached(s.policy, s.pending, s.writes) ==>
                  (Reached(s.policy, s'.pending, s'.writes) <==> Breaks(s, e)))
  {
    if e.Step? && Happens(s, e) {
      assert !WillTake(s.policy, s.calls[e.call]);
    }
  }

  /** Counting updates and new flushes bring the bound back, from any state. */
  lemma RepairRestores(s: Ledger, e: Event)
    requires Limits(s.policy) && Repairs(s, e)
    ensures Bounded(Apply(s, e))
  {
    var s' := Apply(s, e);
    PolicyIsFixed(s, e);
    var i := if e.Begin? then |s.calls| else e.call;
    if Reached(s.policy, s'.pending, s'.writes) {
      assert WillTake(s'.policy, s'.calls[i]);
    }
  }

  /** A bound that holds is broken exactly by the guarded steps, whatever flushes have failed. */
  lemma BoundKeptIff(s: Ledger, e: Event)
    requires Limits(s.policy) && Bounded(s)
    ensures Bounded(Apply(s, e)) <==> !Breaks(s, e)
  {
    PolicyIsFixed(s, e);
    var s' := Apply(s, e);
    if SomeTakes(s) {
      var i :| 0 <= i < |s.calls| && WillTake(s.policy, s.calls[i]);
      TakersStay(s, e, i);
    } else if Repairs(s, e) {
      RepairRestores(s, e);
    } else {
      LimitReached(s, e);
      NoTakers(s, e);
    }
  }

  lemma NoTakers(s: Ledger, e: Event)
    requires Limits(s.policy) && !SomeTakes(s) && !Repairs(s, e)
    ensures !SomeTakes(Apply(s, e))
  {
    PolicyIsFixed(s, e);
    forall i | 0 <= i < |Apply(s, e).calls| ensures !WillTake(s.policy, Apply(s, e).calls[i]) {
      if WillTake(s.policy, Apply(s, e).calls[i]) {
        assert i < |s.calls| ==> !WillTake(s.policy, s.calls[i]);
        TakersAppear(s, e, i);
      }
    }
  }

  /** A bound that is broken comes back exactly with the next repair. */
  lemma BoundRestoredIff(s: Ledger, e: Event)
    requires Limits(s.policy) && !Bounded(s)
    ensures Bounded(Apply(s, e)) <==> Repairs(s, e)
  {
    PolicyIsFixed(s, e);
    if Repairs(s, e) {
      RepairRestores(s, e);
    } else {
      LimitReached(s, e);
      NoTakers(s, e);
    }
  }

  lemma RepairIsNoBreak(s: Ledger, e: Event)
    ensures !(Repairs(s, e) && Breaks(s, e))
  {
  }

  // ----- over whole runs -----

  ghost predicate BreaksAt(policy: Policy, events: seq<Event>, k: nat) {
    k < |events| && Breaks(Run(New(policy), events[..k]), events[k])
  }

  predicate RepairsAt(policy: Policy, events: seq<Event>, k: nat) {
    k < |events| && Repairs(Run(New(policy), events[..k]), events[k])
  }

  ghost predicate RepairedAfter(policy: Policy, events: seq<Event>, k: nat) {
    exists m :: k < m < |events| && RepairsAt(policy, events, m)
  }

  /** Every step that broke the bound was followed by a counting update or a new flush. */
  ghost predicate AllRepaired(policy: Policy, events: seq<Event>) {
    forall k: nat :: BreaksAt(policy, events, k) ==> RepairedAfter(policy, events, k)
  }

  lemma AllRepairedExtends(policy: Policy, before: seq<Event>, last: Event)
    ensures var s := Run(New(policy), before);
            AllRepaired(policy, before + [last]) <==>
              !Breaks(s, last) && (AllRepaired(policy, before) || Repairs(s, last))
  {
    var events, end := before + [last], |before|;
    assert events[..end] == before;
    forall k: nat | k < end
      ensures BreaksAt(policy, events, k) == BreaksAt(policy, before, k)
      ensures RepairsAt(policy, events, k) == RepairsAt(policy, before, k)
    {
      assert events[..k] == before[..k];
    }
    forall k: nat | k < end
      ensures RepairedAfter(policy, events, k) <==> RepairedAfter(policy, before, k) || RepairsAt(policy, events, end)
    {
      if RepairedAfter(policy, before, k) {
        var m :| k < m < |before| && RepairsAt(policy, before, m);
        assert RepairsAt(policy, events, m);
      }
      if RepairedAfter(policy, events, k) {
        var m :| k < m < |events| && RepairsAt(policy, events, m);
        assert m == end || RepairsAt(policy, before, m);
      }
    }
    assert BreaksAt(policy, events, end) == Breaks(Run(New(policy), before), last);
    assert !RepairedAfter(policy, events, end);
    if AllRepaired(policy, events) && !RepairsAt(policy, events, end) {
      forall k: nat | BreaksAt(policy, before, k) ensures RepairedAfter(policy, before, k) {
        assert BreaksAt(policy, events, k);
      }
    }
  }

  /** A limited counter starts at zero. */
  lemma StartsBounded(policy: Policy)
    requires Limits(policy)
    ensures Bounded(New(policy)) && AllRepaired(policy, [])
  {
  }

  lemma {:induction false} RunKeepsPolicy(policy: Policy, events: seq<Event>)
    ensures Run(New(policy), events).policy == policy
  {
    if events != [] {
      RunKeepsPolicy(policy, events[..|events| - 1]);
      PolicyIsFixed(Run(New(policy), events[..|events| - 1]), events[|events| - 1]);
    }
  }

  /**
   The bound of `Always`, `EveryBytes(n)` and `EveryWrites(n)`, over every
   interleaving of updates, flushes, holders and failures: it holds exactly
   if each failed flush or release that broke it was followed by an update
   or a new flush. With no call in progress the counter is then below the
   limit, and otherwise not.
   */
  lemma {:induction false} PolicyBoundsIff(policy: Policy, events: seq<Event>)
    requires Limits(policy)
    ensures var s := Run(New(policy), events);
            && (Bounded(s) <==> AllRepaired(policy, events))
            && (AllEnded(s) ==> (!Reached(policy, s.pending, s.writes) <==> AllRepaired(policy, events)))
  {
    RunKeepsPolicy(policy, events);
    if events == [] {
      StartsBounded(policy);
    } else {
      var before, last := events[..|events| - 1], events[|events| - 1];
      var s := Run(New(policy), before);
      PolicyBoundsIff(policy, before);
      RunKeepsPolicy(policy, before);
      assert events == before + [last];
      AllRepairedExtends(policy, before, last);
      if Bounded(s) {
        BoundKeptIff(s, last);
      } else {
        BoundRestoredIff(s, last);
        RepairIsNoBreak(s, last);
      }
    }
  }

  // ----- runs in which nothing breaks the bound -----

  /** Only `update_region` and flushes run. */
  predicate UpdatesOnly(events: seq<Event>) {
    forall k :: 0 <= k < |events| && events[k].Begin? ==> !events[k].kind.Holder?
  }

  /** No holder exists, and nothing is given back unless a flush has failed. */
  ghost predicate Undisturbed(s: Ledger) {
    forall i :: 0 <= i < |s.calls| ==>
      && !s.calls[i].kind.Holder?
      && (!s.failed ==> !s.calls[i].pc.RestoreBytes? && !s.calls[i].pc.RestoreWrites?)
  }

  lemma FailureStays(s: Ledger, e: Event)
    ensures s.failed ==> Apply(s, e).failed
  {
  }

  lemma CallStaysUndisturbed(s: Ledger, e: Event, i: nat)
    requires Undisturbed(s) && (e.Begin? ==> !e.kind.Holder?) && i < |Apply(s, e).calls|
    ensures var s' := Apply(s, e);
            && !s'.calls[i].kind.Holder?
            && (!s'.failed ==> !s'.calls[i].pc.RestoreBytes? && !s'.calls[i].pc.RestoreWrites?)
  {
    FailureStays(s, e);
    if i < |s.calls| && !ActsOn(e, i) {
      OthersStay(s, e, i);
    }
  }

  lemma StepKeepsUndisturbed(s: Ledger, e: Event)
    requires Undisturbed(s) && (e.Begin? ==> !e.kind.Holder?)
    ensures Undisturbed(Apply(s, e))
  {
    forall i | 0 <= i < |Apply(s, e).calls|
      ensures !Apply(s, e).calls[i].kind.Holder?
      ensures !Apply(s, e).failed ==>
                !Apply(s, e).calls[i].pc.RestoreBytes? && !Apply(s, e).calls[i].pc.RestoreWrites?
    {
      CallStaysUndisturbed(s, e, i);
    }
  }

  lemma {:induction false} RunStaysUndisturbed(policy: Policy, events: seq<Event>, k: nat)
    requires UpdatesOnly(events) && k <= |events|
    ensures Undisturbed(Run(New(policy), events[..k]))
    ensures Run(New(policy), events[..k]).failed ==> Run(New(policy), events).failed
    decreases |events|
  {
    assert events[..|events|] == events;
    if events != [] {
      var before, last := events[..|events| - 1], events[|events| - 1];
      var j := if k < |events| then k else k - 1;
      RunStaysUndisturbed(policy, before, j);
      RunStaysUndisturbed(policy, before, |before|);
      assert before[..|before|] == before && before[..j] == events[..j];
      StepKeepsUndisturbed(Run(New(policy), before), last);
      FailureStays(Run(New(policy), before), last);
    }
  }

  lemma NothingBreaks(policy: Policy, events: seq<Event>)
    requires UpdatesOnly(events) && !Run(New(policy), events).failed
    ensures AllRepaired(policy, events)
  {
    forall k: nat | k < |events| ensures !BreaksAt(policy, events, k) {
      RunStaysUndisturbed(policy, events, k);
    }
  }

  /**
   `EveryBytes(n)` in runs of updates and flushes of which none has failed:
   the byte counter at `n` or above has a call about to take it, and with
   no call in progress fewer than `n` bytes are pending.
   */
  lemma EveryBytesBoundsPending(n: nat, events: seq<Event>)
    requires n > 0 && UpdatesOnly(events) && !Run(New(EveryBytes(n)), events).failed
    ensures var s := Run(New(EveryBytes(n)), events);
            && (s.pending >= n ==> SomeTakes(s))
            && (AllEnded(s) ==> s.pending < n)
  {
    RunKeepsPolicy(EveryBytes(n), events);
    NothingBreaks(EveryBytes(n), events);
    PolicyBoundsIff(EveryBytes(n), events);
  }

  /** The same for the write count, although the two counters are taken in separate steps. */
  lemma EveryWritesBoundsWrites(n: nat, events: seq<Event>)
    requires n > 0 && UpdatesOnly(events) && !Run(New(EveryWrites(n)), events).failed
    ensures var s := Run(New(EveryWrites(n)), events);
            && (s.writes >= n ==> SomeTakes(s))
            && (AllEnded(s) ==> s.writes < n)
  {
    RunKeepsPolicy(EveryWrites(n), events);
    NothingBreaks(EveryWrites(n), events);
    PolicyBoundsIff(EveryWrites(n), events);
  }

  /** `Always`, in the same runs: with no call in progress nothing is pending. */
  lemma AlwaysLeavesNothingPending(events: seq<Event>)
    requires UpdatesOnly(events) && !Run(New(Always), events).failed
    requires AllEnded(Run(New(Always), events))
    ensures Run(New(Always), events).pending == 0
  {
    NothingBreaks(Always, events);
    PolicyBoundsIff(Always, events);
  }

  /** One update of one byte whose flush fails, under a policy that flushes every update. */
  const FAILING: seq<Event> := [
    Begin(Update, 1), Write(0), Step(0, true), Step(0, true), Step(0, true), Step(0, true),
    Step(0, false), Step(0, true), Step(0, true)]

  /** Its states. */
  function FailingState(policy: Policy, k: nat): Ledger {
    var c := Call(Update, 1, Open, Unrecorded, false, 0, 0, false);
    var wrote := c.(pc := Wrote, written := true, wroteAt := 1);
    var recorded := wrote.(place := Pending);
    var taken := recorded.(place := Taken(0), swappedAt := 4);
    match k
    case 0 => New(policy)
    case 1 => Ledger(policy, 0, 0, 1, false, [c])
    case 2 => Ledger(policy, 0, 0, 2, false, [wrote])
    case 3 => Ledger(policy, 1, 0, 3, false, [recorded.(pc := Added(1))])
    case 4 => Ledger(policy, 1, 1, 4, false, [recorded.(pc := SwapBytes)])
    case 5 => Ledger(policy, 0, 1, 5, false, [taken.(pc := SwapWrites(1))])
    case 6 => Ledger(policy, 0, 0, 6, false, [taken.(pc := Sync(1, 1))])
    case 7 => Ledger(policy, 0, 0, 7, true, [taken.(pc := RestoreBytes(1, 1))])
    case 8 => Ledger(policy, 1, 0, 8, true, [taken.(pc := RestoreWrites(1), place := Pending)])
    case _ => Ledger(policy, 1, 1, 9, true, [taken.(pc := End, place := Pending)])
  }

  lemma FailingWrite(policy: Policy, k: nat)
    requires k < 4 && AsksFlush(policy, 1, 1)
    ensures Apply(FailingState(policy, k), FAILING[k]) == FailingState(policy, k + 1)
  {
  }

  lemma FailingFlush(policy: Policy, k: nat)
    requires 4 <= k < 9
    ensures Apply(FailingState(policy, k), FAILING[k]) == FailingState(policy, k + 1)
  {
  }

  lemma RunOneMore(s: Ledger, events: seq<Event>, k: nat)
    requires 0 < k <= |events|
    ensures Run(s, events[..k]) == Apply(Run(s, events[..k - 1]), events[k - 1])
  {
    assert events[..k][..k - 1] == events[..k - 1];
  }

  lemma {:induction false} FailingRun(policy: Policy, k: nat)
    requires k <= 9 && AsksFlush(policy, 1, 1)
    ensures Run(New(policy), FAILING[..k]) == FailingState(policy, k)
  {
    if k > 0 {
      FailingRun(policy, k - 1);
      RunOneMore(New(policy), FAILING, k);
      if k <= 4 {
        FailingWrite(policy, k - 1);
      } else {
        FailingFlush(policy, k - 1);
      }
    }
  }

  /**
   A failed flush can break the bound, under `Always`, `EveryBytes(1)` and
   `EveryWrites(1)` alike: it gives back its byte and its write, and no
   call is left to flush them until the next update.
   */
  lemma FailedFlushLeavesPending(policy: Policy)
    requires AsksFlush(policy, 1, 1)
    ensures UpdatesOnly(FAILING)
    ensures var s := Run(New(policy), FAILING);
            AllEnded(s) && s.pending == 1 && s.writes == 1 && s.failed && !Bounded(s)
  {
    FailingRun(policy, 9);
    assert FAILING[..9] == FAILING;
  }

  /** A mutable slice of one byte, written and dropped. */
  const RELEASING: seq<Event> := [Begin(Holder, 1), Write(0), Step(0, true)]

  /**
   So can the release of a holder, under the policies that count bytes:
   nothing asks the policy when the slice is dropped.
   */
  lemma ReleaseLeavesPending(policy: Policy)
    requires policy == Always || policy == EveryBytes(1)
    ensures var s := Run(New(policy), RELEASING);
            AllEnded(s) && s.pending == 1 && !s.failed && !Bounded(s)
  {
    RunOneMore(New(policy), RELEASING, 1);
    RunOneMore(New(policy), RELEASING, 2);
    RunOneMore(New(policy), RELEASING, 3);
    assert RELEASING[..3] == RELEASING;
    var begun := Call(Holder, 1, Open, Unrecorded, false, 0, 0, false);
    assert Run(New(policy), RELEASING[..1]) == Ledger(policy, 0, 0, 1, false, [begun]);
    var wrote := begun.(written := true, wroteAt := 1);
    assert Run(New(policy), RELEASING[..2]) == Ledger(policy, 0, 0, 2, false, [wrote]);
    assert Run(New(policy), RELEASING) == Ledger(policy, 1, 0, 3, false, [wrote.(pc := End, place := Pending)]);
  }

  /** A release counts no update, so it never breaks the bound of `EveryWrites`. */
  lemma ReleaseKeepsWritesBound(s: Ledger, i: nat, ok: bool)
    requires Limits(s.policy) && s.policy.EveryWrites? && Bounded(s)
    requires i < |s.calls| && s.calls[i].pc.Open?
    ensures Bounded(Apply(s, Step(i, ok)))
  {
    BoundKeptIff(s, Step(i, ok));
  }
}
