/**
 What becomes of each call that counts or flushes, told from the events
 of a run: whether its write-back succeeded, what it leaves in the two
 counters, and whether the policy made it flush.
 */
module FlushOutcomes {
  import opened FlushLedger

  // ----- write-backs -----

  /** Event `k` is the write-back of flush `f`, with result `ok`. */
  ghost predicate SyncsAt(policy: Policy, events: seq<Event>, f: nat, ok: bool, k: nat) {
    k < |events| && events[k] == Step(f, ok) &&
    var s := Run(New(policy), events[..k]);
    f < |s.calls| && s.calls[f].pc.Sync?
  }

  ghost predicate Syncs(policy: Policy, events: seq<Event>, f: nat, ok: bool) {
    exists k :: SyncsAt(policy, events, f, ok, k)
  }

  lemma SyncsExtends(policy: Policy, before: seq<Event>, last: Event, f: nat, ok: bool)
    ensures var s := Run(New(policy), before);
            Syncs(policy, before + [last], f, ok) <==>
              Syncs(policy, before, f, ok) || (last == Step(f, ok) && f < |s.calls| && s.calls[f].pc.Sync?)
  {
    var events, end := before + [last], |before|;
    assert events[..end] == before;
    forall k: nat | k < end ensures SyncsAt(policy, events, f, ok, k) <==> SyncsAt(policy, before, f, ok, k) {
      assert events[..k] == before[..k];
    }
    if Syncs(policy, before, f, ok) {
      var k: nat :| SyncsAt(policy, before, f, ok, k);
      assert SyncsAt(policy, events, f, ok, k);
    }
    if Syncs(policy, events, f, ok) {
      var k: nat :| SyncsAt(policy, events, f, ok, k);
      assert k == end || SyncsAt(policy, before, f, ok, k);
    }
    assert SyncsAt(policy, events, f, ok, end) <==>
           last == Step(f, ok) && f < |Run(New(policy), before).calls| && Run(New(policy), before).calls[f].pc.Sync?;
  }

  /** The calls are the same, except for where their bytes are. */
  predicate SameButPlace(c: Call, c': Call) {
    c'.(place := c.place) == c
  }

  lemma RelabelKeepsCalls(calls: seq<Call>, from: Place, to: Place, f: nat)
    requires f < |calls|
    ensures SameButPlace(calls[f], Relabel(calls, from, to)[f])
  {
  }

  predicate Relabels(s: Ledger, i: nat, ok: bool)
    requires i < |s.calls|
  {
    s.calls[i].pc.SwapBytes? || (s.calls[i].pc.Sync? && ok) || s.calls[i].pc.RestoreBytes?
  }

  lemma RelabelingStep(s: Ledger, i: nat, ok: bool, f: nat)
    requires Happens(s, Step(i, ok)) && Relabels(s, i, ok) && f < |s.calls| && f != i
    ensures |Advance(s, i, ok).calls| == |s.calls| && SameButPlace(s.calls[f], Advance(s, i, ok).calls[f])
  {
    match s.calls[i].pc
    case SwapBytes => RelabelKeepsCalls(s.calls, Pending, Taken(i), f);
    case Sync(_, _) => RelabelKeepsCalls(s.calls, Taken(i), Settled(i), f);
    case RestoreBytes(_, _) => RelabelKeepsCalls(s.calls, Taken(i), Pending, f);
  }

  lemma SettingStep(s: Ledger, i: nat, ok: bool, f: nat)
    requires Happens(s, Step(i, ok)) && !Relabels(s, i, ok) && f < |s.calls| && f != i
    ensures |Advance(s, i, ok).calls| == |s.calls| && Advance(s, i, ok).calls[f] == s.calls[f]
  {
  }

  /** An event leaves every other call as it is, except for where its bytes are. */
  lemma OthersUnmoved(s: Ledger, e: Event, f: nat)
    requires f < |s.calls| && !ActsOn(e, f)
    ensures f < |Apply(s, e).calls| && SameButPlace(s.calls[f], Apply(s, e).calls[f])
  {
    if e.Step? && Happens(s, e) {
      if Relabels(s, e.call, e.ok) {
        RelabelingStep(s, e.call, e.ok, f);
      } else {
        SettingStep(s, e.call, e.ok, f);
      }
    }
  }

  lemma CallsStay(s: Ledger, e: Event)
    ensures |s.calls| <= |Apply(s, e).calls|
    ensures |Apply(s, e).calls| > |s.calls| ==>
              e.Begin? && Apply(s, e).calls == s.calls + [FirstCall(e.kind, e.len)]
  {
  }

  predicate Restoring(c: Call) {
    c.pc.RestoreBytes? || c.pc.RestoreWrites?
  }

  /** Whether the call is durable, against the write-backs it has had. */
  predicate SyncOk(c: Call, good: bool, bad: bool) {
    && c.durable == good
    && (good ==> c.pc.End? && !bad)
    && (bad ==> Restoring(c) || c.pc.End?)
    && (Restoring(c) ==> bad)
  }

  lemma StepKeepsSyncOk(s: Ledger, e: Event, f: nat, good: bool, bad: bool)
    requires f < |s.calls| && SyncOk(s.calls[f], good, bad)
    ensures var s' := Apply(s, e);
            var now := s.calls[f].pc.Sync?;
            && f < |s'.calls|
            && SyncOk(s'.calls[f], good || (now && e == Step(f, true)), bad || (now && e == Step(f, false)))
  {
    if !ActsOn(e, f) {
      OthersUnmoved(s, e, f);
    }
  }

  lemma {:induction false} RunKeepsSyncOk(policy: Policy, events: seq<Event>, f: nat)
    ensures var s := Run(New(policy), events);
            if f < |s.calls| then
              SyncOk(s.calls[f], Syncs(policy, events, f, true), Syncs(policy, events, f, false))
            else !Syncs(policy, events, f, true) && !Syncs(policy, events, f, false)
  {
    if events != [] {
      var before, last := events[..|events| - 1], events[|events| - 1];
      RunKeepsSyncOk(policy, before, f);
      assert events == before + [last];
      SyncsExtends(policy, before, last, f, true);
      SyncsExtends(policy, before, last, f, false);
      var s := Run(New(policy), before);
      CallsStay(s, last);
      if f < |s.calls| {
        StepKeepsSyncOk(s, last, f, Syncs(policy, before, f, true), Syncs(policy, before, f, false));
      }
    }
  }

  /**
   A flush is counted as successful exactly if its write-back succeeded; if
   its write-back failed it never is.
   */
  lemma DurableIff(policy: Policy, events: seq<Event>, f: nat)
    requires f < |Run(New(policy), events).calls|
    ensures Run(New(policy), events).calls[f].durable <==> Syncs(policy, events, f, true)
    ensures Syncs(policy, events, f, false) ==> !Run(New(policy), events).calls[f].durable
  {
    RunKeepsSyncOk(policy, events, f);
  }

  ghost predicate SomeSyncFails(policy: Policy, events: seq<Event>) {
    exists f: nat :: Syncs(policy, events, f, false)
  }

  predicate FailsNow(s: Ledger, e: Event) {
    e.Step? && !e.ok && e.call < |s.calls| && s.calls[e.call].pc.Sync?
  }

  lemma FailureIsNoted(s: Ledger, e: Event)
    ensures Apply(s, e).failed <==> s.failed || FailsNow(s, e)
  {
  }

  /** The run counts as one with a failure exactly if some write-back in it failed. */
  lemma {:induction false} FailedIff(policy: Policy, events: seq<Event>)
    ensures Run(New(policy), events).failed <==> SomeSyncFails(policy, events)
  {
    if events != [] {
      var before, last := events[..|events| - 1], events[|events| - 1];
      var s := Run(New(policy), before);
      FailedIff(policy, before);
      FailureIsNoted(s, last);
      assert events == before + [last];
      forall f: nat
        ensures Syncs(policy, events, f, false) <==>
                  Syncs(policy, before, f, false) || (last == Step(f, false) && f < |s.calls| && s.calls[f].pc.Sync?)
      {
        SyncsExtends(policy, before, last, f, false);
      }
      if SomeSyncFails(policy, before) {
        var f: nat :| Syncs(policy, before, f, false);
        assert Syncs(policy, events, f, false);
      } else if FailsNow(s, last) {
        assert Syncs(policy, events, last.call, false);
      } else {
        forall f: nat ensures !Syncs(policy, events, f, false) {
          assert !Syncs(policy, before, f, false);
        }
      }
    } else {
      forall f: nat ensures !Syncs(policy, events, f, false) {
      }
    }
  }

  // ----- what a call leaves in the counters -----

  /** What the steps of call `f` have added to the byte counter, less what they have taken. */
  function NetBytes(policy: Policy, events: seq<Event>, f: nat): int {
    if events == [] then 0
    else
      var before, last := events[..|events| - 1], events[|events| - 1];
      NetBytes(policy, before, f)
      + if last.Step? && last.call == f then
          Run(New(policy), events).pending - Run(New(policy), before).pending
        else 0
  }

  /** The same for the write counter. */
  function NetWrites(policy: Policy, events: seq<Event>, f: nat): int {
    if events == [] then 0
    else
      var before, last := events[..|events| - 1], events[|events| - 1];
      NetWrites(policy, before, f)
      + if last.Step? && last.call == f then
          Run(New(policy), events).writes - Run(New(policy), before).writes
        else 0
  }

  /** The bytes a call counts for itself once it is through. */
  function OwnBytes(c: Call): nat {
    match c.kind
    case Update => if c.written then c.len else 0
    case Holder => c.len
    case Flush => 0
  }

  function OwnWrites(c: Call): nat {
    if c.kind.Update? && c.written then 1 else 0
  }

  /** What the call's steps have done to the counters, by where it stands. */
  predicate NetOk(c: Call, bytes: int, writes: int) {
    match c.pc
    case Open => bytes == 0 && writes == 0 && !c.kind.Flush? && (c.kind.Update? ==> !c.written)
    case Wrote => bytes == 0 && writes == 0 && c.kind.Update? && c.written
    case Added(_) => bytes == c.len && writes == 0 && c.kind.Update? && c.written
    case SwapBytes => bytes == OwnBytes(c) && writes == OwnWrites(c) && Counting(c)
    case SwapWrites(b) => bytes == OwnBytes(c) - b && writes == OwnWrites(c) && Counting(c)
    case Sync(b, w) => bytes == OwnBytes(c) - b && writes == OwnWrites(c) - w && Counting(c)
    case RestoreBytes(b, w) => bytes == OwnBytes(c) - b && writes == OwnWrites(c) - w && Counting(c)
    case RestoreWrites(w) => bytes == OwnBytes(c) && writes == OwnWrites(c) - w && Counting(c)
    case End => !c.durable ==> bytes == OwnBytes(c) && writes == OwnWrites(c)
  }

  /** Only flushes and updates that have written get to flush. */
  predicate Counting(c: Call) {
    !c.durable && (c.kind.Flush? || (c.kind.Update? && c.written))
  }

  predicate StillCounting(pc: Pc) {
    pc.Open? || pc.Wrote? || pc.Added? || pc.End?
  }

  lemma CountKeepsNet(s: Ledger, f: nat, ok: bool, bytes: int, writes: int)
    requires f < |s.calls| && NetOk(s.calls[f], bytes, writes) && StillCounting(s.calls[f].pc)
    requires !s.calls[f].pc.End? ==> !s.calls[f].durable
    ensures var s' := Apply(s, Step(f, ok));
            && f < |s'.calls|
            && NetOk(s'.calls[f], bytes + s'.pending - s.pending, writes + s'.writes - s.writes)
  {
  }

  lemma TakeKeepsNet(s: Ledger, f: nat, ok: bool, bytes: int, writes: int)
    requires f < |s.calls| && NetOk(s.calls[f], bytes, writes)
    requires s.calls[f].pc.SwapBytes? || s.calls[f].pc.SwapWrites?
    ensures var s' := Apply(s, Step(f, ok));
            && f < |s'.calls|
            && NetOk(s'.calls[f], bytes + s'.pending - s.pending, writes + s'.writes - s.writes)
  {
  }

  lemma SyncKeepsNet(s: Ledger, f: nat, ok: bool, bytes: int, writes: int)
    requires f < |s.calls| && NetOk(s.calls[f], bytes, writes)
    requires s.calls[f].pc.Sync?
    ensures var s' := Apply(s, Step(f, ok));
            && f < |s'.calls|
            && NetOk(s'.calls[f], bytes + s'.pending - s.pending, writes + s'.writes - s.writes)
  {
  }

  lemma RestoreKeepsNet(s: Ledger, f: nat, ok: bool, bytes: int, writes: int)
    requires f < |s.calls| && NetOk(s.calls[f], bytes, writes)
    requires Restoring(s.calls[f])
    ensures var s' := Apply(s, Step(f, ok));
            && f < |s'.calls|
            && NetOk(s'.calls[f], bytes + s'.pending - s.pending, writes + s'.writes - s.writes)
  {
  }

  lemma StepKeepsNet(s: Ledger, f: nat, ok: bool, bytes: int, writes: int)
    requires f < |s.calls| && NetOk(s.calls[f], bytes, writes)
    requires !s.calls[f].pc.End? ==> !s.calls[f].durable
    ensures var s' := Apply(s, Step(f, ok));
            && f < |s'.calls|
            && NetOk(s'.calls[f], bytes + s'.pending - s.pending, writes + s'.writes - s.writes)
  {
    if StillCounting(s.calls[f].pc) {
      CountKeepsNet(s, f, ok, bytes, writes);
    } else if s.calls[f].pc.SwapBytes? || s.calls[f].pc.SwapWrites? {
      TakeKeepsNet(s, f, ok, bytes, writes);
    } else if s.calls[f].pc.Sync? {
      SyncKeepsNet(s, f, ok, bytes, writes);
    } else {
      RestoreKeepsNet(s, f, ok, bytes, writes);
    }
  }

  lemma OtherKeepsNet(s: Ledger, e: Event, f: nat, bytes: int, writes: int)
    requires f < |s.calls| && NetOk(s.calls[f], bytes, writes) && !(e.Step? && e.call == f)
    requires !s.calls[f].pc.End? ==> !s.calls[f].durable
    ensures f < |Apply(s, e).calls| && NetOk(Apply(s, e).calls[f], bytes, writes)
  {
    if !ActsOn(e, f) {
      OthersUnmoved(s, e, f);
    }
  }

  lemma {:induction false} NoStepsNoNet(policy: Policy, events: seq<Event>, f: nat)
    requires f >= |Run(New(policy), events).calls|
    ensures NetBytes(policy, events, f) == 0 && NetWrites(policy, events, f) == 0
  {
    if events != [] {
      var before := events[..|events| - 1];
      CallsStay(Run(New(policy), before), events[|events| - 1]);
      NoStepsNoNet(policy, before, f);
    }
  }

  lemma {:induction false} RunKeepsNet(policy: Policy, events: seq<Event>, f: nat)
    requires f < |Run(New(policy), events).calls|
    ensures NetOk(Run(New(policy), events).calls[f], NetBytes(policy, events, f), NetWrites(policy, events, f))
  {
    var before, last := events[..|events| - 1], events[|events| - 1];
    var s := Run(New(policy), before);
    CallsStay(s, last);
    if f < |s.calls| {
      RunKeepsNet(policy, before, f);
      RunKeepsSyncOk(policy, before, f);
      var bytes, writes := NetBytes(policy, before, f), NetWrites(policy, before, f);
      if last.Step? && last.call == f {
        StepKeepsNet(s, f, last.ok, bytes, writes);
      } else {
        OtherKeepsNet(s, last, f, bytes, writes);
      }
    } else {
      NoStepsNoNet(policy, before, f);
    }
  }

  /**
   A call that has ended without a successful flush of its own leaves in
   the counters exactly what it counted: an update that wrote, its length
   and one write; a rejected update, nothing; a holder, its length; a flush
   whose write-back failed, nothing, so all it took is back.
   */
  lemma EndedCallsNet(policy: Policy, events: seq<Event>, f: nat)
    requires var s := Run(New(policy), events); f < |s.calls| && s.calls[f].pc.End?
    requires !Syncs(policy, events, f, true)
    ensures var c := Run(New(policy), events).calls[f];
            && NetBytes(policy, events, f) == OwnBytes(c)
            && NetWrites(policy, events, f) == OwnWrites(c)
  {
    RunKeepsSyncOk(policy, events, f);
    RunKeepsNet(policy, events, f);
  }

  // ----- when an update flushes -----

  /** Event `last` makes call `i` take the byte counter. */
  predicate TakesNow(s: Ledger, i: nat, last: Event) {
    last.Step? && last.call == i && i < |s.calls| && s.calls[i].pc.SwapBytes?
  }

  /** Call `i` has taken the counters to flush them. */
  function Took(policy: Policy, events: seq<Event>, i: nat): bool {
    events != [] &&
    var before := events[..|events| - 1];
    Took(policy, before, i) || TakesNow(Run(New(policy), before), i, events[|events| - 1])
  }

  /** The byte counter right after update `i` added its bytes. */
  function BytesReached(policy: Policy, events: seq<Event>, i: nat): nat {
    if events == [] then 0
    else
      var before, last := events[..|events| - 1], events[|events| - 1];
      var s := Run(New(policy), before);
      if last.Step? && last.call == i && i < |s.calls| && s.calls[i].pc.Wrote? then Run(New(policy), events).pending
      else BytesReached(policy, before, i)
  }

  /** The write counter right after update `i` added its write. */
  function WritesReached(policy: Policy, events: seq<Event>, i: nat): nat {
    if events == [] then 0
    else
      var before, last := events[..|events| - 1], events[|events| - 1];
      var s := Run(New(policy), before);
      if last.Step? && last.call == i && i < |s.calls| && s.calls[i].pc.Added? then Run(New(policy), events).writes
      else WritesReached(policy, before, i)
  }

  /** An update flushes if the counters it reached are at the limit, and only then. */
  predicate DecisionOk(policy: Policy, c: Call, took: bool, bytes: nat, writes: nat) {
    c.kind.Update? ==>
      match c.pc
      case Open => !took && !c.written
      case Wrote => !took && c.written && c.len > 0
      case Added(pending) => !took && c.written && pending == bytes > 0
      case SwapBytes => !took && AtLimit(policy, bytes, writes)
      case End => took <==> c.written && AtLimit(policy, bytes, writes)
      case _ => took && c.written && AtLimit(policy, bytes, writes)
  }

  lemma CountKeepsDecision(s: Ledger, i: nat, ok: bool, took: bool, bytes: nat, writes: nat)
    requires i < |s.calls| && DecisionOk(s.policy, s.calls[i], took, bytes, writes)
    requires s.calls[i].kind.Update? && s.calls[i].pc.SwapBytes? ==> s.calls[i].written
    requires StillCounting(s.calls[i].pc)
    ensures var s' := Apply(s, Step(i, ok));
            && i < |s'.calls|
            && DecisionOk(s.policy, s'.calls[i], took || TakesNow(s, i, Step(i, ok)),
                          if s.calls[i].pc.Wrote? then s'.pending else bytes,
                          if s.calls[i].pc.Added? then s'.writes else writes)
  {
  }

  lemma FlushKeepsDecision(s: Ledger, i: nat, ok: bool, took: bool, bytes: nat, writes: nat)
    requires i < |s.calls| && DecisionOk(s.policy, s.calls[i], took, bytes, writes)
    requires s.calls[i].kind.Update? && s.calls[i].pc.SwapBytes? ==> s.calls[i].written
    requires !StillCounting(s.calls[i].pc)
    ensures var s' := Apply(s, Step(i, ok));
            && i < |s'.calls|
            && DecisionOk(s.policy, s'.calls[i], took || TakesNow(s, i, Step(i, ok)),
                          bytes, writes)
  {
  }

  lemma StepKeepsDecision(s: Ledger, i: nat, ok: bool, took: bool, bytes: nat, writes: nat)
    requires i < |s.calls| && DecisionOk(s.policy, s.calls[i], took, bytes, writes)
    requires s.calls[i].kind.Update? && s.calls[i].pc.SwapBytes? ==> s.calls[i].written
    ensures var s' := Apply(s, Step(i, ok));
            && i < |s'.calls|
            && DecisionOk(s.policy, s'.calls[i], took || TakesNow(s, i, Step(i, ok)),
                          if s.calls[i].pc.Wrote? then s'.pending else bytes,
                          if s.calls[i].pc.Added? then s'.writes else writes)
  {
    if StillCounting(s.calls[i].pc) {
      CountKeepsDecision(s, i, ok, took, bytes, writes);
    } else {
      FlushKeepsDecision(s, i, ok, took, bytes, writes);
    }
  }

  lemma OtherKeepsDecision(s: Ledger, e: Event, i: nat, took: bool, bytes: nat, writes: nat)
    requires i < |s.calls| && DecisionOk(s.policy, s.calls[i], took, bytes, writes) && !(e.Step? && e.call == i)
    ensures i < |Apply(s, e).calls| && DecisionOk(s.policy, Apply(s, e).calls[i], took, bytes, writes)
  {
    if !ActsOn(e, i) {
      OthersUnmoved(s, e, i);
    }
  }

  lemma {:induction false} NothingReached(policy: Policy, events: seq<Event>, i: nat)
    requires i >= |Run(New(policy), events).calls|
    ensures !Took(policy, events, i)
  {
    if events != [] {
      var before := events[..|events| - 1];
      CallsStay(Run(New(policy), before), events[|events| - 1]);
      NothingReached(policy, before, i);
    }
  }

  lemma {:induction false} RunKeepsDecision(policy: Policy, events: seq<Event>, i: nat)
    requires i < |Run(New(policy), events).calls|
    ensures DecisionOk(policy, Run(New(policy), events).calls[i], Took(policy, events, i),
                       BytesReached(policy, events, i), WritesReached(policy, events, i))
  {
    var before, last := events[..|events| - 1], events[|events| - 1];
    var s := Run(New(policy), before);
    RunKeepsPolicy(policy, before);
    CallsStay(s, last);
    if i < |s.calls| {
      RunKeepsDecision(policy, before, i);
      RunKeepsNet(policy, before, i);
      var took := Took(policy, before, i);
      var bytes, writes := BytesReached(policy, before, i), WritesReached(policy, before, i);
      if last.Step? && last.call == i {
        StepKeepsDecision(s, i, last.ok, took, bytes, writes);
      } else {
        OtherKeepsDecision(s, last, i, took, bytes, writes);
      }
    } else {
      NothingReached(policy, before, i);
    }
  }

  /**
   An update that has ended has taken the counters to flush them exactly if
   it wrote and the counters it reached were at its policy's limit.
   */
  lemma UpdateFlushesIff(policy: Policy, events: seq<Event>, i: nat)
    requires var s := Run(New(policy), events); i < |s.calls| && s.calls[i].kind.Update? && s.calls[i].pc.End?
    ensures Took(policy, events, i) <==>
              && Run(New(policy), events).calls[i].written
              && AtLimit(policy, BytesReached(policy, events, i), WritesReached(policy, events, i))
  {
    RunKeepsDecision(policy, events, i);
  }

  /** Under `Never`, `EveryBytes(0)` and `EveryWrites(0)` no step of an update ever takes from a counter. */
  lemma UnlimitedUpdateOnlyAdds(policy: Policy, events: seq<Event>, i: nat, ok: bool)
    requires policy == Never || policy == EveryBytes(0) || policy == EveryWrites(0)
    requires i < |Run(New(policy), events).calls| && Run(New(policy), events).calls[i].kind.Update?
    ensures !Took(policy, events, i)
    ensures var s := Run(New(policy), events);
            var s' := Apply(s, Step(i, ok));
            s'.pending >= s.pending && s'.writes >= s.writes
  {
    RunKeepsDecision(policy, events, i);
    UnlimitedIsNotAtLimit(policy, BytesReached(policy, events, i), WritesReached(policy, events, i));
    StepOnlyAdds(Run(New(policy), events), i, ok);
  }

  lemma UnlimitedIsNotAtLimit(policy: Policy, bytes: nat, writes: nat)
    requires policy == Never || policy == EveryBytes(0) || policy == EveryWrites(0)
    ensures !AtLimit(policy, bytes, writes)
  {
  }

  lemma StepOnlyAdds(s: Ledger, i: nat, ok: bool)
    requires i < |s.calls|
    requires s.calls[i].pc.Open? || s.calls[i].pc.Wrote? || s.calls[i].pc.Added? || s.calls[i].pc.End?
    ensures var s' := Apply(s, Step(i, ok)); s'.pending >= s.pending && s'.writes >= s.writes
  {
  }

  // ----- every write is covered by a flush that began after it -----

  /** Event `w` is a store of call `i`. */
  predicate WritesAt(policy: Policy, events: seq<Event>, i: nat, w: nat) {
    w < |events| && events[w] == Write(i) && Happens(Run(New(policy), events[..w]), Write(i))
  }

  /** Event `k` is the step of flush `f` that takes the byte counter. */
  predicate SwapsAt(policy: Policy, events: seq<Event>, f: nat, k: nat) {
    k < |events| && TakesNow(Run(New(policy), events[..k]), f, events[k])
  }

  /** A flush that began after event `w` and succeeded. */
  ghost predicate FlushedAfter(policy: Policy, events: seq<Event>, w: nat) {
    exists f: nat, k: nat :: w < k && SwapsAt(policy, events, f, k) && Syncs(policy, events, f, true)
  }

  lemma ClockRises(s: Ledger, e: Event)
    ensures s.clock <= Apply(s, e).clock
  {
  }

  lemma {:induction false} ClockFollows(policy: Policy, events: seq<Event>, k: nat)
    requires k <= |events|
    ensures Run(New(policy), events[..k]).clock <= Run(New(policy), events).clock
    decreases |events|
  {
    assert events[..|events|] == events;
    if k < |events| {
      var before := events[..|events| - 1];
      assert before[..k] == events[..k];
      ClockFollows(policy, before, k);
      ClockRises(Run(New(policy), before), events[|events| - 1]);
    }
  }

  /** The time of a call's last store is kept, and later stores only raise it. */
  lemma StepKeepsWriteTime(s: Ledger, e: Event, i: nat, time: nat)
    requires i < |s.calls| && s.calls[i].written && time <= s.calls[i].wroteAt && time <= s.clock
    ensures var s' := Apply(s, e); i < |s'.calls| && s'.calls[i].written && time <= s'.calls[i].wroteAt
  {
    if !ActsOn(e, i) {
      OthersUnmoved(s, e, i);
    }
  }

  lemma {:induction false} WriteTime(policy: Policy, events: seq<Event>, i: nat, w: nat)
    requires WritesAt(policy, events, i, w)
    ensures var s := Run(New(policy), events);
            i < |s.calls| && s.calls[i].written && Run(New(policy), events[..w]).clock <= s.calls[i].wroteAt
    decreases |events|
  {
    var before, last := events[..|events| - 1], events[|events| - 1];
    if w < |before| {
      assert before[..w] == events[..w];
      WriteTime(policy, before, i, w);
      ClockFollows(policy, before, w);
      StepKeepsWriteTime(Run(New(policy), before), last, i, Run(New(policy), events[..w]).clock);
    } else {
      assert events[..w] == before;
    }
  }

  /** The flush has taken the byte counter and has not ended in failure. */
  predicate HasTaken(c: Call) {
    Busy(c) || c.durable
  }

  lemma StepKeepsSwapTime(s: Ledger, e: Event, f: nat)
    requires f < |Apply(s, e).calls| && HasTaken(Apply(s, e).calls[f])
    ensures f < |s.calls|
    ensures if TakesNow(s, f, e) then Apply(s, e).calls[f].swappedAt == s.clock
            else HasTaken(s.calls[f]) && Apply(s, e).calls[f].swappedAt == s.calls[f].swappedAt
  {
    CallsStay(s, e);
    if f < |s.calls| && !ActsOn(e, f) {
      OthersUnmoved(s, e, f);
    }
  }

  /** Flush `f` took the counter at a moment of the run with that clock. */
  ghost predicate TookAtTime(policy: Policy, events: seq<Event>, f: nat, time: nat) {
    exists k: nat :: SwapsAt(policy, events, f, k) && Run(New(policy), events[..k]).clock == time
  }

  lemma {:induction false} SwapTime(policy: Policy, events: seq<Event>, f: nat)
    requires f < |Run(New(policy), events).calls| && HasTaken(Run(New(policy), events).calls[f])
    ensures TookAtTime(policy, events, f, Run(New(policy), events).calls[f].swappedAt)
  {
    var before, last := events[..|events| - 1], events[|events| - 1];
    var s := Run(New(policy), before);
    StepKeepsSwapTime(s, last, f);
    if TakesNow(s, f, last) {
      assert events[..|before|] == before;
      assert SwapsAt(policy, events, f, |before|);
    } else {
      SwapTime(policy, before, f);
      var k: nat :| SwapsAt(policy, before, f, k) && Run(New(policy), before[..k]).clock == s.calls[f].swappedAt;
      assert before[..k] == events[..k];
      assert SwapsAt(policy, events, f, k);
    }
  }

  /**
   With no call in progress and no holder alive, a byte counter of zero
   means: for every store of the run there is a flush that took the counter
   after the store and whose write-back succeeded.
   */
  lemma EveryStoreIsFlushed(policy: Policy, events: seq<Event>, i: nat, w: nat)
    requires WritesAt(policy, events, i, w)
    requires AllEnded(Run(New(policy), events)) && Run(New(policy), events).pending == 0
    ensures FlushedAfter(policy, events, w)
  {
    var s := Run(New(policy), events);
    WriteTime(policy, events, i, w);
    ZeroPendingMeansFlushed(policy, events, i);
    var f: nat :| f < |s.calls| && s.calls[f].durable && s.calls[i].wroteAt < s.calls[f].swappedAt;
    SwapTime(policy, events, f);
    var k: nat :| SwapsAt(policy, events, f, k) && Run(New(policy), events[..k]).clock == s.calls[f].swappedAt;
    DurableIff(policy, events, f);
    EarlierClock(policy, events, w, k);
    assert w < k && SwapsAt(policy, events, f, k) && Syncs(policy, events, f, true);
  }

  lemma EarlierClock(policy: Policy, events: seq<Event>, w: nat, k: nat)
    requires w <= |events| && k <= |events|
    requires Run(New(policy), events[..w]).clock < Run(New(policy), events[..k]).clock
    ensures w < k
  {
    if k <= w {
      assert events[..w][..k] == events[..k];
      ClockFollows(policy, events[..w], k);
    }
  }
}
