/**
 When the registry says no: every refusal has a conflicting view behind
 it, and without overlapping calls the answer is exactly the set of live
 views.
 */
module RegistryAnswers {
  import opened Ranges
  import opened Registry
  import opened RegistrySafety
  import opened RegistryLiveness

  // ----- every refusal is justified -----

  /** The reason for which the call is failing or has failed. */
  function Refusal(op: Op): Option<Conflict> {
    match op
    case PlainOp(_, _, pc) =>
      var no := match pc
                case PChecked(_, clash) => clash
                case PDropStart(_, refused) => refused
                case PRemove(_, refused) => refused
                case PRemoved(refused) => refused
                case PDone(refused) => refused
                case _ => false;
      if no then Some(AtomicLive) else None
    case AtomicOp(_, _, pc) =>
      (match pc
       case AScanned(_, hit) => if hit then Some(PlainLive) else None
       case ARollback => Some(PlainLive)
       case ARefuse(why) => Some(why)
       case ADone(refused) => refused
       case _ => None)
    case CopyOp(_, _) => None
  }

  /** Another operation's view is in the registry and conflicts with `i` for reason `why`. */
  ghost predicate Conflicts(s: State, i: nat, j: nat, why: Conflict) {
    && i < |s.ops| && j < |s.ops| && i != j
    && Overlaps(s.ops[j].range, s.ops[i].range)
    && match why
       case AtomicLive => EntryOf(s.ops[j]).Some?
       case MixedSize => EntryOf(s.ops[j]).Some? && s.ops[i].AtomicOp? && s.ops[j].size != s.ops[i].size
       case PlainLive => exists k, slot :: Owns(s.ops[j], k, slot)
  }

  lemma SlotHasOp(s: State, k: nat, range: Range) returns (j: nat)
    requires SlotInv(s) && k < |s.shards| && s.shards[k].table.Clashes(range)
    ensures j < |s.ops| && Overlaps(s.ops[j].range, range)
    ensures exists slot :: Owns(s.ops[j], k, slot)
  {
    var t := s.shards[k].table;
    var slot :| 0 <= slot < |t.entries| && t.entries[slot].Some? && Overlaps(t.entries[slot].value, range);
    assert t.At(slot).Some?;
    assert Owned(s, k, slot);
    j :| 0 <= j < |s.ops| && Owns(s.ops[j], k, slot);
  }

  lemma PlainRefusal(s: State, i: nat) returns (j: nat)
    requires EntryInv(s) && i < |s.ops| && s.ops[i].PlainOp? && EntryClash(s.entries, s.ops[i].range)
    ensures Conflicts(s, i, j, AtomicLive)
  {
    var x :| 0 <= x < |s.entries| && Overlaps(s.entries[x].range, s.ops[i].range);
    j := EntryHasOp(s, s.entries[x]);
  }

  lemma MixedRefusal(s: State, i: nat) returns (j: nat)
    requires EntryInv(s) && i < |s.ops| && s.ops[i].AtomicOp?
    requires MixedClash(s.entries, s.ops[i].range, s.ops[i].size)
    ensures Conflicts(s, i, j, MixedSize)
  {
    var op := s.ops[i];
    var x :| 0 <= x < |s.entries| && s.entries[x].size != op.size && Overlaps(s.entries[x].range, op.range);
    j := EntryHasOp(s, s.entries[x]);
  }

  lemma ScanRefusal(s: State, i: nat, k: nat) returns (j: nat)
    requires SlotInv(s) && i < |s.ops| && s.ops[i].AtomicOp? && k < |s.shards|
    requires s.shards[k].table.Clashes(s.ops[i].range)
    ensures Conflicts(s, i, j, PlainLive)
  {
    j := SlotHasOp(s, k, s.ops[i].range);
  }

  /** The three places where a call turns to failing. */
  lemma RefusalStep(s: State, i: nat)
    requires Ready(s, i)
    requires Refusal(s.ops[i]).None? && Refusal(AdvanceOp(s, i).ops[i]).Some?
    ensures var op, why := s.ops[i], Refusal(AdvanceOp(s, i).ops[i]).value;
            if op.PlainOp? then
              op.ppc.PCheck? && why.AtomicLive? && EntryClash(s.entries, op.range)
            else
              && op.AtomicOp?
              && (if op.apc.AMixed? then why.MixedSize? && MixedClash(s.entries, op.range, op.size)
                  else
                    && op.apc.AScanning? && why.PlainLive?
                    && op.apc.k < |s.shards| && s.shards[op.apc.k].table.Clashes(op.range))
  {
  }

  /** At the step where a call turns to failing, the conflict is there. */
  lemma RefusalHasConflict(s: State, i: nat) returns (j: nat)
    requires EntryInv(s) && SlotInv(s) && Ready(s, i)
    requires Refusal(s.ops[i]).None? && Refusal(AdvanceOp(s, i).ops[i]).Some?
    ensures Conflicts(s, i, j, Refusal(AdvanceOp(s, i).ops[i]).value)
    ensures !Settled(s.ops[i])
  {
    var op := s.ops[i];
    RefusalStep(s, i);
    if op.PlainOp? {
      j := PlainRefusal(s, i);
    } else if op.apc.AMixed? {
      j := MixedRefusal(s, i);
    } else {
      j := ScanRefusal(s, i, op.apc.k);
    }
  }

  lemma RefusalStays(s: State, i: nat)
    requires Ready(s, i) && Refusal(s.ops[i]).Some? && i < |AdvanceOp(s, i).ops|
    ensures Refusal(AdvanceOp(s, i).ops[i]).Some? ==> Refusal(AdvanceOp(s, i).ops[i]) == Refusal(s.ops[i])
  {
  }

  lemma DropIsNoRefusal(op: Op)
    requires Droppable(op)
    ensures Refusal(op).None? && Refusal(Dropped(op)).None?
  {
  }

  lemma RefusalStarts(s: State, step: Step, i: nat)
    requires Inv(s) && i < |Apply(s, step).ops|
    requires Refusal(Apply(s, step).ops[i]).Some?
    ensures i < |s.ops|
    ensures Refusal(s.ops[i]).Some? ==> Refusal(s.ops[i]) == Refusal(Apply(s, step).ops[i])
    ensures Refusal(s.ops[i]).None? ==> step == Advance(i) && Ready(s, i)
  {
    if Enabled(s, step) {
      if step.Advance? {
        StepLowersRank(s, step.op);
        if step.op == i && Refusal(s.ops[i]).Some? {
          RefusalStays(s, i);
        }
      } else if step.Drop? {
        DropIsNoRefusal(s.ops[step.op]);
      }
    }
  }

  /** Some moment of the schedule during call `i` saw the conflict. */
  ghost predicate SawConflict(shards: nat, schedule: seq<Step>, i: nat, why: Conflict) {
    exists m, j ::
      && 0 <= m <= |schedule|
      && Conflicts(Run(Init(shards), schedule[..m]), i, j, why)
      && !Settled(Run(Init(shards), schedule[..m]).ops[i])
  }

  /**
   In every run, a call that is refused had a conflicting view of another
   operation in the registry at some moment between its start and its
   return.
   */
  lemma {:induction false} RefusalsAreJustified(shards: nat, schedule: seq<Step>, i: nat)
    requires var s := Run(Init(shards), schedule); i < |s.ops| && Refusal(s.ops[i]).Some?
    ensures SawConflict(shards, schedule, i, Refusal(Run(Init(shards), schedule).ops[i]).value)
  {
    var s' := Run(Init(shards), schedule);
    var why := Refusal(s'.ops[i]).value;
    var before, last := schedule[..|schedule| - 1], schedule[|schedule| - 1];
    var s := Run(Init(shards), before);
    RunKeepsInv(shards, before);
    RefusalStarts(s, last, i);
    if Refusal(s.ops[i]).Some? {
      RefusalsAreJustified(shards, before, i);
      var m, j :|
        && 0 <= m <= |before|
        && Conflicts(Run(Init(shards), before[..m]), i, j, why)
        && !Settled(Run(Init(shards), before[..m]).ops[i]);
      assert before[..m] == schedule[..m];
    } else {
      var j := RefusalHasConflict(s, i);
      assert schedule[..|schedule| - 1] == before;
      assert Conflicts(Run(Init(shards), schedule[..|schedule| - 1]), i, j, why);
    }
  }

  // ----- without overlapping calls the answer is exact -----

  /** `n` steps of call `i` alone. */
  function Solo(s: State, i: nat, n: nat): State
    decreases n
  {
    if n == 0 then s else Solo(Apply(s, Advance(i)), i, n - 1)
  }

  /** A live view that forbids a new view of `range`; `size` is None for a plain one. */
  predicate Forbids(op: Op, range: Range, size: Option<nat>) {
    && Overlaps(op.range, range)
    && (if size.None? then LiveAtomic(op) else LivePlain(op) || (LiveAtomic(op) && op.size != size.value))
  }

  predicate ForbidsBySize(op: Op, range: Range, size: nat) {
    LiveAtomic(op) && op.size != size && Overlaps(op.range, range)
  }

  function SizeAsked(op: Op): Option<nat> {
    if op.AtomicOp? then Some(op.size) else None
  }

  ghost predicate Forbidden(s: State, i: nat) {
    i < |s.ops| &&
    exists j :: 0 <= j < |s.ops| && j != i && Forbids(s.ops[j], s.ops[i].range, SizeAsked(s.ops[i]))
  }

  ghost predicate ForbiddenBySize(s: State, i: nat) {
    i < |s.ops| && s.ops[i].AtomicOp? &&
    exists j :: 0 <= j < |s.ops| && j != i && ForbidsBySize(s.ops[j], s.ops[i].range, s.ops[i].size)
  }

  /** Every operation except `i` has returned. */
  ghost predicate OthersSettled(s: State, i: nat) {
    i < |s.ops| && forall j :: 0 <= j < |s.ops| && j != i ==> Settled(s.ops[j])
  }

  ghost predicate SoloInv(s: State, i: nat, s': State) {
    && Inv(s') && OthersSettled(s', i) && MovesOnly(s, i, s')
    && (Refusal(s'.ops[i]).Some? ==> Forbidden(s', i))
    && (Refusal(s'.ops[i]) == Some(MixedSize) ==> ForbiddenBySize(s', i))
    && (Refusal(s'.ops[i]) == Some(PlainLive) ==> !ForbiddenBySize(s', i))
  }

  lemma ConflictForbids(s: State, i: nat, j: nat, why: Conflict)
    requires OthersSettled(s, i) && Conflicts(s, i, j, why)
    requires why.AtomicLive? ==> s.ops[i].PlainOp?
    requires why.PlainLive? ==> s.ops[i].AtomicOp?
    ensures Forbidden(s, i)
    ensures why.MixedSize? ==> ForbiddenBySize(s, i)
  {
    assert Forbids(s.ops[j], s.ops[i].range, SizeAsked(s.ops[i]));
    assert why.MixedSize? ==> ForbidsBySize(s.ops[j], s.ops[i].range, s.ops[i].size);
  }

  /** Past the size check, no view of another size overlaps. */
  lemma AdmittedHasNoMixed(s: State, i: nat)
    requires Inv(s) && i < |s.ops| && SizeChecked(s.ops[i])
    ensures !ForbiddenBySize(s, i)
  {
    forall j | 0 <= j < |s.ops| && j != i ensures !ForbidsBySize(s.ops[j], s.ops[i].range, s.ops[i].size) {
      if LiveAtomic(s.ops[j]) {
        assert EntryOf(s.ops[j]).value in s.entries;
        var x :| 0 <= x < |s.entries| && s.entries[x] == EntryOf(s.ops[j]).value;
      }
    }
  }

  /** What forbids a call depends only on the operations that have returned. */
  lemma ForbiddenUnmoved(s: State, i: nat, s': State)
    requires MovesOnly(s, i, s')
    ensures Forbidden(s, i) == Forbidden(s', i)
    ensures ForbiddenBySize(s, i) == ForbiddenBySize(s', i)
  {
    forall j | 0 <= j < |s.ops| && j != i ensures s.ops[j] == s'.ops[j] {
    }
  }

  lemma AdvanceMovesOnly(s: State, i: nat)
    requires Ready(s, i)
    ensures MovesOnly(s, i, AdvanceOp(s, i))
  {
  }

  lemma SoloKeepsInv(s: State, i: nat, s': State)
    requires SoloInv(s, i, s') && Ready(s', i)
    ensures SoloInv(s, i, AdvanceOp(s', i))
  {
    var s'' := AdvanceOp(s', i);
    StepKeepsInv(s', Advance(i));
    AdvanceMovesOnly(s', i);
    ForbiddenUnmoved(s', i, s'');
    if Refusal(s''.ops[i]).Some? {
      RefusalStarts(s', Advance(i), i);
      if Refusal(s'.ops[i]).None? {
        var why := Refusal(s''.ops[i]).value;
        var j := RefusalHasConflict(s', i);
        RefusalStep(s', i);
        ConflictForbids(s', i, j, why);
        if why.PlainLive? {
          AdmittedHasNoMixed(s', i);
        }
      }
    }
  }

  /** Alone, a call that has not returned can always step. */
  lemma SoloIsReady(s: State, i: nat)
    requires Inv(s) && OthersSettled(s, i) && !Settled(s.ops[i])
    ensures Ready(s, i)
  {
    var j := NoDeadlock(s, i);
    assert !Settled(s.ops[j]);
  }

  ghost function LeftToDo(s: State): nat {
    StepsLeft(s.ops, |s.shards|)
  }

  lemma {:induction false} SoloEnds(s: State, i: nat, n: nat)
    requires !Ready(s, i)
    ensures Solo(s, i, n) == s
    decreases n
  {
    if n > 0 {
      SoloEnds(s, i, n - 1);
    }
  }

  lemma SettledIsNotReady(s: State, i: nat)
    requires i < |s.ops| && Settled(s.ops[i])
    ensures !Ready(s, i)
  {
  }

  lemma SoloStep(s: State, i: nat, s': State)
    requires SoloInv(s, i, s') && !Settled(s'.ops[i])
    ensures var s'' := Apply(s', Advance(i));
            SoloInv(s, i, s'') && LeftToDo(s'') < LeftToDo(s')
  {
    SoloIsReady(s', i);
    SoloKeepsInv(s, i, s');
    StepLowersMeasure(s', i);
  }

  lemma SoloRests(s: State, i: nat, n: nat)
    requires i < |s.ops| && Settled(s.ops[i])
    ensures Solo(s, i, n) == s
  {
    SettledIsNotReady(s, i);
    SoloEnds(s, i, n);
  }

  lemma SoloGoesThrough(s: State, i: nat, n: nat)
    requires n > 0
    ensures Solo(s, i, n) == Solo(Apply(s, Advance(i)), i, n - 1)
  {
  }

  /** Given steps enough, the call returns. */
  lemma {:induction false} SoloReturns(s: State, i: nat, s': State, n: nat)
    requires SoloInv(s, i, s') && LeftToDo(s') <= n
    ensures SoloInv(s, i, Solo(s', i, n)) && Settled(Solo(s', i, n).ops[i])
    decreases n
  {
    if Settled(s'.ops[i]) {
      SoloRests(s', i, n);
    } else {
      SoloStep(s, i, s');
      SoloGoesThrough(s', i, n);
      SoloReturns(s, i, Apply(s', Advance(i)), n - 1);
    }
  }

  lemma LiveHasEntry(s: State, j: nat) returns (x: nat)
    requires EntryInv(s) && j < |s.ops| && LiveAtomic(s.ops[j])
    ensures x < |s.entries| && Some(s.entries[x]) == EntryOf(s.ops[j])
  {
    assert EntryOf(s.ops[j]).value in s.entries;
    x :| 0 <= x < |s.entries| && s.entries[x] == EntryOf(s.ops[j]).value;
  }

  /** Of two overlapping live views neither forbids the other. */
  lemma LiveAllowsLive(s: State, i: nat, j: nat)
    requires EntryInv(s) && EntryExclusion(s) && SizeInv(s) && i < |s.ops| && j < |s.ops|
    requires LivePlain(s.ops[i]) || LiveAtomic(s.ops[i])
    ensures !Forbids(s.ops[j], s.ops[i].range, SizeAsked(s.ops[i]))
  {
    if LiveAtomic(s.ops[j]) {
      var x := LiveHasEntry(s, j);
      if LiveAtomic(s.ops[i]) {
        var y := LiveHasEntry(s, i);
        assert Overlaps(s.entries[x].range, s.entries[y].range) ==> s.entries[x].size == s.entries[y].size;
      } else {
        assert !Overlaps(s.entries[x].range, s.ops[i].range);
      }
    } else if LivePlain(s.ops[j]) && LiveAtomic(s.ops[i]) {
      var y := LiveHasEntry(s, i);
      assert !Overlaps(s.entries[y].range, s.ops[j].range);
    }
  }

  /** A granted view conflicts with no live view. */
  lemma GrantedIsAllowed(s: State, i: nat)
    requires Inv(s) && i < |s.ops| && (LivePlain(s.ops[i]) || LiveAtomic(s.ops[i]))
    ensures !Forbidden(s, i)
  {
    forall j | 0 <= j < |s.ops| && j != i
      ensures !Forbids(s.ops[j], s.ops[i].range, SizeAsked(s.ops[i]))
    {
      LiveAllowsLive(s, i, j);
    }
  }

  /** A call just made, not yet started. */
  predicate JustCalled(op: Op) {
    (op.PlainOp? && op.ppc.PStart?) || (op.AtomicOp? && op.apc.AStart?)
  }

  /** An atomic view of no bytes. */
  predicate EmptyView(op: Op) {
    op.AtomicOp? && op.range.start == op.range.end
  }

  function Granted(s: State, i: nat): State
    requires i < |s.ops| && s.ops[i].AtomicOp?
  {
    s.(ops := s.ops[i := s.ops[i].(apc := ALive(None))])
  }

  lemma EmptyViewStep(s: State, i: nat)
    requires i < |s.ops| && EmptyView(s.ops[i]) && s.ops[i].apc.AStart?
    ensures Ready(s, i) && AdvanceAtomic(s, i) == Granted(s, i)
    ensures !Ready(Granted(s, i), i)
  {
  }

  lemma CallNeedsSteps(s: State, i: nat)
    requires Inv(s) && Ready(s, i)
    ensures LeftToDo(s) > 0
  {
    StepLowersMeasure(s, i);
  }

  /** An empty atomic view is granted whatever views are alive, and registers nothing. */
  lemma EmptyViewIsGranted(s: State, i: nat, n: nat)
    requires i < |s.ops| && EmptyView(s.ops[i]) && s.ops[i].apc.AStart? && n > 0
    ensures Solo(s, i, n) == Granted(s, i)
  {
    EmptyViewStep(s, i);
    SoloEnds(Granted(s, i), i, n - 1);
    assert Apply(s, Advance(i)) == Granted(s, i);
  }

  /**
   A registration that runs with no other call in progress returns, leaves
   the other views alone, and succeeds exactly when no live view forbids
   it. An atomic registration is refused for its element size exactly when
   some live atomic view of another size overlaps. An empty atomic view is
   always granted and leaves the registry as it was.
   */
  lemma AnswersAreExact(s: State, i: nat, n: nat)
    requires Inv(s) && OthersSettled(s, i) && JustCalled(s.ops[i])
    requires LeftToDo(s) <= n
    ensures var s' := Solo(s, i, n);
            if EmptyView(s.ops[i]) then
              s' == Granted(s, i)
            else
              && MovesOnly(s, i, s')
              && (LivePlain(s'.ops[i]) || LiveAtomic(s'.ops[i]) || Refusal(s'.ops[i]).Some?)
              && (Refusal(s'.ops[i]).Some? <==> Forbidden(s, i))
              && (Refusal(s'.ops[i]) == Some(MixedSize) <==> ForbiddenBySize(s, i))
  {
    if EmptyView(s.ops[i]) {
      EmptyViewStep(s, i);
      CallNeedsSteps(s, i);
      EmptyViewIsGranted(s, i, n);
    } else {
      SoloReturns(s, i, s, n);
      SoloOutcome(s, i, n);
      SettledAnswer(s, i, Solo(s, i, n));
      ForbiddenUnmoved(s, i, Solo(s, i, n));
    }
  }

  lemma SizeForbids(s: State, i: nat)
    requires ForbiddenBySize(s, i)
    ensures Forbidden(s, i)
  {
    var j :| 0 <= j < |s.ops| && j != i && ForbidsBySize(s.ops[j], s.ops[i].range, s.ops[i].size);
    assert Forbids(s.ops[j], s.ops[i].range, SizeAsked(s.ops[i]));
  }

  lemma RegisteringSettles(op: Op)
    requires Registering(op) && Settled(op)
    ensures LivePlain(op) || LiveAtomic(op) || Refusal(op).Some?
    ensures Refusal(op).Some? ==> !LivePlain(op) && !LiveAtomic(op)
  {
  }

  /** A returned registration tells whether it was forbidden. */
  lemma SettledAnswer(s: State, i: nat, s': State)
    requires SoloInv(s, i, s') && Registering(s'.ops[i]) && Settled(s'.ops[i])
    ensures LivePlain(s'.ops[i]) || LiveAtomic(s'.ops[i]) || Refusal(s'.ops[i]).Some?
    ensures Refusal(s'.ops[i]).Some? <==> Forbidden(s', i)
    ensures Refusal(s'.ops[i]) == Some(MixedSize) <==> ForbiddenBySize(s', i)
  {
    RegisteringSettles(s'.ops[i]);
    if Refusal(s'.ops[i]).None? {
      GrantedIsAllowed(s', i);
    }
    if ForbiddenBySize(s', i) {
      SizeForbids(s', i);
    }
  }

  /** A registration in progress, alive, or refused: never dropped unasked. */
  predicate Registering(op: Op) {
    match op
    case PlainOp(_, _, pc) =>
      (match pc
       case PDropStart(_, refused) => refused
       case PRemove(_, refused) => refused
       case PRemoved(refused) => refused
       case PDone(refused) => refused
       case _ => true)
    case AtomicOp(range, _, pc) =>
      && range.start != range.end
      && !pc.ADropStart? && !pc.ARemove? && !pc.ARemoved? && !pc.ADropped?
      && (pc.ALive? ==> pc.view.Some?) && (pc.ADone? ==> pc.refused.Some? && !pc.refused.value.AtomicLive?)
      && (pc.ARefuse? ==> !pc.why.AtomicLive?)
    case CopyOp(_, _) => false
  }

  lemma StaysRegistering(s: State, i: nat)
    requires Ready(s, i) && Registering(s.ops[i])
    ensures i < |AdvanceOp(s, i).ops| && Registering(AdvanceOp(s, i).ops[i])
  {
  }

  lemma {:induction false} SoloOutcome(s: State, i: nat, n: nat)
    requires i < |s.ops| && Registering(s.ops[i])
    ensures var s' := Solo(s, i, n); i < |s'.ops| && Registering(s'.ops[i])
    decreases n
  {
    if n > 0 {
      if Ready(s, i) {
        StaysRegistering(s, i);
      }
      SoloOutcome(Apply(s, Advance(i)), i, n - 1);
    }
  }
}
