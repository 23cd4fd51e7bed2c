/**
 The registry's own locks cannot deadlock, and calls run out of steps
 (lock order: the atomic set, then one shard, never the reverse).
 */
module RegistryLiveness {
  import opened Ranges
  import opened Registry
  import opened RegistrySafety

  // ----- some thread can always step -----

  /** The call has returned (or the drop has finished): nothing is left to do. */
  predicate Settled(op: Op) {
    match op
    case PlainOp(_, _, pc) => pc.PLive? || pc.PDone?
    case AtomicOp(_, _, pc) => pc.ALive? || pc.ADone?
    case CopyOp(_, pc) => pc.CDone?
  }

  predicate WantsRead(op: Op) {
    (op.PlainOp? && op.ppc.PWait?) || (op.CopyOp? && op.cpc.CStart?)
  }

  predicate WantsWrite(op: Op) {
    op.AtomicOp? && (op.apc.AWait? || op.apc.ADropStart?)
  }

  /** `Ready` under a lock that makes new readers wait behind a waiting writer. */
  ghost predicate ReadyFair(s: State, i: nat) {
    && Ready(s, i)
    && (WantsRead(s.ops[i]) ==> forall w :: 0 <= w < |s.ops| ==> !WantsWrite(s.ops[w]))
  }

  lemma ShardHolderCanStep(s: State, k: nat) returns (i: nat)
    requires LockInv(s) && k < |s.shards| && s.shards[k].holder.Some?
    ensures ReadyFair(s, i)
  {
    i := s.shards[k].holder.value;
    assert ShardHeld(s.ops[i]) == Some(k);
    assert WellFormed(s.ops[i], |s.shards|);
  }

  lemma WriterCanStep(s: State) returns (i: nat)
    requires LockInv(s) && s.writer.Some?
    ensures ReadyFair(s, i)
  {
    i := s.writer.value;
    assert HoldsWrite(s.ops[i]);
    assert WellFormed(s.ops[i], |s.shards|);
    var pc := s.ops[i].apc;
    if pc.AScan? && pc.k < |s.shards| && s.shards[pc.k].holder.Some? {
      i := ShardHolderCanStep(s, pc.k);
    }
  }

  lemma ReaderCanStep(s: State) returns (i: nat)
    requires LockInv(s) && s.readers != {}
    ensures ReadyFair(s, i)
  {
    i :| i in s.readers;
    assert HoldsRead(s.ops[i]);
    assert WellFormed(s.ops[i], |s.shards|);
  }

  lemma WriteRequestCanStep(s: State, u: nat) returns (i: nat)
    requires LockInv(s) && u < |s.ops| && WantsWrite(s.ops[u])
    ensures ReadyFair(s, i)
  {
    if s.writer.Some? {
      i := WriterCanStep(s);
    } else if s.readers != {} {
      i := ReaderCanStep(s);
    } else {
      i := u;
    }
  }

  lemma ReadRequestCanStep(s: State, u: nat) returns (i: nat)
    requires LockInv(s) && u < |s.ops| && WantsRead(s.ops[u])
    ensures ReadyFair(s, i)
  {
    assert WellFormed(s.ops[u], |s.shards|);
    if s.writer.Some? {
      i := WriterCanStep(s);
    } else if w :| 0 <= w < |s.ops| && WantsWrite(s.ops[w]) {
      i := WriteRequestCanStep(s, w);
    } else {
      i := u;
    }
  }

  /**
   While some operation is unfinished, some thread can take a step, even
   when readers queue behind waiting writers.
   */
  lemma NoDeadlock(s: State, u: nat) returns (i: nat)
    requires Inv(s) && u < |s.ops| && !Settled(s.ops[u])
    ensures ReadyFair(s, i)
  {
    var op := s.ops[u];
    assert WellFormed(op, |s.shards|);
    if WantsWrite(op) {
      i := WriteRequestCanStep(s, u);
    } else if WantsRead(op) {
      i := ReadRequestCanStep(s, u);
    } else if op.PlainOp? && s.shards[op.shard].holder.Some? {
      i := ShardHolderCanStep(s, op.shard);
    } else if op.AtomicOp? && op.apc.AScan? && op.apc.k < |s.shards| && s.shards[op.apc.k].holder.Some? {
      i := ShardHolderCanStep(s, op.apc.k);
    } else {
      i := u;
    }
  }

  // ----- and the steps run out -----

  /** Steps an operation may still take, from its counter and unscanned shards. */
  function Rank(op: Op, shards: nat): nat {
    match op
    case PlainOp(_, _, pc) =>
      (match pc
       case PStart => 10
       case PInsert => 9
       case PInserted(_) => 8
       case PLoad(_) => 7
       case PWait(_) => 6
       case PCheck(_) => 5
       case PChecked(_, _) => 4
       case PDropStart(_, _) => 3
       case PRemove(_, _) => 2
       case PRemoved(_) => 1
       case PLive(_) => 0
       case PDone(_) => 0)
    case AtomicOp(_, _, pc) =>
      (match pc
       case AStart => 3 * shards + 9
       case AWait => 3 * shards + 8
       case AMixed => 3 * shards + 7
       case AAnnounce => 3 * shards + 6
       case AScan(k) => 3 * Unscanned(shards, k) + 5
       case AScanning(k) => 3 * Unscanned(shards, k) + 4
       case AScanned(k, _) => 3 * Unscanned(shards, k) + 3
       case ARollback => 2
       case ARefuse(_) => 1
       case ACommitted(_) => 1
       case ADropStart(_) => 4
       case ARemove(_) => 3
       case ARemoved => 2
       case ADropped => 1
       case ALive(_) => 0
       case ADone(_) => 0)
    case CopyOp(_, pc) => if pc.CStart? then 2 else if pc.CHeld? then 1 else 0
  }

  function Unscanned(shards: nat, k: nat): nat {
    if k < shards then shards - k else 0
  }

  function StepsLeft(ops: seq<Op>, shards: nat): nat {
    if ops == [] then 0 else StepsLeft(ops[..|ops| - 1], shards) + Rank(ops[|ops| - 1], shards)
  }

  lemma {:induction false} StepsLeftUpdate(ops: seq<Op>, i: nat, op: Op, shards: nat)
    requires i < |ops|
    ensures StepsLeft(ops[i := op], shards) + Rank(ops[i], shards) == StepsLeft(ops, shards) + Rank(op, shards)
  {
    var front := ops[..|ops| - 1];
    if i < |ops| - 1 {
      StepsLeftUpdate(front, i, op, shards);
      assert ops[i := op][..|ops| - 1] == front[i := op];
    } else {
      assert ops[i := op][..|ops| - 1] == front;
    }
  }

  lemma PlainStepLowersRank(s: State, i: nat)
    requires Ready(s, i) && s.ops[i].PlainOp?
    ensures var s' := AdvancePlain(s, i);
            && s'.ops == s.ops[i := s'.ops[i]]
            && |s'.shards| == |s.shards|
            && Rank(s'.ops[i], |s.shards|) < Rank(s.ops[i], |s.shards|)
  {
  }

  lemma AtomicStepLowersRank(s: State, i: nat)
    requires Ready(s, i) && s.ops[i].AtomicOp? && WellFormed(s.ops[i], |s.shards|)
    ensures var s' := AdvanceAtomic(s, i);
            && s'.ops == s.ops[i := s'.ops[i]]
            && |s'.shards| == |s.shards|
            && Rank(s'.ops[i], |s.shards|) < Rank(s.ops[i], |s.shards|)
  {
  }

  lemma StepLowersRank(s: State, i: nat)
    requires ShardLockInv(s) && Ready(s, i)
    ensures var s' := AdvanceOp(s, i);
            && s'.ops == s.ops[i := s'.ops[i]]
            && |s'.shards| == |s.shards|
            && Rank(s'.ops[i], |s.shards|) < Rank(s.ops[i], |s.shards|)
  {
    match s.ops[i]
    case PlainOp(_, _, _) => PlainStepLowersRank(s, i);
    case AtomicOp(_, _, _) => AtomicStepLowersRank(s, i);
    case CopyOp(_, _) =>
  }

  /** Every step of an unfinished call uses up at least one of the steps left. */
  lemma StepLowersMeasure(s: State, i: nat)
    requires Inv(s) && Ready(s, i)
    ensures var s' := AdvanceOp(s, i);
            StepsLeft(s'.ops, |s'.shards|) < StepsLeft(s.ops, |s.shards|)
  {
    var s' := AdvanceOp(s, i);
    StepLowersRank(s, i);
    StepsLeftUpdate(s.ops, i, s'.ops[i], |s.shards|);
  }

  /** A schedule that only advances calls, each step when it is possible. */
  ghost predicate OnlyAdvances(s: State, schedule: seq<Step>) {
    schedule != [] ==>
      var before, last := schedule[..|schedule| - 1], schedule[|schedule| - 1];
      && OnlyAdvances(s, before)
      && last.Advance? && Enabled(Run(s, before), last)
  }

  lemma AdvanceKeepsGoing(s: State, i: nat)
    requires Inv(s) && Ready(s, i)
    ensures var s' := Apply(s, Advance(i));
            Inv(s') && StepsLeft(s'.ops, |s'.shards|) < StepsLeft(s.ops, |s.shards|)
  {
    StepKeepsInv(s, Advance(i));
    StepLowersMeasure(s, i);
  }

  /** With no new calls or drops, only boundedly many steps can be taken. */
  lemma {:induction false} RunsEnd(s: State, schedule: seq<Step>)
    requires Inv(s) && OnlyAdvances(s, schedule)
    ensures var s' := Run(s, schedule);
            Inv(s') && |schedule| + StepsLeft(s'.ops, |s'.shards|) <= StepsLeft(s.ops, |s.shards|)
  {
    if schedule != [] {
      var before, last := schedule[..|schedule| - 1], schedule[|schedule| - 1];
      RunsEnd(s, before);
      AdvanceKeepsGoing(Run(s, before), last.op);
    }
  }

  /** Such a schedule, taking only steps that a writer-preferring lock allows. */
  ghost predicate FairAdvances(s: State, schedule: seq<Step>) {
    schedule != [] ==>
      var before, last := schedule[..|schedule| - 1], schedule[|schedule| - 1];
      && FairAdvances(s, before)
      && last.Advance? && ReadyFair(Run(s, before), last.op)
  }

  lemma {:induction false} FairIsPossible(s: State, schedule: seq<Step>)
    requires FairAdvances(s, schedule)
    ensures OnlyAdvances(s, schedule)
  {
    if schedule != [] {
      FairIsPossible(s, schedule[..|schedule| - 1]);
    }
  }

  ghost predicate AllSettled(s: State) {
    forall i :: 0 <= i < |s.ops| ==> Settled(s.ops[i])
  }

  /** The measure after a schedule. */
  ghost function LeftAfter(s: State, schedule: seq<Step>): nat {
    StepsLeft(Run(s, schedule).ops, |Run(s, schedule).shards|)
  }

  lemma FairStep(s: State, sofar: seq<Step>, i: nat)
    requires FairAdvances(s, sofar) && ReadyFair(Run(s, sofar), i)
    ensures FairAdvances(s, sofar + [Advance(i)])
    ensures Run(s, sofar + [Advance(i)]) == AdvanceOp(Run(s, sofar), i)
  {
    assert (sofar + [Advance(i)])[..|sofar|] == sofar;
  }

  /** If some call is unfinished, the schedule can be extended by one step. */
  lemma ExtendSchedule(s: State, sofar: seq<Step>) returns (next: seq<Step>)
    requires Inv(s) && FairAdvances(s, sofar) && !AllSettled(Run(s, sofar))
    ensures FairAdvances(s, next) && LeftAfter(s, next) < LeftAfter(s, sofar)
  {
    var now := Run(s, sofar);
    FairIsPossible(s, sofar);
    RunsEnd(s, sofar);
    var u :| 0 <= u < |now.ops| && !Settled(now.ops[u]);
    var i := NoDeadlock(now, u);
    next := sofar + [Advance(i)];
    FairStep(s, sofar, i);
    StepLowersMeasure(now, i);
  }

  lemma CompleteFrom(s: State, sofar: seq<Step>) returns (schedule: seq<Step>)
    requires Inv(s) && FairAdvances(s, sofar)
    ensures FairAdvances(s, schedule) && AllSettled(Run(s, schedule))
    decreases LeftAfter(s, sofar)
  {
    if AllSettled(Run(s, sofar)) {
      schedule := sofar;
    } else {
      var next := ExtendSchedule(s, sofar);
      schedule := CompleteFrom(s, next);
    }
  }

  /** From every reachable state all unfinished calls can run to completion. */
  lemma CallsCanComplete(shards: nat, sofar: seq<Step>) returns (schedule: seq<Step>)
    ensures var s := Run(Init(shards), sofar);
            FairAdvances(s, schedule) && AllSettled(Run(s, schedule))
  {
    RunKeepsInv(shards, sofar);
    schedule := CompleteFrom(Run(Init(shards), sofar), []);
  }
}
