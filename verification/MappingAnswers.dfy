/** What the calls on the whole mapping answer, over every run, and what their moves do to the bytes. */
module MappingAnswers {
  import opened Ranges
  import opened Bounds
  import opened Registry
  import opened RegistrySafety
  import opened RegistryLiveness
  import opened RegistryAnswers
  import opened Mapping
  import opened MappingSafety

  // ----- refusals by the registry -----

  /** A registry call made for task `t` was refused. */
  ghost predicate RefusedCall(s: Sys, t: nat) {
    exists r :: 0 <= r < |s.owner| && r < |s.reg.ops| && s.owner[r] == t && Refusal(s.reg.ops[r]).Some?
  }

  predicate Misplaced(job: Job) {
    job.View? && job.size > 0 && job.offset % job.size != 0
  }

  /** The errors a call can end with, and whether they fit what happened to it. */
  ghost predicate ErrorOk(s: Sys, t: nat, error: Option<Error>)
    requires t < |s.tasks|
  {
    && (error == Some(InvalidMode) <==> RefusedCall(s, t))
    && (error.Some? && error.value.Misaligned? <==> Misplaced(s.tasks[t].job))
    && (Misplaced(s.tasks[t].job) ==> error == Some(Misaligned(s.tasks[t].job.size, s.tasks[t].job.offset)))
    && (error.Some? ==> error.value.InvalidMode? || error.value.OutOfBounds? || error.value.Misaligned?)
  }

  /** Where task `t` stands, its registry calls are as they should be. */
  ghost predicate AnswerOk(s: Sys, t: nat)
    requires t < |s.tasks|
  {
    match s.tasks[t].pc
    case Using(op) => forall r :: 0 <= r < |s.owner| && s.owner[r] == t ==> r == op
    case Leaving(error) => ErrorOk(s, t, error) && OwnCallsEnded(s, t)
    case Gone(error) => ErrorOk(s, t, error) && OwnCallsEnded(s, t)
    case Writing => Fits(s.tasks[t].job, |s.mem|) && forall r :: 0 <= r < |s.owner| ==> s.owner[r] != t
    case _ => forall r :: 0 <= r < |s.owner| ==> s.owner[r] != t
  }

  ghost predicate OwnCallsEnded(s: Sys, t: nat) {
    forall r :: 0 <= r < |s.owner| && r < |s.reg.ops| && s.owner[r] == t ==> Finished(s.reg.ops[r])
  }

  ghost predicate AnswersInv(s: Sys) {
    forall t :: 0 <= t < |s.tasks| ==> AnswerOk(s, t)
  }

  /** A step of an unfinished registry call touches no answer that is already there. */
  lemma RegistryMoveKeepsAnswer(s: Sys, i: nat, reg: State, t: nat)
    requires OwnerInv(s) && t < |s.tasks| && AnswerOk(s, t)
    requires MovesOnly(s.reg, i, reg) && !Finished(s.reg.ops[i])
    ensures AnswerOk(s.(reg := reg), t)
  {
    var s' := s.(reg := reg);
    forall r | 0 <= r < |s.owner| && s.owner[r] == t && Finished(s.reg.ops[r]) ensures reg.ops[r] == s.reg.ops[r] {
    }
    if s.tasks[t].pc.Leaving? || s.tasks[t].pc.Gone? {
      assert OwnCallsEnded(s', t);
      assert RefusedCall(s', t) <==> RefusedCall(s, t);
    }
  }

  /** Another task's move to `pc` changes nothing for `t`. */
  lemma GotoKeepsAnswer(s: Sys, u: nat, pc: Pc, t: nat)
    requires u < |s.tasks| && t < |s.tasks| && t != u && AnswerOk(s, t)
    ensures AnswerOk(Goto(s, u, pc), t)
  {
    assert RefusedCall(Goto(s, u, pc), t) <==> RefusedCall(s, t);
  }

  /** A task without registry calls ends by being out of bounds or without error, or goes on. */
  lemma GoesWithoutCall(s: Sys, t: nat, pc: Pc)
    requires t < |s.tasks| && forall r :: 0 <= r < |s.owner| ==> s.owner[r] != t
    requires !Misplaced(s.tasks[t].job)
    requires pc.Holding? || (pc.Writing? && Fits(s.tasks[t].job, |s.mem|))
             || (pc.Leaving? && (pc.error.None? || pc.error.value.OutOfBounds?))
    ensures AnswerOk(Goto(s, t, pc), t)
  {
    assert !RefusedCall(Goto(s, t, pc), t);
  }

  lemma CallKeepsAnswer(s: Sys, u: nat, call: Step, op: Op, t: nat)
    requires OwnerInv(s) && u < |s.tasks| && t < |s.tasks| && AnswerOk(s, t) && s.tasks[u].pc.Holding? && AnswerOk(s, u)
    requires Apply(s.reg, call) == s.reg.(ops := s.reg.ops + [op])
    ensures AnswerOk(CallRegistry(s, u, call), t)
  {
    var s' := CallRegistry(s, u, call);
    assert forall r :: 0 <= r < |s.owner| ==> s'.owner[r] == s.owner[r] && s'.reg.ops[r] == s.reg.ops[r];
    if t != u {
      assert RefusedCall(s', t) <==> RefusedCall(s, t);
    }
  }

  lemma NotMisplaced(s: Sys, t: nat)
    requires OwnerInv(s) && t < |s.tasks| && !s.tasks[t].pc.Gone?
    ensures !Misplaced(s.tasks[t].job)
  {
    assert Sound(s.tasks[t], |s.reg.shards|);
  }

  lemma CheckKeepsAnswer(s: Sys, u: nat, t: nat)
    requires SysInv(s) && AnswersInv(s) && Possible(s, Check(u)) && t < |s.tasks|
    ensures t < |Do(s, Check(u)).tasks| && AnswerOk(Do(s, Check(u)), t)
  {
    var job := s.tasks[u].job;
    CheckOutcome(s, u);
    NotMisplaced(s, u);
    assert AnswerOk(s, t) && AnswerOk(s, u);
    if Fits(job, |s.mem|) && Reads(job) {
      assert Sound(s.tasks[u], |s.reg.shards|);
      FirstCallJoins(s, u);
      CallKeepsAnswer(s, u, FirstCall(job), FirstOp(job), t);
    } else {
      var pc := Do(s, Check(u)).tasks[u].pc;
      assert Do(s, Check(u)) == Goto(s, u, pc);
      if t == u {
        GoesWithoutCall(s, u, pc);
      } else {
        GotoKeepsAnswer(s, u, pc, t);
      }
    }
  }

  lemma FirstCallJoins(s: Sys, t: nat)
    requires OwnerInv(s) && Possible(s, Check(t)) && Reads(s.tasks[t].job)
    ensures Apply(s.reg, FirstCall(s.tasks[t].job)) == s.reg.(ops := s.reg.ops + [FirstOp(s.tasks[t].job)])
  {
    assert Sound(s.tasks[t], |s.reg.shards|);
  }

  lemma RefusedIsRefusal(op: Op)
    requires Finished(op)
    ensures Refused(op) <==> Refusal(op).Some?
  {
  }

  /** The answer of a finished registry call is its refusal, or none. */
  lemma FinishKeepsAnswer(s: Sys, u: nat, t: nat)
    requires SysInv(s) && AnswersInv(s) && Possible(s, Finish(u)) && t < |s.tasks|
    ensures t < |Do(s, Finish(u)).tasks| && AnswerOk(Do(s, Finish(u)), t)
  {
    var s' := Do(s, Finish(u));
    assert AnswerOk(s, t) && AnswerOk(s, u);
    if t == u {
      var op := s.tasks[u].pc.op;
      RefusedIsRefusal(s.reg.ops[op]);
      NotMisplaced(s, u);
      assert s.owner[op] == u;
      assert RefusedCall(s', u) <==> Refusal(s.reg.ops[op]).Some?;
    } else {
      GotoKeepsAnswer(s, u, s'.tasks[u].pc, t);
    }
  }

  lemma AnswerIgnoresGuards(s: Sys, t: nat, readers: set<nat>, writer: Option<nat>)
    requires t < |s.tasks| && AnswerOk(s, t)
    ensures AnswerOk(s.(readers := readers, writer := writer), t)
  {
    var s' := s.(readers := readers, writer := writer);
    assert RefusedCall(s', t) <==> RefusedCall(s, t);
  }

  lemma AcquireKeepsAnswer(s: Sys, u: nat, t: nat)
    requires SysInv(s) && AnswersInv(s) && Possible(s, Acquire(u)) && t < |s.tasks|
    ensures t < |Do(s, Acquire(u)).tasks| && AnswerOk(Do(s, Acquire(u)), t)
  {
    var s' := Do(s, Acquire(u));
    var mid := Goto(s, u, Holding);
    assert AnswerOk(s, t) && AnswerOk(s, u);
    if t == u {
      NotMisplaced(s, u);
      GoesWithoutCall(s, u, Holding);
    } else {
      GotoKeepsAnswer(s, u, Holding, t);
    }
    AnswerIgnoresGuards(mid, t, s'.readers, s'.writer);
  }

  lemma ReleaseKeepsAnswer(s: Sys, u: nat, t: nat)
    requires AnswersInv(s) && Possible(s, Release(u)) && t < |s.tasks|
    ensures t < |Do(s, Release(u)).tasks| && AnswerOk(Do(s, Release(u)), t)
  {
    var s' := Do(s, Release(u));
    var mid := Goto(s, u, Gone(s.tasks[u].pc.error));
    assert AnswerOk(s, t) && AnswerOk(s, u);
    if t == u {
      assert RefusedCall(mid, u) <==> RefusedCall(s, u);
    } else {
      GotoKeepsAnswer(s, u, Gone(s.tasks[u].pc.error), t);
    }
    AnswerIgnoresGuards(mid, t, s'.readers, s'.writer);
  }

  lemma LeaveKeepsAnswer(s: Sys, u: nat, t: nat)
    requires SysInv(s) && AnswersInv(s) && Possible(s, Leave(u)) && t < |s.tasks|
    ensures t < |Do(s, Leave(u)).tasks| && AnswerOk(Do(s, Leave(u)), t)
  {
    assert AnswerOk(s, t) && AnswerOk(s, u);
    if t == u {
      NotMisplaced(s, u);
      GoesWithoutCall(s, u, Leaving(None));
    } else {
      GotoKeepsAnswer(s, u, Leaving(None), t);
    }
  }

  lemma BeginKeepsAnswer(s: Sys, job: Job, t: nat)
    requires OwnerInv(s) && AnswersInv(s) && Possible(s, Begin(job)) && t <= |s.tasks|
    ensures t < |Do(s, Begin(job)).tasks| && AnswerOk(Do(s, Begin(job)), t)
  {
    var s' := Do(s, Begin(job));
    if t < |s.tasks| {
      assert AnswerOk(s, t);
      assert RefusedCall(s', t) <==> RefusedCall(s, t);
    } else {
      assert !RefusedCall(s', t);
    }
  }

  /** A writer holds the write guard, so no two are writing at once. */
  lemma OneWriter(s: Sys, t: nat, u: nat)
    requires GuardInv(s) && t < |s.tasks| && u < |s.tasks| && s.tasks[t].pc.Writing? && s.tasks[u].pc.Writing?
    ensures t == u
  {
    assert HoldsWriteGuard(s.tasks[t]) && HoldsWriteGuard(s.tasks[u]);
  }

  lemma MemoryKeepsAnswer(s: Sys, move: Move, t: nat)
    requires SysInv(s) && AnswersInv(s) && Possible(s, move) && (move.Store? || move.Mutate?) && t < |s.tasks|
    ensures t < |Do(s, move).tasks| && AnswerOk(Do(s, move), t)
  {
    var s' := Do(s, move);
    assert AnswerOk(s, t);
    MemoryMoveChangesBytes(s, move);
    assert RefusedCall(s', t) <==> RefusedCall(s, t);
    if move.Mutate? && s.tasks[t].pc.Writing? {
      OneWriter(s, t, move.task);
    }
  }

  lemma MoveKeepsAnswer(s: Sys, move: Move, t: nat)
    requires SysInv(s) && AnswersInv(s) && Possible(s, move) && t < |Do(s, move).tasks|
    ensures AnswerOk(Do(s, move), t)
  {
    match move
    case Begin(job) => BeginKeepsAnswer(s, job, t);
    case Acquire(u) => AcquireKeepsAnswer(s, u, t);
    case Check(u) => CheckKeepsAnswer(s, u, t);
    case Registering(i) =>
      AdvanceUnfinished(s.reg, i);
      assert AnswerOk(s, t);
      RegistryMoveKeepsAnswer(s, i, Apply(s.reg, Advance(i)), t);
    case DropView(u) =>
      var i := s.tasks[u].pc.op;
      DropUnfinished(s.reg, i);
      assert AnswerOk(s, t);
      RegistryMoveKeepsAnswer(s, i, Apply(s.reg, Drop(i)), t);
    case Finish(u) => FinishKeepsAnswer(s, u, t);
    case Release(u) => ReleaseKeepsAnswer(s, u, t);
    case Leave(u) => LeaveKeepsAnswer(s, u, t);
    case _ => MemoryKeepsAnswer(s, move, t);
  }

  lemma {:induction false} PlayKeepsAnswers(shards: nat, bytes: Bytes, moves: seq<Move>)
    ensures AnswersInv(Play(Fresh(shards, bytes), moves))
  {
    if moves != [] {
      var before, last := moves[..|moves| - 1], moves[|moves| - 1];
      PlayKeepsAnswers(shards, bytes, before);
      PlayKeepsInv(shards, bytes, before);
      var s := Play(Fresh(shards, bytes), before);
      if Possible(s, last) {
        forall t | 0 <= t < |Do(s, last).tasks| ensures AnswerOk(Do(s, last), t) {
          MoveKeepsAnswer(s, last, t);
        }
      }
    }
  }

  // ----- requests that do not fit -----

  /** Move `k` of the run was the bounds check of task `t`, and what it asks for did not fit then. */
  ghost predicate UnfitAt(start: Sys, moves: seq<Move>, t: nat, k: nat) {
    k < |moves| && moves[k] == Check(t) &&
    var s := Play(start, moves[..k]);
    Possible(s, Check(t)) && !Fits(s.tasks[t].job, |s.mem|)
  }

  ghost predicate DidNotFit(start: Sys, moves: seq<Move>, t: nat) {
    exists k :: UnfitAt(start, moves, t, k)
  }

  predicate EndsOutOfBounds(pc: Pc) {
    (pc.Leaving? || pc.Gone?) && pc.error.Some? && pc.error.value.OutOfBounds?
  }

  /** The error names the request and the length at the time of the check. */
  ghost predicate NamesCheck(start: Sys, moves: seq<Move>, t: nat, error: Error) {
    exists k :: UnfitAt(start, moves, t, k) && error == ErrorAt(start, moves, t, k)
  }

  ghost function ErrorAt(start: Sys, moves: seq<Move>, t: nat, k: nat): Error
    requires UnfitAt(start, moves, t, k)
  {
    var s := Play(start, moves[..k]);
    OutOfBounds(s.tasks[t].job.offset, Reported(s.tasks[t].job), |s.mem|)
  }

  lemma UnfitExtends(start: Sys, before: seq<Move>, last: Move, t: nat, k: nat)
    ensures k < |before| ==> (UnfitAt(start, before + [last], t, k) <==> UnfitAt(start, before, t, k))
    ensures k == |before| ==>
              var s := Play(start, before);
              (UnfitAt(start, before + [last], t, k) <==>
                 last == Check(t) && Possible(s, Check(t)) && !Fits(s.tasks[t].job, |s.mem|))
  {
    var moves := before + [last];
    if k < |before| {
      assert moves[..k] == before[..k];
    } else if k == |before| {
      assert moves[..k] == before;
    }
  }

  /** A check ends the call out of bounds exactly if the request does not fit. */
  lemma OutcomeOfCheck(s: Sys, t: nat)
    requires Possible(s, Check(t))
    ensures var pc := Do(s, Check(t)).tasks[t].pc;
            && !EndsOutOfBounds(s.tasks[t].pc)
            && (EndsOutOfBounds(pc) <==> !Fits(s.tasks[t].job, |s.mem|))
            && (EndsOutOfBounds(pc) ==>
                  pc.error == Some(OutOfBounds(s.tasks[t].job.offset, Reported(s.tasks[t].job), |s.mem|)))
  {
    CheckOutcome(s, t);
  }

  lemma ChecksOfOthers(s: Sys, u: nat, t: nat)
    requires Possible(s, Check(u)) && t != u && t < |s.tasks|
    ensures Do(s, Check(u)).tasks[t] == s.tasks[t]
  {
    CheckOutcome(s, u);
  }

  /** Every other move keeps such an end as it is and makes none. */
  lemma OutcomeOfOther(s: Sys, move: Move, t: nat)
    requires !(move.Check? && Possible(s, move)) && t < |Do(s, move).tasks|
    ensures var pc := Do(s, move).tasks[t].pc;
            && (EndsOutOfBounds(pc) <==> t < |s.tasks| && EndsOutOfBounds(s.tasks[t].pc))
            && (EndsOutOfBounds(pc) ==> pc.error == s.tasks[t].pc.error)
  {
  }

  lemma OutcomeOfMove(s: Sys, move: Move, t: nat)
    requires t < |Do(s, move).tasks| && !(move == Check(t) && Possible(s, move))
    ensures var pc := Do(s, move).tasks[t].pc;
            && (EndsOutOfBounds(pc) <==> t < |s.tasks| && EndsOutOfBounds(s.tasks[t].pc))
            && (EndsOutOfBounds(pc) ==> pc.error == s.tasks[t].pc.error)
  {
    if move.Check? && Possible(s, move) {
      CheckAddsNoTask(s, move.task);
      ChecksOfOthers(s, move.task, t);
    } else {
      OutcomeOfOther(s, move, t);
    }
  }

  lemma CheckAddsNoTask(s: Sys, u: nat)
    requires Possible(s, Check(u))
    ensures |Do(s, Check(u)).tasks| == |s.tasks|
  {
    CheckOutcome(s, u);
  }

  /** A call ends out of bounds exactly if its check did not fit, and says so rightly. */
  lemma {:induction false} OutOfBoundsIff(shards: nat, bytes: Bytes, moves: seq<Move>, t: nat)
    ensures var start := Fresh(shards, bytes);
            var s := Play(start, moves);
            && (DidNotFit(start, moves, t) <==> t < |s.tasks| && EndsOutOfBounds(s.tasks[t].pc))
            && (DidNotFit(start, moves, t) ==> NamesCheck(start, moves, t, s.tasks[t].pc.error.value))
  {
    var start := Fresh(shards, bytes);
    if moves != [] {
      var before, last := moves[..|moves| - 1], moves[|moves| - 1];
      var s := Play(start, before);
      OutOfBoundsIff(shards, bytes, before, t);
      PlayKeepsInv(shards, bytes, before);
      assert moves == before + [last];
      forall k: nat
        ensures UnfitAt(start, moves, t, k) <==>
                  (k < |before| && UnfitAt(start, before, t, k))
                  || (k == |before| && last == Check(t) && Possible(s, Check(t)) && !Fits(s.tasks[t].job, |s.mem|))
      {
        UnfitExtends(start, before, last, t, k);
      }
      TasksStay(s, last);
      KeepsNaming(start, before, last, t);
      if last == Check(t) && Possible(s, last) {
        OutcomeOfCheck(s, t);
      } else if t < |Do(s, last).tasks| {
        OutcomeOfMove(s, last, t);
      }
    }
  }

  lemma TasksStay(s: Sys, move: Move)
    ensures |s.tasks| <= |Do(s, move).tasks|
  {
  }

  lemma KeepsNaming(start: Sys, before: seq<Move>, last: Move, t: nat)
    ensures forall error :: NamesCheck(start, before, t, error) ==> NamesCheck(start, before + [last], t, error)
    ensures var s := Play(start, before);
            last == Check(t) && Possible(s, last) && !Fits(s.tasks[t].job, |s.mem|) ==>
              NamesCheck(start, before + [last], t,
                         OutOfBounds(s.tasks[t].job.offset, Reported(s.tasks[t].job), |s.mem|))
  {
    var moves := before + [last];
    forall error | NamesCheck(start, before, t, error) ensures NamesCheck(start, moves, t, error) {
      var k: nat :| UnfitAt(start, before, t, k) && error == ErrorAt(start, before, t, k);
      UnfitExtends(start, before, last, t, k);
      assert moves[..k] == before[..k];
      assert UnfitAt(start, moves, t, k) && error == ErrorAt(start, moves, t, k);
    }
    var s := Play(start, before);
    if last == Check(t) && Possible(s, last) && !Fits(s.tasks[t].job, |s.mem|) {
      UnfitExtends(start, before, last, t, |before|);
      assert moves[..|before|] == before;
      assert UnfitAt(start, moves, t, |before|);
    }
  }

  // ----- the answers -----

  /**
   Over every run, a call that has ended, or is about to release the lock,
   answers: `InvalidMode` exactly if the registry refused it; out of bounds
   exactly if its request did not fit when it was checked, with the request
   and the length of that time; misaligned exactly for a misaligned view;
   and no error otherwise.
   */
  lemma AnswersAreRight(shards: nat, bytes: Bytes, moves: seq<Move>, t: nat, error: Option<Error>)
    requires var s := Play(Fresh(shards, bytes), moves);
             t < |s.tasks| && (s.tasks[t].pc == Leaving(error) || s.tasks[t].pc == Gone(error))
    ensures var start := Fresh(shards, bytes);
            var s := Play(start, moves);
            && (error == Some(InvalidMode) <==> RefusedCall(s, t))
            && (error.Some? && error.value.OutOfBounds? <==> DidNotFit(start, moves, t))
            && (DidNotFit(start, moves, t) ==> NamesCheck(start, moves, t, error.value))
            && (error.Some? && error.value.Misaligned? <==> Misplaced(s.tasks[t].job))
            && (error.None? <==>
                  !RefusedCall(s, t) && !DidNotFit(start, moves, t) && !Misplaced(s.tasks[t].job))
  {
    PlayKeepsAnswers(shards, bytes, moves);
    OutOfBoundsIff(shards, bytes, moves, t);
    assert AnswerOk(Play(Fresh(shards, bytes), moves), t);
  }

  /** A task that has ended stays as it is. */
  lemma GoneStays(s: Sys, move: Move, t: nat)
    requires OwnerInv(s) && t < |s.tasks| && s.tasks[t].pc.Gone?
    ensures t < |Do(s, move).tasks| && Do(s, move).tasks[t] == s.tasks[t]
  {
    if move.Check? && Possible(s, move) {
      CheckOutcome(s, move.task);
    }
  }

  predicate AsksNothing(job: Job) {
    (job.Slice? || job.Copy?) && job.len == 0
  }

  /** An empty slice or read succeeds at once, at any offset and whoever holds the lock. */
  lemma {:induction false} EmptyRequestsSucceed(shards: nat, bytes: Bytes, moves: seq<Move>, t: nat)
    requires var s := Play(Fresh(shards, bytes), moves); t < |s.tasks| && AsksNothing(s.tasks[t].job)
    ensures Play(Fresh(shards, bytes), moves).tasks[t].pc == Gone(None)
  {
    var before, last := moves[..|moves| - 1], moves[|moves| - 1];
    var s := Play(Fresh(shards, bytes), before);
    PlayKeepsInv(shards, bytes, before);
    if t < |s.tasks| {
      JobIsFixed(s, last, t);
      EmptyRequestsSucceed(shards, bytes, before, t);
      GoneStays(s, last, t);
    } else {
      NewTask(s, last, t);
    }
  }

  /** A task that is new has just been begun. */
  lemma NewTask(s: Sys, move: Move, t: nat)
    requires |s.tasks| <= t < |Do(s, move).tasks|
    ensures move.Begin? && Do(s, move).tasks[t] == Task(move.job, FirstPc(move.job))
  {
    if move.Check? && Possible(s, move) {
      CheckOutcome(s, move.task);
    }
  }

  // ----- refusals are justified -----

  /** The registry's step in a move of the mapping. */
  function StepOf(s: Sys, move: Move): Option<Step> {
    if !Possible(s, move) then None
    else
      match move
      case Registering(i) => Some(Advance(i))
      case DropView(t) => Some(Drop(s.tasks[t].pc.op))
      case Check(t) =>
        if Fits(s.tasks[t].job, |s.mem|) && Reads(s.tasks[t].job) then Some(FirstCall(s.tasks[t].job)) else None
      case _ => None
  }

  lemma RegistryFollows(s: Sys, move: Move)
    ensures Do(s, move).reg == if StepOf(s, move).Some? then Apply(s.reg, StepOf(s, move).value) else s.reg
  {
    if move.Check? && Possible(s, move) {
      CheckOutcome(s, move.task);
    }
  }

  /** At some moment of the run, call `r` was in progress and a conflicting view was in the registry. */
  ghost predicate ConflictSeen(start: Sys, moves: seq<Move>, r: nat, why: Conflict) {
    exists m, j ::
      && 0 <= m <= |moves|
      && Conflicts(Play(start, moves[..m]).reg, r, j, why)
      && !Settled(Play(start, moves[..m]).reg.ops[r])
  }

  /** A refusal is there already or comes with this move. */
  lemma RefusalOfMove(s: Sys, move: Move, r: nat)
    requires Inv(s.reg) && r < |Do(s, move).reg.ops| && Refusal(Do(s, move).reg.ops[r]).Some?
    ensures r < |s.reg.ops|
    ensures Refusal(s.reg.ops[r]).Some? ==> Refusal(s.reg.ops[r]) == Refusal(Do(s, move).reg.ops[r])
    ensures Refusal(s.reg.ops[r]).None? ==> Do(s, move).reg == Apply(s.reg, Advance(r)) && Ready(s.reg, r)
  {
    RegistryFollows(s, move);
    if StepOf(s, move).Some? {
      RefusalStarts(s.reg, StepOf(s, move).value, r);
    }
  }

  /** A refusal that comes with this move has its conflict before it. */
  lemma ConflictOfMove(s: Sys, move: Move, r: nat) returns (j: nat)
    requires Inv(s.reg) && r < |Do(s, move).reg.ops| && r < |s.reg.ops|
    requires Refusal(s.reg.ops[r]).None? && Refusal(Do(s, move).reg.ops[r]).Some?
    ensures Conflicts(s.reg, r, j, Refusal(Do(s, move).reg.ops[r]).value) && !Settled(s.reg.ops[r])
  {
    RefusalOfMove(s, move, r);
    j := RefusalHasConflict(s.reg, r);
  }

  lemma {:induction false} RefusalHadConflict(shards: nat, bytes: Bytes, moves: seq<Move>, r: nat)
    requires var s := Play(Fresh(shards, bytes), moves); r < |s.reg.ops| && Refusal(s.reg.ops[r]).Some?
    ensures var start := Fresh(shards, bytes);
            ConflictSeen(start, moves, r, Refusal(Play(start, moves).reg.ops[r]).value)
  {
    var start := Fresh(shards, bytes);
    var before, last := moves[..|moves| - 1], moves[|moves| - 1];
    var s := Play(start, before);
    var why := Refusal(Play(start, moves).reg.ops[r]).value;
    PlayKeepsInv(shards, bytes, before);
    RefusalOfMove(s, last, r);
    if Refusal(s.reg.ops[r]).Some? {
      RefusalHadConflict(shards, bytes, before, r);
      var m, j :|
        && 0 <= m <= |before|
        && Conflicts(Play(start, before[..m]).reg, r, j, why)
        && !Settled(Play(start, before[..m]).reg.ops[r]);
      assert before[..m] == moves[..m];
    } else {
      var j := ConflictOfMove(s, last, r);
      assert moves[..|moves| - 1] == before;
      assert Conflicts(Play(start, moves[..|moves| - 1]).reg, r, j, why);
    }
  }

  /** Some moment at which task `t` was waiting for its registration saw an atomic view of its bytes. */
  ghost predicate AtomicViewSeen(start: Sys, moves: seq<Move>, t: nat) {
    exists m, r, j ::
      && 0 <= m <= |moves| && AtTheRegistry(Play(start, moves[..m]), t, r)
      && OverlapsEntry(Play(start, moves[..m]), t, j)
  }

  predicate AtTheRegistry(s: Sys, t: nat, r: nat) {
    t < |s.tasks| && s.tasks[t].pc == Using(r) && r < |s.reg.ops| && !Settled(s.reg.ops[r])
  }

  /** Call `j` has an atomic entry over a byte range of slice `t`. */
  predicate OverlapsEntry(s: Sys, t: nat, j: nat) {
    && t < |s.tasks| && s.tasks[t].job.Slice? && j < |s.reg.ops|
    && EntryOf(s.reg.ops[j]).Some? && Overlaps(s.reg.ops[j].range, SliceRangeOf(s.tasks[t].job))
  }

  lemma {:induction false} CallsKeepOwners(s: Sys, moves: seq<Move>, m: nat, r: nat)
    requires m <= |moves| && r < |Play(s, moves[..m]).owner|
    ensures r < |Play(s, moves).owner| && Play(s, moves).owner[r] == Play(s, moves[..m]).owner[r]
    decreases |moves|
  {
    assert moves[..|moves|] == moves;
    if m < |moves| {
      var before := moves[..|moves| - 1];
      assert before[..m] == moves[..m];
      CallsKeepOwners(s, before, m, r);
      MoveKeepsOwner(Play(s, before), moves[|moves| - 1], r);
    }
  }

  lemma MoveKeepsOwner(s: Sys, move: Move, r: nat)
    requires r < |s.owner|
    ensures r < |Do(s, move).owner| && Do(s, move).owner[r] == s.owner[r]
  {
  }

  lemma {:induction false} JobsStay(s: Sys, moves: seq<Move>, m: nat, t: nat)
    requires m <= |moves| && t < |Play(s, moves[..m]).tasks|
    ensures t < |Play(s, moves).tasks| && Play(s, moves).tasks[t].job == Play(s, moves[..m]).tasks[t].job
    decreases |moves|
  {
    assert moves[..|moves|] == moves;
    if m < |moves| {
      var before := moves[..|moves| - 1];
      assert before[..m] == moves[..m];
      JobsStay(s, before, m, t);
      JobIsFixed(Play(s, before), moves[|moves| - 1], t);
    }
  }

  lemma ConflictIsOverlap(s: Sys, t: nat, r: nat, j: nat)
    requires SysInv(s) && t < |s.tasks| && s.tasks[t].job.Slice? && r < |s.reg.ops| && s.owner[r] == t
    requires !Settled(s.reg.ops[r]) && Conflicts(s.reg, r, j, AtomicLive)
    ensures AtTheRegistry(s, t, r) && OverlapsEntry(s, t, j)
  {
    UnsettledIsServed(s, r);
  }

  lemma UnsettledSliceIsPlain(s: Sys, t: nat, r: nat)
    requires SysInv(s) && t < |s.tasks| && s.tasks[t].job.Slice? && r < |s.reg.ops| && s.owner[r] == t
    requires !Settled(s.reg.ops[r])
    ensures s.reg.ops[r].PlainOp?
  {
    UnsettledIsServed(s, r);
  }

  lemma RefusedCallMetAtomicView(shards: nat, bytes: Bytes, moves: seq<Move>, t: nat, r: nat)
    requires var s := Play(Fresh(shards, bytes), moves);
             && t < |s.tasks| && s.tasks[t].job.Slice?
             && r < |s.owner| && r < |s.reg.ops| && s.owner[r] == t && Refusal(s.reg.ops[r]).Some?
    ensures AtomicViewSeen(Fresh(shards, bytes), moves, t)
  {
    var start := Fresh(shards, bytes);
    RefusalHadConflict(shards, bytes, moves, r);
    var why := Refusal(Play(start, moves).reg.ops[r]).value;
    var m, j :|
      && 0 <= m <= |moves|
      && Conflicts(Play(start, moves[..m]).reg, r, j, why)
      && !Settled(Play(start, moves[..m]).reg.ops[r]);
    var met := Play(start, moves[..m]);
    PlayKeepsInv(shards, bytes, moves[..m]);
    CallsKeepOwners(start, moves, m, r);
    assert t < |met.tasks|;
    JobsStay(start, moves, m, t);
    UnsettledSliceIsPlain(met, t, r);
    RefusalOfPlain(shards, bytes, moves, m, r);
    ConflictIsOverlap(met, t, r, j);
  }

  /** A slice call that answers `InvalidMode` met a live atomic view of its bytes while it registered. */
  lemma RefusedSliceMetAtomicView(shards: nat, bytes: Bytes, moves: seq<Move>, t: nat)
    requires var s := Play(Fresh(shards, bytes), moves);
             t < |s.tasks| && s.tasks[t].job.Slice? && s.tasks[t].pc == Gone(Some(InvalidMode))
    ensures AtomicViewSeen(Fresh(shards, bytes), moves, t)
  {
    PlayKeepsAnswers(shards, bytes, moves);
    var s := Play(Fresh(shards, bytes), moves);
    assert AnswerOk(s, t);
    var r :| 0 <= r < |s.owner| && r < |s.reg.ops| && s.owner[r] == t && Refusal(s.reg.ops[r]).Some?;
    RefusedCallMetAtomicView(shards, bytes, moves, t, r);
  }

  lemma UnsettledIsServed(s: Sys, r: nat)
    requires SysInv(s) && r < |s.reg.ops| && !Settled(s.reg.ops[r])
    ensures s.owner[r] < |s.tasks| && s.tasks[s.owner[r]].pc == Using(r)
    ensures Serves(s.reg.ops[r], s.tasks[s.owner[r]].job)
  {
    assert !Finished(s.reg.ops[r]);
  }

  lemma {:induction false} RefusalOfPlain(shards: nat, bytes: Bytes, moves: seq<Move>, m: nat, r: nat)
    requires m <= |moves| && r < |Play(Fresh(shards, bytes), moves[..m]).reg.ops|
    requires Play(Fresh(shards, bytes), moves[..m]).reg.ops[r].PlainOp?
    ensures var s := Play(Fresh(shards, bytes), moves);
            r < |s.reg.ops| && s.reg.ops[r].PlainOp?
            && (Refusal(s.reg.ops[r]).Some? ==> Refusal(s.reg.ops[r]) == Some(AtomicLive))
    decreases |moves|
  {
    assert moves[..|moves|] == moves;
    if m < |moves| {
      var before := moves[..|moves| - 1];
      assert before[..m] == moves[..m];
      RefusalOfPlain(shards, bytes, before, m, r);
      var s := Play(Fresh(shards, bytes), before);
      RegistryFollows(s, moves[|moves| - 1]);
      if StepOf(s, moves[|moves| - 1]).Some? {
        OpsKeepKind(s.reg, StepOf(s, moves[|moves| - 1]).value, r);
      }
    }
  }

  lemma OpsKeepKind(s: State, step: Step, r: nat)
    requires r < |s.ops| && s.ops[r].PlainOp?
    ensures r < |Apply(s, step).ops| && Apply(s, step).ops[r].PlainOp?
  {
    if Enabled(s, step) {
      if step.Advance? {
        AdvanceUnfinished(s, step.op);
      } else if step.Drop? {
        DropUnfinished(s, step.op);
      }
    }
  }

  // ----- what the moves do to the bytes -----

  /** A store puts its element at its place. */
  lemma StoreOverwrites(s: Sys, t: nat, at: nat, bytes: Bytes)
    requires SysInv(s) && Possible(s, Store(t, at, bytes))
    ensures at + |bytes| <= |s.mem| && Overwritten(s.mem, Do(s, Store(t, at, bytes)).mem, at, bytes)
  {
    StoresStayInside(s, t, at, bytes);
    PutOverwrites(s.mem, at, bytes);
  }

  /** A write puts its bytes over exactly its range; a resize may leave any bytes, a discard as many as there were. */
  lemma MutateOverwrites(s: Sys, t: nat, bytes: Bytes)
    requires AnswersInv(s) && Possible(s, Mutate(t, bytes))
    ensures match s.tasks[t].job
            case Write(offset, len) =>
              |bytes| == len && (len > 0 ==> offset + len <= |s.mem|)
              && Overwritten(s.mem, Do(s, Mutate(t, bytes)).mem, offset, bytes)
            case Discard => |Do(s, Mutate(t, bytes)).mem| == |s.mem|
            case _ => s.tasks[t].job.Resize?
  {
    assert AnswerOk(s, t);
    if s.tasks[t].job.Write? {
      PutOverwrites(s.mem, s.tasks[t].job.offset, bytes);
    }
  }

  /** No other move changes a byte. */
  lemma OthersKeepBytes(s: Sys, move: Move)
    requires !move.Store? && !move.Mutate?
    ensures Do(s, move).mem == s.mem
  {
    if move.Check? && Possible(s, move) {
      CheckOutcome(s, move.task);
    }
  }
}
