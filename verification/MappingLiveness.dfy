/**
 The locks of the whole mapping cannot deadlock (lock order: the mapping's
 lock, then the atomic set, then one shard).
 */
module MappingLiveness {
  import opened Ranges
  import opened Bounds
  import opened Registry
  import opened RegistrySafety
  import opened RegistryLiveness
  import opened Mapping
  import opened MappingSafety

  /** Task `t` holds a slice or an atomic view, possibly an empty one. */
  predicate HoldsView(s: Sys, t: nat) {
    && t < |s.tasks| && s.tasks[t].pc.Using? && s.tasks[t].pc.op < |s.reg.ops|
    && Droppable(s.reg.ops[s.tasks[t].pc.op])
  }

  /** A move that brings a call on: no new call, no drop of a view, no change of the bytes. */
  predicate Inner(move: Move) {
    !move.Begin? && !move.DropView? && !move.Store? && !move.Mutate?
  }

  ghost predicate CanGoOn(s: Sys) {
    exists move :: Inner(move) && Possible(s, move)
  }

  lemma GoesOn(s: Sys, move: Move)
    requires Inner(move) && Possible(s, move)
    ensures CanGoOn(s)
  {
  }

  /** A task with the registry is served by it: some registry call can step, or this one is finished. */
  lemma UserGoesOn(s: Sys, t: nat)
    requires SysInv(s) && t < |s.tasks| && s.tasks[t].pc.Using? && !HoldsView(s, t)
    ensures CanGoOn(s)
  {
    var r := s.tasks[t].pc.op;
    if Finished(s.reg.ops[r]) {
      GoesOn(s, Finish(t));
    } else {
      assert !Settled(s.reg.ops[r]);
      var i := NoDeadlock(s.reg, r);
      GoesOn(s, Registering(i));
    }
  }

  /** Whoever holds the mapping's lock and no view can go on. */
  lemma GuardHolderGoesOn(s: Sys, t: nat)
    requires SysInv(s) && t < |s.tasks| && !HoldsView(s, t)
    requires HoldsReadGuard(s.tasks[t]) || HoldsWriteGuard(s.tasks[t])
    ensures CanGoOn(s)
  {
    match s.tasks[t].pc
    case Holding => GoesOn(s, Check(t));
    case Writing => GoesOn(s, Leave(t));
    case Using(_) => UserGoesOn(s, t);
    case Leaving(_) => GoesOn(s, Release(t));
  }

  lemma WaiterGoesOn(s: Sys, t: nat)
    requires SysInv(s) && t < |s.tasks| && s.tasks[t].pc.Waiting?
    requires forall u :: 0 <= u < |s.tasks| ==> !HoldsView(s, u)
    ensures CanGoOn(s)
  {
    if s.writer.Some? {
      GuardHolderGoesOn(s, s.writer.value);
    } else if s.readers != {} {
      var u :| u in s.readers;
      GuardHolderGoesOn(s, u);
    } else {
      GoesOn(s, Acquire(t));
    }
  }

  lemma UnfinishedGoesOn(s: Sys, t: nat)
    requires SysInv(s) && t < |s.tasks| && !s.tasks[t].pc.Gone?
    requires forall u :: 0 <= u < |s.tasks| ==> !HoldsView(s, u)
    ensures CanGoOn(s)
  {
    if s.tasks[t].pc.Waiting? {
      WaiterGoesOn(s, t);
    } else if s.tasks[t].pc.Using? {
      UserGoesOn(s, t);
    } else {
      GuardHolderGoesOn(s, t);
    }
  }

  /**
   In every reachable state in which some call is unfinished and nobody
   holds a slice or a view, some lock can be taken or released or some call
   can go on: waiting is only ever for views that callers still hold.
   */
  lemma MappingNeverDeadlocks(shards: nat, bytes: Bytes, moves: seq<Move>, t: nat)
    requires var s := Play(Fresh(shards, bytes), moves);
             && t < |s.tasks| && !s.tasks[t].pc.Gone?
             && forall u :: 0 <= u < |s.tasks| ==> !HoldsView(s, u)
    ensures CanGoOn(Play(Fresh(shards, bytes), moves))
  {
    PlayKeepsInv(shards, bytes, moves);
    UnfinishedGoesOn(Play(Fresh(shards, bytes), moves), t);
  }

  // ----- and all calls can end -----

  /** A move that brings a call on, or the drop of a view. */
  predicate Onward(move: Move) {
    Inner(move) || move.DropView?
  }

  /** The call may still end in a view that its caller will drop. */
  predicate MayBeDropped(op: Op) {
    match op
    case PlainOp(_, _, pc) => !pc.PDropStart? && !pc.PRemove? && !pc.PRemoved? && !pc.PDone?
    case AtomicOp(_, _, pc) => !pc.ADropStart? && !pc.ARemove? && !pc.ARemoved? && !pc.ADropped? && !pc.ADone?
    case CopyOp(_, _) => false
  }

  /** Registry steps and drops that an operation may still take. */
  function OpRank(op: Op, shards: nat): nat {
    Rank(op, shards) + if MayBeDropped(op) then 5 else 0
  }

  /** Moves that a task may still make, besides those of its registry call. */
  function TaskRank(task: Task, shards: nat): nat {
    match task.pc
    case Waiting => 3 * shards + 19
    case Holding => 3 * shards + 18
    case Using(_) => 2
    case Writing => 2
    case Leaving(_) => 1
    case Gone(_) => 0
  }

  function OpMoves(ops: seq<Op>, shards: nat): nat {
    if ops == [] then 0 else OpMoves(ops[..|ops| - 1], shards) + OpRank(ops[|ops| - 1], shards)
  }

  function TaskMovesLeft(tasks: seq<Task>, shards: nat): nat {
    if tasks == [] then 0
    else TaskMovesLeft(tasks[..|tasks| - 1], shards) + TaskRank(tasks[|tasks| - 1], shards)
  }

  function MovesLeft(s: Sys): nat {
    TaskMovesLeft(s.tasks, |s.reg.shards|) + OpMoves(s.reg.ops, |s.reg.shards|)
  }

  lemma {:induction false} OpMovesUpdate(ops: seq<Op>, i: nat, op: Op, shards: nat)
    requires i < |ops|
    ensures OpMoves(ops[i := op], shards) + OpRank(ops[i], shards) == OpMoves(ops, shards) + OpRank(op, shards)
  {
    var front := ops[..|ops| - 1];
    if i < |ops| - 1 {
      OpMovesUpdate(front, i, op, shards);
      assert ops[i := op][..|ops| - 1] == front[i := op];
    } else {
      assert ops[i := op][..|ops| - 1] == front;
    }
  }

  lemma OpMovesAppend(ops: seq<Op>, op: Op, shards: nat)
    ensures OpMoves(ops + [op], shards) == OpMoves(ops, shards) + OpRank(op, shards)
  {
    assert (ops + [op])[..|ops|] == ops;
  }

  lemma {:induction false} TaskMovesUpdate(tasks: seq<Task>, t: nat, task: Task, shards: nat)
    requires t < |tasks|
    ensures TaskMovesLeft(tasks[t := task], shards) + TaskRank(tasks[t], shards)
         == TaskMovesLeft(tasks, shards) + TaskRank(task, shards)
  {
    var front := tasks[..|tasks| - 1];
    if t < |tasks| - 1 {
      TaskMovesUpdate(front, t, task, shards);
      assert tasks[t := task][..|tasks| - 1] == front[t := task];
    } else {
      assert tasks[t := task][..|tasks| - 1] == front;
    }
  }

  lemma DroppedStaysDropped(s: State, i: nat)
    requires Ready(s, i) && i < |AdvanceOp(s, i).ops|
    ensures MayBeDropped(AdvanceOp(s, i).ops[i]) ==> MayBeDropped(s.ops[i])
  {
  }

  lemma AdvanceLowersOpRank(s: State, i: nat)
    requires ShardLockInv(s) && Ready(s, i)
    ensures var s' := AdvanceOp(s, i);
            && s'.ops == s.ops[i := s'.ops[i]] && |s'.shards| == |s.shards|
            && OpRank(s'.ops[i], |s.shards|) < OpRank(s.ops[i], |s.shards|)
  {
    StepLowersRank(s, i);
    DroppedStaysDropped(s, i);
  }

  /** A registry whose operation `i` has fewer moves left. */
  lemma OpLowers(s: Sys, reg: State, i: nat)
    requires i < |s.reg.ops| == |reg.ops| && reg.ops == s.reg.ops[i := reg.ops[i]]
    requires |reg.shards| == |s.reg.shards|
    requires OpRank(reg.ops[i], |s.reg.shards|) < OpRank(s.reg.ops[i], |s.reg.shards|)
    ensures MovesLeft(s.(reg := reg)) < MovesLeft(s)
  {
    OpMovesUpdate(s.reg.ops, i, reg.ops[i], |s.reg.shards|);
  }

  lemma RegisteringLowers(s: Sys, i: nat)
    requires Inv(s.reg) && Ready(s.reg, i)
    ensures MovesLeft(Do(s, Registering(i))) < MovesLeft(s)
  {
    AdvanceLowersOpRank(s.reg, i);
    OpLowers(s, AdvanceOp(s.reg, i), i);
  }

  lemma DropLowersRank(op: Op, shards: nat)
    requires Droppable(op)
    ensures OpRank(Dropped(op), shards) < OpRank(op, shards)
  {
  }

  lemma DropViewLowers(s: Sys, t: nat)
    requires Possible(s, DropView(t))
    ensures MovesLeft(Do(s, DropView(t))) < MovesLeft(s)
  {
    var r := s.tasks[t].pc.op;
    DropLowersRank(s.reg.ops[r], |s.reg.shards|);
    OpLowers(s, Apply(s.reg, Drop(r)), r);
  }

  /** A new registry call takes no more steps than its task gives up. */
  lemma CallLowers(s: Sys, t: nat, call: Step, op: Op)
    requires t < |s.tasks| && s.tasks[t].pc.Holding?
    requires Apply(s.reg, call) == s.reg.(ops := s.reg.ops + [op])
    requires OpRank(op, |s.reg.shards|) <= 3 * |s.reg.shards| + 15
    ensures MovesLeft(CallRegistry(s, t, call)) < MovesLeft(s)
  {
    var shards := |s.reg.shards|;
    OpMovesAppend(s.reg.ops, op, shards);
    TaskMovesUpdate(s.tasks, t, s.tasks[t].(pc := Using(|s.reg.ops|)), shards);
  }

  lemma GotoLowers(s: Sys, t: nat, pc: Pc)
    requires t < |s.tasks|
    requires TaskRank(s.tasks[t].(pc := pc), |s.reg.shards|) < TaskRank(s.tasks[t], |s.reg.shards|)
    ensures MovesLeft(Goto(s, t, pc)) < MovesLeft(s)
  {
    TaskMovesUpdate(s.tasks, t, s.tasks[t].(pc := pc), |s.reg.shards|);
  }

  lemma FirstCallAppends(s: Sys, t: nat)
    requires SysInv(s) && Possible(s, Check(t)) && Reads(s.tasks[t].job)
    ensures var job := s.tasks[t].job;
            && Apply(s.reg, FirstCall(job)) == s.reg.(ops := s.reg.ops + [FirstOp(job)])
            && OpRank(FirstOp(job), |s.reg.shards|) <= 3 * |s.reg.shards| + 15
  {
    assert Sound(s.tasks[t], |s.reg.shards|);
  }

  lemma CheckLowers(s: Sys, t: nat)
    requires SysInv(s) && Possible(s, Check(t))
    ensures MovesLeft(Do(s, Check(t))) < MovesLeft(s)
  {
    var job := s.tasks[t].job;
    CheckOutcome(s, t);
    if !Fits(job, |s.mem|) {
      GotoLowers(s, t, Leaving(Some(OutOfBounds(job.offset, Reported(job), |s.mem|))));
    } else if Reads(job) {
      FirstCallAppends(s, t);
      CallLowers(s, t, FirstCall(job), FirstOp(job));
    } else {
      GotoLowers(s, t, Writing);
    }
  }

  lemma LockMoveLowers(s: Sys, move: Move)
    requires Possible(s, move) && (move.Acquire? || move.Finish? || move.Release? || move.Leave?)
    ensures MovesLeft(Do(s, move)) < MovesLeft(s)
  {
    GotoLowers(s, move.task, Do(s, move).tasks[move.task].pc);
  }

  /** Every move that brings a call on, and every drop, uses up one of the moves left. */
  lemma OnwardLowers(s: Sys, move: Move)
    requires SysInv(s) && Onward(move) && Possible(s, move)
    ensures MovesLeft(Do(s, move)) < MovesLeft(s)
  {
    match move
    case Check(t) => CheckLowers(s, t);
    case Registering(i) => RegisteringLowers(s, i);
    case DropView(t) => DropViewLowers(s, t);
    case _ => LockMoveLowers(s, move);
  }

  /** Moves that only bring calls on and drop views, each when it is possible. */
  ghost predicate OnlyOnward(s: Sys, moves: seq<Move>) {
    moves != [] ==>
      var before, last := moves[..|moves| - 1], moves[|moves| - 1];
      OnlyOnward(s, before) && Onward(last) && Possible(Play(s, before), last)
  }

  lemma OneMoreMove(s: Sys, moves: seq<Move>, last: Move)
    requires OnlyOnward(s, moves) && Onward(last) && Possible(Play(s, moves), last)
    ensures OnlyOnward(s, moves + [last]) && Play(s, moves + [last]) == Do(Play(s, moves), last)
  {
    assert (moves + [last])[..|moves|] == moves;
  }

  /** With no new calls, only boundedly many moves can be made. */
  lemma {:induction false} OnwardRunsEnd(s: Sys, moves: seq<Move>)
    requires SysInv(s) && OnlyOnward(s, moves)
    ensures SysInv(Play(s, moves)) && |moves| + MovesLeft(Play(s, moves)) <= MovesLeft(s)
  {
    if moves != [] {
      var before, last := moves[..|moves| - 1], moves[|moves| - 1];
      OnwardRunsEnd(s, before);
      MoveKeepsInv(Play(s, before), last);
      OnwardLowers(Play(s, before), last);
    }
  }

  ghost predicate AllGone(s: Sys) {
    forall t :: 0 <= t < |s.tasks| ==> s.tasks[t].pc.Gone?
  }

  lemma SomeMoveIsPossible(s: Sys) returns (move: Move)
    requires SysInv(s) && !AllGone(s)
    ensures Onward(move) && Possible(s, move)
  {
    if u :| 0 <= u < |s.tasks| && HoldsView(s, u) {
      move := DropView(u);
    } else {
      var t :| 0 <= t < |s.tasks| && !s.tasks[t].pc.Gone?;
      UnfinishedGoesOn(s, t);
      move :| Inner(move) && Possible(s, move);
    }
  }

  lemma {:induction false} CompleteFrom(s: Sys, sofar: seq<Move>) returns (moves: seq<Move>)
    requires SysInv(s) && OnlyOnward(s, sofar)
    ensures OnlyOnward(s, moves) && AllGone(Play(s, moves))
    decreases MovesLeft(Play(s, sofar))
  {
    OnwardRunsEnd(s, sofar);
    var now := Play(s, sofar);
    if AllGone(now) {
      moves := sofar;
    } else {
      var move := SomeMoveIsPossible(now);
      OneMoreMove(s, sofar, move);
      OnwardLowers(now, move);
      moves := CompleteFrom(s, sofar + [move]);
    }
  }

  /**
   From every reachable state of the mapping all calls can run to their
   end, with no moves but their own and the drops of the views held or
   handed out on the way.
   */
  lemma MappingCanComplete(shards: nat, bytes: Bytes, sofar: seq<Move>) returns (moves: seq<Move>)
    ensures var s := Play(Fresh(shards, bytes), sofar); OnlyOnward(s, moves) && AllGone(Play(s, moves))
  {
    PlayKeepsInv(shards, bytes, sofar);
    moves := CompleteFrom(Play(Fresh(shards, bytes), sofar), []);
  }
}
