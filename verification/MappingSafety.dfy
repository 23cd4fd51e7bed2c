/** What every run of the whole mapping keeps. */
module MappingSafety {
  import opened Ranges
  import opened Bounds
  import opened Registry
  import opened RegistrySafety
  import opened Mapping
  import opened Multiples
  import CopyOut

  predicate HoldsReadGuard(task: Task) {
    Reads(task.job) && (task.pc.Holding? || task.pc.Using? || task.pc.Leaving?)
  }

  predicate HoldsWriteGuard(task: Task) {
    !Reads(task.job) && (task.pc.Holding? || task.pc.Writing? || task.pc.Leaving?)
  }

  ghost predicate GuardInv(s: Sys) {
    && (s.writer.Some? ==> s.readers == {} && s.writer.value < |s.tasks|)
    && (forall t :: 0 <= t < |s.tasks| ==> (HoldsReadGuard(s.tasks[t]) <==> t in s.readers))
    && (forall t :: 0 <= t < |s.tasks| ==> (HoldsWriteGuard(s.tasks[t]) <==> s.writer == Some(t)))
    && (forall t :: 0 <= t < |s.tasks| && s.tasks[t].pc.Using? ==> Reads(s.tasks[t].job))
    && (forall t :: 0 <= t < |s.tasks| && s.tasks[t].pc.Writing? ==> !Reads(s.tasks[t].job))
    && (forall t :: t in s.readers ==> t < |s.tasks|)
  }

  /** The registry call is the one that `job` asks for. */
  predicate Serves(op: Op, job: Job) {
    match job
    case Slice(offset, len, shard) => op.PlainOp? && op.range == Range(offset, offset + len) && op.shard == shard
    case View(offset, count, size) =>
      && (size == 4 || size == 8) && offset % size == 0
      && op.AtomicOp? && op.size == size && op.range == Range(offset, offset + size * count)
    case Copy(offset, len) => op.CopyOp? && op.range == Range(offset, offset + len)
    case _ => false
  }

  /** A view or slice past its first checks. */
  predicate Sound(task: Task, shards: nat) {
    && (task.job.View? && !task.pc.Gone? ==>
          (task.job.size == 4 || task.job.size == 8) && task.job.offset % task.job.size == 0)
    && (task.job.Slice? ==> task.job.shard < shards)
  }

  /** Every unfinished registry call belongs to one task, which is at it. */
  ghost predicate OwnerInv(s: Sys) {
    && |s.owner| == |s.reg.ops|
    && (forall r :: 0 <= r < |s.owner| ==> s.owner[r] < |s.tasks|)
    && (forall r :: 0 <= r < |s.owner| && !Finished(s.reg.ops[r]) ==> s.tasks[s.owner[r]].pc == Using(r))
    && (forall t :: 0 <= t < |s.tasks| && s.tasks[t].pc.Using? ==>
          && s.tasks[t].pc.op < |s.reg.ops| && s.owner[s.tasks[t].pc.op] == t
          && Serves(s.reg.ops[s.tasks[t].pc.op], s.tasks[t].job))
    && (forall t :: 0 <= t < |s.tasks| ==> Sound(s.tasks[t], |s.reg.shards|))
  }

  /** What is in use lies inside the mapping. */
  ghost predicate InsideInv(s: Sys) {
    forall r :: 0 <= r < |s.reg.ops| && !Finished(s.reg.ops[r]) ==> s.reg.ops[r].range.end <= |s.mem|
  }

  ghost predicate SysInv(s: Sys) {
    Inv(s.reg) && GuardInv(s) && OwnerInv(s) && InsideInv(s)
  }

  // ----- moves of the registry -----

  lemma RegistryMoves(s: Sys, i: nat, reg: State)
    requires OwnerInv(s) && InsideInv(s) && MovesOnly(s.reg, i, reg) && !Finished(s.reg.ops[i])
    ensures OwnerInv(s.(reg := reg)) && InsideInv(s.(reg := reg))
  {
    var s' := s.(reg := reg);
    forall t | 0 <= t < |s'.tasks| && s'.tasks[t].pc.Using?
      ensures Serves(reg.ops[s'.tasks[t].pc.op], s'.tasks[t].job)
    {
      assert Serves(s.reg.ops[s.tasks[t].pc.op], s.tasks[t].job);
    }
    forall r | 0 <= r < |reg.ops| && !Finished(reg.ops[r])
      ensures s'.tasks[s'.owner[r]].pc == Using(r) && reg.ops[r].range.end <= |s'.mem|
    {
      assert !Finished(s.reg.ops[r]);
    }
  }

  lemma AdvanceUnfinished(s: State, i: nat)
    requires Ready(s, i)
    ensures MovesOnly(s, i, Apply(s, Advance(i))) && !Finished(s.ops[i])
  {
  }

  lemma DropUnfinished(s: State, i: nat)
    requires Enabled(s, Drop(i))
    ensures MovesOnly(s, i, Apply(s, Drop(i))) && !Finished(s.ops[i])
  {
  }

  lemma RegisteringKeeps(s: Sys, i: nat)
    requires SysInv(s)
    ensures SysInv(Do(s, Registering(i)))
  {
    if Possible(s, Registering(i)) {
      StepKeepsInv(s.reg, Advance(i));
      AdvanceUnfinished(s.reg, i);
      RegistryMoves(s, i, Apply(s.reg, Advance(i)));
    }
  }

  lemma DropViewKeeps(s: Sys, t: nat)
    requires SysInv(s)
    ensures SysInv(Do(s, DropView(t)))
  {
    if Possible(s, DropView(t)) {
      var i := s.tasks[t].pc.op;
      StepKeepsInv(s.reg, Drop(i));
      DropUnfinished(s.reg, i);
      RegistryMoves(s, i, Apply(s.reg, Drop(i)));
    }
  }

  // ----- the bounds check that starts a registry call -----

  lemma CallMoves(s: Sys, t: nat, call: Step, op: Op)
    requires OwnerInv(s) && InsideInv(s) && t < |s.tasks| && s.tasks[t].pc.Holding?
    requires Apply(s.reg, call) == s.reg.(ops := s.reg.ops + [op])
    requires Serves(op, s.tasks[t].job) && op.range.end <= |s.mem|
    ensures OwnerInv(CallRegistry(s, t, call)) && InsideInv(CallRegistry(s, t, call))
  {
    var s' := CallRegistry(s, t, call);
    forall r | 0 <= r < |s'.owner| && !Finished(s'.reg.ops[r]) ensures s'.tasks[s'.owner[r]].pc == Using(r) {
      if r < |s.owner| {
        assert !Finished(s.reg.ops[r]);
      }
    }
    forall u | 0 <= u < |s'.tasks| && s'.tasks[u].pc.Using?
      ensures s'.owner[s'.tasks[u].pc.op] == u && Serves(s'.reg.ops[s'.tasks[u].pc.op], s'.tasks[u].job)
    {
      if u != t {
        assert Serves(s.reg.ops[s.tasks[u].pc.op], s.tasks[u].job);
      }
    }
  }

  lemma CallHoldsGuards(s: Sys, t: nat, call: Step)
    requires GuardInv(s) && t < |s.tasks| && s.tasks[t].pc.Holding? && Reads(s.tasks[t].job)
    ensures GuardInv(CallRegistry(s, t, call))
  {
  }

  lemma CallKeeps(s: Sys, t: nat, call: Step, op: Op)
    requires SysInv(s) && t < |s.tasks| && s.tasks[t].pc.Holding? && Reads(s.tasks[t].job)
    requires Apply(s.reg, call) == s.reg.(ops := s.reg.ops + [op])
    requires Serves(op, s.tasks[t].job) && op.range.end <= |s.mem|
    ensures SysInv(CallRegistry(s, t, call))
  {
    StepKeepsInv(s.reg, call);
    CallHoldsGuards(s, t, call);
    CallMoves(s, t, call, op);
  }

  /** The length the job asks for. */
  function Asked(job: Job): nat {
    match job
    case Slice(_, len, _) => len
    case View(_, count, size) => size * count
    case Copy(_, len) => len
    case Write(_, len) => len
    case _ => 0
  }

  /** The length an out-of-bounds error reports. */
  function Reported(job: Job): nat {
    if job.View? then SaturatingMul(job.size, job.count) else Asked(job)
  }

  function FirstOp(job: Job): Op
    requires Reads(job)
  {
    var range := Range(job.offset, job.offset + Asked(job));
    match job
    case Slice(_, _, shard) => PlainOp(range, shard, PStart)
    case View(_, _, size) => AtomicOp(range, size, AStart)
    case Copy(_, _) => CopyOp(range, CStart)
  }

  function FirstCall(job: Job): Step
    requires Reads(job)
  {
    var range := Range(job.offset, job.offset + Asked(job));
    match job
    case Slice(_, _, shard) => CallPlain(range, shard)
    case View(_, _, size) => CallAtomic(range, size)
    case Copy(_, _) => CallCopy(range)
  }

  /** What the job asks for lies inside a mapping of `total` bytes. */
  predicate Fits(job: Job, total: nat) {
    match job
    case Write(offset, len) => len == 0 || offset + len <= total
    case Resize => true
    case Discard => true
    case _ => job.offset + Asked(job) <= total
  }

  /** A task goes on, to the registry or to writing, exactly if what it asks for lies inside the mapping. */
  lemma CheckOutcome(s: Sys, t: nat)
    requires Possible(s, Check(t))
    ensures var job := s.tasks[t].job;
            if !Fits(job, |s.mem|) then
              Checked(s, t) == Goto(s, t, Leaving(Some(OutOfBounds(job.offset, Reported(job), |s.mem|))))
            else if Reads(job) then Checked(s, t) == CallRegistry(s, t, FirstCall(job))
            else Checked(s, t) == Goto(s, t, Writing)
  {
    match s.tasks[t].job
    case Slice(offset, len, shard) => SliceRangeExact(offset, len, |s.mem|, U64_MAX);
    case View(offset, count, size) =>
      ViewFitsExact(offset, size, count, |s.mem|);
      if offset + size * count <= |s.mem| {
        ViewLength(size, count, |s.mem|);
      }
    case Copy(offset, len) => SliceRangeExact(offset, len, |s.mem|, U64_MAX);
    case Write(offset, len) => SliceRangeExact(offset, len, |s.mem|, U64_MAX);
    case _ =>
  }

  lemma FirstOpServes(task: Task, shards: nat)
    requires Reads(task.job) && Sound(task, shards) && !task.pc.Gone?
    ensures Serves(FirstOp(task.job), task.job)
  {
  }

  lemma CheckKeeps(s: Sys, t: nat)
    requires SysInv(s)
    ensures SysInv(Do(s, Check(t)))
  {
    if Possible(s, Check(t)) {
      var job := s.tasks[t].job;
      CheckOutcome(s, t);
      assert Sound(s.tasks[t], |s.reg.shards|);
      if !Fits(job, |s.mem|) {
        TaskGoes(s, t, Leaving(Some(OutOfBounds(job.offset, Reported(job), |s.mem|))));
      } else if Reads(job) {
        FirstOpServes(s.tasks[t], |s.reg.shards|);
        CallKeeps(s, t, FirstCall(job), FirstOp(job));
      } else {
        TaskGoes(s, t, Writing);
      }
    }
  }

  lemma ViewLength(size: U64, count: U64, total: nat)
    requires size * count <= total < U64_LIMIT
    ensures SaturatingMul(size, count) == size * count
  {
    assert size * count >= 0;
  }

  // ----- moves of tasks and of memory -----

  /** A task that has no registry call moves on. */
  lemma TaskMoves(s: Sys, t: nat, pc: Pc)
    requires OwnerInv(s) && t < |s.tasks| && !pc.Using?
    requires s.tasks[t].pc.Using? ==> Finished(s.reg.ops[s.tasks[t].pc.op])
    requires s.tasks[t].pc.Gone? ==> pc.Gone?
    ensures OwnerInv(Goto(s, t, pc))
  {
    var s' := Goto(s, t, pc);
    forall r | 0 <= r < |s'.owner| && !Finished(s'.reg.ops[r]) ensures s'.tasks[s'.owner[r]].pc == Using(r) {
      assert s.tasks[s.owner[r]].pc == Using(r);
    }
  }

  lemma TaskGoes(s: Sys, t: nat, pc: Pc)
    requires SysInv(s) && t < |s.tasks| && s.tasks[t].pc.Holding?
    requires pc.Leaving? || (pc.Writing? && !Reads(s.tasks[t].job))
    ensures SysInv(Goto(s, t, pc))
  {
    TaskMoves(s, t, pc);
  }

  lemma LockMoveKeepsGuards(s: Sys, move: Move)
    requires GuardInv(s) && (move.Acquire? || move.Finish? || move.Release? || move.Leave?)
    ensures GuardInv(Do(s, move))
  {
  }

  lemma LockMoveKeepsOwners(s: Sys, move: Move)
    requires OwnerInv(s) && (move.Acquire? || move.Finish? || move.Release? || move.Leave?)
    ensures OwnerInv(Do(s, move))
  {
    if Possible(s, move) {
      TaskMoves(s, move.task, Do(s, move).tasks[move.task].pc);
    }
  }

  lemma LockMoveKeepsBytes(s: Sys, move: Move)
    requires move.Acquire? || move.Finish? || move.Release? || move.Leave?
    ensures Do(s, move).reg == s.reg && Do(s, move).mem == s.mem
  {
  }

  lemma LockMoveKeeps(s: Sys, move: Move)
    requires SysInv(s) && (move.Acquire? || move.Finish? || move.Release? || move.Leave?)
    ensures SysInv(Do(s, move))
  {
    LockMoveKeepsGuards(s, move);
    LockMoveKeepsOwners(s, move);
    LockMoveKeepsBytes(s, move);
  }

  lemma BeginKeepsOwners(s: Sys, job: Job)
    requires OwnerInv(s) && Possible(s, Begin(job))
    ensures OwnerInv(Do(s, Begin(job)))
  {
    var s' := Do(s, Begin(job));
    assert Sound(s'.tasks[|s.tasks|], |s.reg.shards|);
  }

  lemma BeginKeeps(s: Sys, job: Job)
    requires SysInv(s)
    ensures SysInv(Do(s, Begin(job)))
  {
    if Possible(s, Begin(job)) {
      BeginKeepsOwners(s, job);
    }
  }

  /** While the write guard is held, every registry call has ended. */
  lemma WriterExcludesCalls(s: Sys, r: nat)
    requires GuardInv(s) && OwnerInv(s) && s.writer.Some? && r < |s.reg.ops|
    ensures Finished(s.reg.ops[r])
  {
    assert !HoldsReadGuard(s.tasks[s.owner[r]]);
  }

  /** Only the bytes change, and only under the write guard their number. */
  lemma MemoryMoveChangesBytes(s: Sys, move: Move)
    requires move.Store? || move.Mutate?
    ensures Do(s, move) == s.(mem := Do(s, move).mem)
    ensures !Possible(s, move) || move.Store? ==> |Do(s, move).mem| == |s.mem|
  {
  }

  lemma BytesKeep(s: Sys, mem: Bytes)
    requires SysInv(s)
    requires |mem| == |s.mem| || forall r :: 0 <= r < |s.reg.ops| ==> Finished(s.reg.ops[r])
    ensures SysInv(s.(mem := mem))
  {
    var s' := s.(mem := mem);
    assert GuardInv(s') && OwnerInv(s');
  }

  lemma MemoryMoveKeeps(s: Sys, move: Move)
    requires SysInv(s) && (move.Store? || move.Mutate?)
    ensures SysInv(Do(s, move))
  {
    MemoryMoveChangesBytes(s, move);
    if Possible(s, move) && move.Mutate? {
      assert HoldsWriteGuard(s.tasks[move.task]);
      forall r | 0 <= r < |s.reg.ops| ensures Finished(s.reg.ops[r]) {
        WriterExcludesCalls(s, r);
      }
    }
    BytesKeep(s, Do(s, move).mem);
  }

  lemma MoveKeepsInv(s: Sys, move: Move)
    requires SysInv(s)
    ensures SysInv(Do(s, move))
  {
    match move
    case Begin(job) => BeginKeeps(s, job);
    case Check(t) => CheckKeeps(s, t);
    case Registering(op) => RegisteringKeeps(s, op);
    case DropView(t) => DropViewKeeps(s, t);
    case Store(_, _, _) => MemoryMoveKeeps(s, move);
    case Mutate(_, _) => MemoryMoveKeeps(s, move);
    case _ => LockMoveKeeps(s, move);
  }

  lemma {:induction false} PlayKeepsInv(shards: nat, bytes: Bytes, moves: seq<Move>)
    ensures SysInv(Play(Fresh(shards, bytes), moves))
  {
    if moves != [] {
      PlayKeepsInv(shards, bytes, moves[..|moves| - 1]);
      MoveKeepsInv(Play(Fresh(shards, bytes), moves[..|moves| - 1]), moves[|moves| - 1]);
    }
  }

  // ----- what the mapping promises -----

  /** Task `t` holds a live `MappedSlice`. */
  predicate SliceAlive(s: Sys, t: nat) {
    && t < |s.tasks| && s.tasks[t].job.Slice? && s.tasks[t].pc.Using?
    && s.tasks[t].pc.op < |s.reg.ops| && LivePlain(s.reg.ops[s.tasks[t].pc.op])
  }

  /** Task `t` holds a live atomic view of at least one byte. */
  predicate ViewAlive(s: Sys, t: nat) {
    && t < |s.tasks| && s.tasks[t].job.View? && s.tasks[t].pc.Using?
    && s.tasks[t].pc.op < |s.reg.ops| && LiveAtomic(s.reg.ops[s.tasks[t].pc.op])
  }

  lemma SliceInside(s: Sys, t: nat)
    requires SysInv(s) && SliceAlive(s, t)
    ensures s.tasks[t].job.offset + s.tasks[t].job.len <= |s.mem|
    ensures HoldsReadGuard(s.tasks[t]) && s.writer.None?
  {
    assert Serves(s.reg.ops[s.tasks[t].pc.op], s.tasks[t].job);
    assert t in s.readers;
  }

  /**
   A registry without callers: while the write guard is held, no shard
   holds a range, no entry exists and the counter is zero.
   */
  lemma WriteGuardEmptiesRegistry(s: Sys)
    requires SysInv(s) && s.writer.Some?
    ensures forall k, slot: nat :: 0 <= k < |s.reg.shards| ==> s.reg.shards[k].table.At(slot).None?
    ensures s.reg.entries == [] && s.reg.live == 0
  {
    if s.reg.entries != [] {
      var r := EntryHasOp(s.reg, s.reg.entries[0]);
      WriterExcludesCalls(s, r);
    }
    forall r | 0 <= r < |s.reg.ops| ensures Finished(s.reg.ops[r]) && !HoldsWrite(s.reg.ops[r]) {
      WriterExcludesCalls(s, r);
    }
    forall k, slot: nat | 0 <= k < |s.reg.shards| ensures s.reg.shards[k].table.At(slot).None? {
      assert !Owned(s.reg, k, slot);
    }
  }

  /** An atomic store reaches only bytes of its view, all inside the mapping. */
  lemma StoresStayInside(s: Sys, t: nat, at: nat, bytes: Bytes)
    requires SysInv(s) && Possible(s, Store(t, at, bytes))
    ensures at + |bytes| <= |s.mem|
    ensures ViewAlive(s, t)
    ensures forall x: nat :: at <= x < at + |bytes| ==> Covers(s.reg.ops[s.tasks[t].pc.op].range, x)
  {
    assert Serves(s.reg.ops[s.tasks[t].pc.op], s.tasks[t].job);
  }

  /** Live plain and atomic views of one mapping share no byte. */
  lemma LiveViewsDisjoint(s: State, p: nat, a: nat)
    requires Inv(s) && p < |s.ops| && a < |s.ops| && LivePlain(s.ops[p]) && LiveAtomic(s.ops[a])
    ensures !Overlaps(s.ops[a].range, s.ops[p].range)
  {
    assert EntryOf(s.ops[a]).value in s.entries;
    var j :| 0 <= j < |s.entries| && s.entries[j] == EntryOf(s.ops[a]).value;
    assert !Overlaps(s.entries[j].range, s.ops[p].range);
  }

  lemma StoreMissesSlice(s: Sys, t: nat, u: nat, at: nat, bytes: Bytes, x: nat)
    requires SysInv(s) && SliceAlive(s, t) && Possible(s, Store(u, at, bytes))
    requires at <= x < at + |bytes|
    ensures !Covers(SliceRangeOf(s.tasks[t].job), x)
  {
    StoresStayInside(s, u, at, bytes);
    LiveViewsDisjoint(s.reg, s.tasks[t].pc.op, s.tasks[u].pc.op);
    assert Serves(s.reg.ops[s.tasks[t].pc.op], s.tasks[t].job);
    assert Covers(s.reg.ops[s.tasks[u].pc.op].range, x);
  }

  /** So a store leaves every byte of a live slice alone. */
  lemma StoreKeepsSlice(s: Sys, t: nat, u: nat, at: nat, bytes: Bytes)
    requires SysInv(s) && SliceAlive(s, t) && Possible(s, Store(u, at, bytes))
    ensures SameOn(s.mem, Put(s.mem, at, bytes), SliceRangeOf(s.tasks[t].job))
  {
    forall x: nat | at <= x < at + |bytes| ensures !Covers(SliceRangeOf(s.tasks[t].job), x) {
      StoreMissesSlice(s, t, u, at, bytes, x);
    }
  }

  function SliceRangeOf(job: Job): Range
    requires job.Slice?
  {
    Range(job.offset, job.offset + job.len)
  }

  /** `after` is as long as `before` and equal on `range`. */
  ghost predicate SameOn(before: seq<Byte>, after: seq<Byte>, range: Range) {
    && |before| == |after|
    && forall x: nat :: Covers(range, x) && x < |before| ==> after[x] == before[x]
  }

  lemma MutateNeedsWriteGuard(s: Sys, move: Move)
    requires GuardInv(s) && Possible(s, move)
    ensures move.Mutate? ==> s.writer == Some(move.task)
  {
    if move.Mutate? {
      assert HoldsWriteGuard(s.tasks[move.task]);
    }
  }

  /** No step changes a byte of a live slice, or the length of the mapping. */
  lemma LiveSliceUntouched(s: Sys, t: nat, move: Move)
    requires SysInv(s) && SliceAlive(s, t)
    ensures SameOn(s.mem, Do(s, move).mem, SliceRangeOf(s.tasks[t].job))
  {
    SliceInside(s, t);
    if Possible(s, move) {
      MutateNeedsWriteGuard(s, move);
      if move.Store? {
        StoreKeepsSlice(s, t, move.task, move.at, move.bytes);
      }
    }
  }

  // ----- over whole runs -----

  /** Task `t` holds its slice after every prefix of the run from `m` on. */
  ghost predicate SliceAliveSince(start: Sys, moves: seq<Move>, m: nat, t: nat) {
    m <= |moves| && forall k :: m <= k <= |moves| ==> SliceAlive(Play(start, moves[..k]), t)
  }

  lemma JobIsFixed(s: Sys, move: Move, t: nat)
    requires t < |s.tasks|
    ensures t < |Do(s, move).tasks| && Do(s, move).tasks[t].job == s.tasks[t].job
  {
  }

  /** As long as a `MappedSlice` is alive its bytes, and the mapping's length, stay as they were. */
  lemma {:induction false} SliceNeverChanges(shards: nat, bytes: Bytes, moves: seq<Move>, m: nat, t: nat)
    requires SliceAliveSince(Fresh(shards, bytes), moves, m, t)
    ensures var first, last := Play(Fresh(shards, bytes), moves[..m]), Play(Fresh(shards, bytes), moves);
            && t < |first.tasks| && first.tasks[t].job.Slice?
            && t < |last.tasks| && last.tasks[t].job == first.tasks[t].job
            && SameOn(first.mem, last.mem, SliceRangeOf(first.tasks[t].job))
    decreases |moves|
  {
    var start := Fresh(shards, bytes);
    assert moves[..|moves|] == moves;
    if m < |moves| {
      var before := moves[..|moves| - 1];
      forall k | m <= k <= |before| ensures SliceAlive(Play(start, before[..k]), t) {
        assert before[..k] == moves[..k];
      }
      SliceNeverChanges(shards, bytes, before, m, t);
      assert before[..m] == moves[..m];
      assert before[..|before|] == before;
      PlayKeepsInv(shards, bytes, before);
      LiveSliceUntouched(Play(start, before), t, moves[|moves| - 1]);
      JobIsFixed(Play(start, before), moves[|moves| - 1], t);
    }
  }

  // ----- what the copying read relies on -----

  lemma ServedViewIsPlaced(op: Op, job: Job, shards: nat, total: nat)
    requires Serves(op, job) && WellFormed(op, shards) && EntryOf(op).Some? && op.range.end <= total
    ensures CopyOut.WellPlaced(EntryOf(op).value, total)
  {
    AddMultiple(job.offset, job.count, job.size);
    ProductNonNegative(job.count, job.size);
  }

  lemma OwnerServes(s: Sys, i: nat)
    requires OwnerInv(s) && ShardLockInv(s.reg) && i < |s.reg.ops| && !Finished(s.reg.ops[i])
    ensures Serves(s.reg.ops[i], s.tasks[s.owner[i]].job) && WellFormed(s.reg.ops[i], |s.reg.shards|)
  {
  }

  /** Every entry is the well placed view of some task. */
  lemma EntryIsPlaced(s: Sys, e: Entry)
    requires SysInv(s) && e in s.reg.entries
    ensures CopyOut.WellPlaced(e, |s.mem|)
  {
    var i := EntryHasOp(s.reg, e);
    OwnerServes(s, i);
    ServedViewIsPlaced(s.reg.ops[i], s.tasks[s.owner[i]].job, |s.reg.shards|, |s.mem|);
  }

  /** In every reachable state the registry meets the contract of `CopyOut`. */
  lemma EntriesAreAdmissible(s: Sys)
    requires SysInv(s)
    ensures CopyOut.Admissible(s.reg.entries, |s.mem|)
  {
    forall e | e in s.reg.entries ensures CopyOut.WellPlaced(e, |s.mem|) {
      EntryIsPlaced(s, e);
    }
    forall e, f | e in s.reg.entries && f in s.reg.entries && Overlaps(e.range, f.range) ensures e.size == f.size {
      var j :| 0 <= j < |s.reg.entries| && s.reg.entries[j] == e;
      var k :| 0 <= k < |s.reg.entries| && s.reg.entries[k] == f;
      assert Overlaps(s.reg.entries[j].range, s.reg.entries[k].range);
    }
  }

  /** Task `t` is inside `copy_out`, holding the registry's read lock. */
  predicate Copying(s: Sys, t: nat) {
    && t < |s.tasks| && s.tasks[t].job.Copy? && s.tasks[t].pc.Using?
    && s.tasks[t].pc.op < |s.reg.ops|
    && s.reg.ops[s.tasks[t].pc.op].CopyOp? && s.reg.ops[s.tasks[t].pc.op].cpc.CHeld?
  }

  /** While the set is read-locked, no entry comes or goes. */
  lemma ReadLockFreezesEntries(s: State, step: Step)
    requires WriteLockInv(s) && s.writer.None?
    ensures Apply(s, step).entries == s.entries
  {
  }

  /** Bytes outside all entries, and the length, are the same. */
  ghost predicate SameOutside(entries: seq<Entry>, before: seq<Byte>, after: seq<Byte>) {
    && |before| == |after|
    && forall x :: 0 <= x < |before| && !CopyOut.Covered(entries, x) ==> after[x] == before[x]
  }

  lemma StoreIsCovered(s: Sys, u: nat, at: nat, bytes: Bytes, x: nat)
    requires SysInv(s) && Possible(s, Store(u, at, bytes)) && at <= x < at + |bytes|
    ensures CopyOut.Covered(s.reg.entries, x)
  {
    StoresStayInside(s, u, at, bytes);
    var e := EntryOf(s.reg.ops[s.tasks[u].pc.op]).value;
    assert e in s.reg.entries && Covers(e.range, x);
  }

  /** A store leaves every uncovered byte alone. */
  lemma StoreKeepsOutside(s: Sys, u: nat, at: nat, bytes: Bytes)
    requires SysInv(s) && Possible(s, Store(u, at, bytes))
    ensures SameOutside(s.reg.entries, s.mem, Put(s.mem, at, bytes))
  {
    forall x: nat | at <= x < at + |bytes| ensures CopyOut.Covered(s.reg.entries, x) {
      StoreIsCovered(s, u, at, bytes, x);
    }
  }

  lemma CopyingHoldsLocks(s: Sys, t: nat)
    requires SysInv(s) && Copying(s, t)
    ensures s.writer.None? && s.reg.writer.None?
  {
    assert HoldsReadGuard(s.tasks[t]) && t in s.readers;
    assert HoldsRead(s.reg.ops[s.tasks[t].pc.op]) && s.tasks[t].pc.op in s.reg.readers;
  }

  /** A step beside a running copy keeps the entries and every uncovered byte. */
  lemma CopySeesStep(s: Sys, t: nat, move: Move)
    requires SysInv(s) && Copying(s, t)
    ensures Do(s, move).reg.entries == s.reg.entries
    ensures SameOutside(s.reg.entries, s.mem, Do(s, move).mem)
  {
    CopyingHoldsLocks(s, t);
    if Possible(s, move) {
      MutateNeedsWriteGuard(s, move);
      if move.Store? {
        StoreKeepsOutside(s, move.task, move.at, move.bytes);
      } else if move.Registering? {
        ReadLockFreezesEntries(s.reg, Advance(move.op));
      } else if move.DropView? {
        ReadLockFreezesEntries(s.reg, Drop(s.tasks[move.task].pc.op));
      } else if move.Check? {
        CheckOutcome(s, move.task);
        if Reads(s.tasks[move.task].job) {
          ReadLockFreezesEntries(s.reg, FirstCall(s.tasks[move.task].job));
        }
      }
    }
  }

  ghost predicate CopyingSince(start: Sys, moves: seq<Move>, m: nat, t: nat) {
    m <= |moves| && forall k :: m <= k <= |moves| ==> Copying(Play(start, moves[..k]), t)
  }

  lemma {:induction false} CopySeesRun(shards: nat, bytes: Bytes, moves: seq<Move>, m: nat, t: nat)
    requires CopyingSince(Fresh(shards, bytes), moves, m, t)
    ensures var first, last := Play(Fresh(shards, bytes), moves[..m]), Play(Fresh(shards, bytes), moves);
            && last.reg.entries == first.reg.entries
            && SameOutside(first.reg.entries, first.mem, last.mem)
    decreases |moves|
  {
    var start := Fresh(shards, bytes);
    assert moves[..|moves|] == moves;
    if m < |moves| {
      var before := moves[..|moves| - 1];
      forall k | m <= k <= |before| ensures Copying(Play(start, before[..k]), t) {
        assert before[..k] == moves[..k];
      }
      CopySeesRun(shards, bytes, before, m, t);
      assert before[..m] == moves[..m];
      assert before[..|before|] == before;
      PlayKeepsInv(shards, bytes, before);
      CopySeesStep(Play(start, before), t, moves[|moves| - 1]);
    }
  }

  /** The memory a copy sees: access `n` happens after `times(n)` moves of the run. */
  ghost function SeenBy(start: Sys, moves: seq<Move>, times: nat -> nat): CopyOut.History {
    n => Play(start, if times(n) <= |moves| then moves[..times(n)] else moves).mem
  }

  lemma SeenOutside(shards: nat, bytes: Bytes, moves: seq<Move>, m: nat, t: nat, times: nat -> nat, n: nat)
    requires CopyingSince(Fresh(shards, bytes), moves, m, t) && m <= times(n) <= |moves|
    ensures var s := Play(Fresh(shards, bytes), moves[..m]);
            SameOutside(s.reg.entries, s.mem, SeenBy(Fresh(shards, bytes), moves, times)(n))
  {
    var start, part := Fresh(shards, bytes), moves[..times(n)];
    forall k | m <= k <= |part| ensures Copying(Play(start, part[..k]), t) {
      assert part[..k] == moves[..k];
    }
    CopySeesRun(shards, bytes, part, m, t);
    assert part[..m] == moves[..m];
  }

  lemma OutsideIsStable(mem: CopyOut.History, entries: seq<Entry>, first: seq<Byte>)
    requires forall n :: SameOutside(entries, first, mem(n))
    ensures CopyOut.StableOutside(mem, entries, |first|)
  {
    forall n, x | 0 <= x < |first| && !CopyOut.Covered(entries, x)
      ensures |mem(n)| == |first| == |mem(0)| && mem(n)[x] == mem(0)[x]
    {
      assert SameOutside(entries, first, mem(n)) && SameOutside(entries, first, mem(0));
    }
    forall n ensures |mem(n)| == |first| {
      assert SameOutside(entries, first, mem(n));
    }
  }

  lemma CopyInside(s: Sys, t: nat)
    requires SysInv(s) && Copying(s, t)
    ensures s.tasks[t].job.offset + s.tasks[t].job.len <= |s.mem|
    ensures CopyOut.Admissible(s.reg.entries, |s.mem|)
  {
    EntriesAreAdmissible(s);
    assert Serves(s.reg.ops[s.tasks[t].pc.op], s.tasks[t].job);
  }

  lemma CopyStartsInside(shards: nat, bytes: Bytes, moves: seq<Move>, m: nat, t: nat)
    requires CopyingSince(Fresh(shards, bytes), moves, m, t)
    ensures var s := Play(Fresh(shards, bytes), moves[..m]);
            && t < |s.tasks| && s.tasks[t].job.Copy?
            && s.tasks[t].job.offset + s.tasks[t].job.len <= |s.mem|
            && CopyOut.Admissible(s.reg.entries, |s.mem|)
  {
    PlayKeepsInv(shards, bytes, moves[..m]);
    CopyInside(Play(Fresh(shards, bytes), moves[..m]), t);
  }

  /**
   In any run of the mapping, a copy that holds the registry's read lock
   from move `m` to the end of `moves` meets the whole precondition of
   `CopyOut`, at whatever moments of that window its accesses happen.
   */
  lemma CopyMeetsContract(shards: nat, bytes: Bytes, moves: seq<Move>, m: nat, t: nat, times: nat -> nat)
    requires CopyingSince(Fresh(shards, bytes), moves, m, t)
    requires forall n :: m <= times(n) <= |moves|
    ensures var start := Fresh(shards, bytes);
            var s := Play(start, moves[..m]);
            && t < |s.tasks| && s.tasks[t].job.Copy?
            && s.tasks[t].job.offset + s.tasks[t].job.len <= |s.mem|
            && CopyOut.Admissible(s.reg.entries, |s.mem|)
            && CopyOut.StableOutside(SeenBy(start, moves, times), s.reg.entries, |s.mem|)
  {
    var start := Fresh(shards, bytes);
    var s, mem := Play(start, moves[..m]), SeenBy(start, moves, times);
    CopyStartsInside(shards, bytes, moves, m, t);
    forall n ensures SameOutside(s.reg.entries, s.mem, mem(n)) {
      SeenOutside(shards, bytes, moves, m, t, times, n);
    }
    OutsideIsStable(mem, s.reg.entries, s.mem);
  }
}
