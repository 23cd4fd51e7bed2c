/**
 The managed mapping as a step system (`src/mmap.rs`, `src/atomic.rs`,
 `src/iterator.rs`, `src/advise.rs`): a reader/writer lock around the
 mapped bytes, the view registry, and any number of threads that take
 slices and atomic views, copy, store, write, resize and discard pages.
 */
module Mapping {
  import opened Ranges
  import opened Bounds
  import opened Registry
  import opened RegistrySafety

  // ----- state -----

  /** What a task was called for. */
  datatype Job =
    | Slice(offset: U64, len: U64, shard: nat)        // as_slice, an iterator item
    | View(offset: U64, count: U64, size: U64)        // an atomic view
    | Copy(offset: U64, len: U64)                     // read_into, read_bytes
    | Write(offset: U64, len: U64)                    // update_region, as_slice_mut, chunks_mut
    | Resize                                          // resize
    | Discard                                         // DontNeed on private pages

  datatype Pc =
    | Waiting                       // next: take the mapping's lock
    | Holding                       // lock held; next: check bounds
    | Using(op: nat)                // registry call `op` in progress or view alive
    | Writing                       // write guard held, range in bounds: may write
    | Leaving(error: Option<Error>) // next: release the lock
    | Gone(error: Option<Error>)

  datatype Task = Task(job: Job, pc: Pc)

  datatype Sys = Sys(
    reg: State,
    mem: Bytes,
    writer: Option<nat>,   // task holding the write guard
    readers: set<nat>,     // tasks holding a read guard
    tasks: seq<Task>,
    owner: seq<nat>)       // who made each registry call, an index in `tasks`

  function Fresh(shards: nat, bytes: Bytes): Sys {
    Sys(Init(shards), bytes, None, {}, [], [])
  }

  // ----- steps -----

  datatype Move =
    | Begin(job: Job)
    | Acquire(task: nat)
    | Check(task: nat)
    | Registering(op: nat)                                // one registry step
    | DropView(task: nat)
    | Finish(task: nat)
    | Release(task: nat)
    | Store(task: nat, at: nat, bytes: Bytes)             // through a live atomic view
    | Mutate(task: nat, bytes: Bytes)                     // under the write guard
    | Leave(task: nat)

  predicate Reads(job: Job) {
    job.Slice? || job.View? || job.Copy?
  }

  /** The registry call has ended: refused, dropped, or copied. */
  predicate Finished(op: Op) {
    (op.PlainOp? && op.ppc.PDone?) || (op.AtomicOp? && op.apc.ADone?) || (op.CopyOp? && op.cpc.CDone?)
  }

  predicate Refused(op: Op) {
    (op.PlainOp? && op.ppc == PDone(true)) || (op.AtomicOp? && op.apc.ADone? && op.apc.refused.Some?)
  }

  predicate Possible(s: Sys, move: Move) {
    match move
    case Begin(job) =>
      (job.Slice? ==> job.shard < |s.reg.shards|) && (job.View? ==> job.size == 4 || job.size == 8)
    case Acquire(t) =>
      && t < |s.tasks| && s.tasks[t].pc.Waiting? && s.writer.None?
      && (!Reads(s.tasks[t].job) ==> s.readers == {})
    case Check(t) => t < |s.tasks| && s.tasks[t].pc.Holding?
    case Registering(op) => Ready(s.reg, op)
    case DropView(t) =>
      && t < |s.tasks| && s.tasks[t].pc.Using? && s.tasks[t].pc.op < |s.reg.ops|
      && Droppable(s.reg.ops[s.tasks[t].pc.op])
    case Finish(t) =>
      && t < |s.tasks| && s.tasks[t].pc.Using? && s.tasks[t].pc.op < |s.reg.ops|
      && Finished(s.reg.ops[s.tasks[t].pc.op])
    case Release(t) => t < |s.tasks| && s.tasks[t].pc.Leaving?
    case Store(t, at, bytes) =>
      && t < |s.tasks| && s.tasks[t].pc.Using? && s.tasks[t].pc.op < |s.reg.ops|
      && var op := s.reg.ops[s.tasks[t].pc.op];
      && LiveAtomic(op) && |bytes| == op.size && op.size > 0
      && at % op.size == 0 && op.range.start <= at && at + op.size <= op.range.end
    case Mutate(t, bytes) =>
      && t < |s.tasks| && s.tasks[t].pc.Writing?
      && (match s.tasks[t].job
          case Write(_, len) => |bytes| == len
          case Resize => true
          case Discard => |bytes| == |s.mem|
          case _ => false)
    case Leave(t) => t < |s.tasks| && s.tasks[t].pc.Writing?
  }

  function Goto(s: Sys, t: nat, pc: Pc): Sys
    requires t < |s.tasks|
  {
    s.(tasks := s.tasks[t := s.tasks[t].(pc := pc)])
  }

  /** Task `t` calls the registry, while it holds the guard. */
  function CallRegistry(s: Sys, t: nat, call: Step): Sys
    requires t < |s.tasks|
  {
    Goto(s, t, Using(|s.reg.ops|)).(reg := Apply(s.reg, call), owner := s.owner + [t])
  }

  function Checked(s: Sys, t: nat): Sys
    requires Possible(s, Check(t))
  {
    match s.tasks[t].job
    case Slice(offset, len, shard) =>
      var range := SliceRange(offset, len, |s.mem|);
      if range.Ok? then CallRegistry(s, t, CallPlain(range.value, shard))
      else Goto(s, t, Leaving(Some(OutOfBounds(offset, len, |s.mem|))))
    case View(offset, count, size) =>
      if ViewFits(offset, size, count, |s.mem|) then
        CallRegistry(s, t, CallAtomic(Range(offset, offset + SaturatingMul(size, count)), size))
      else Goto(s, t, Leaving(Some(OutOfBounds(offset, SaturatingMul(size, count), |s.mem|))))
    case Copy(offset, len) =>
      var range := SliceRange(offset, len, |s.mem|);
      if range.Ok? then CallRegistry(s, t, CallCopy(range.value))
      else Goto(s, t, Leaving(Some(OutOfBounds(offset, len, |s.mem|))))
    case Write(offset, len) =>
      if len == 0 || SliceRange(offset, len, |s.mem|).Ok? then Goto(s, t, Writing)
      else Goto(s, t, Leaving(Some(OutOfBounds(offset, len, |s.mem|))))
    case _ => Goto(s, t, Writing)
  }

  /** A zero-length slice and a misaligned view never reach the lock. */
  function FirstPc(job: Job): Pc {
    match job
    case Slice(_, len, _) => if len == 0 then Gone(None) else Waiting
    case View(offset, _, size) =>
      if size > 0 && offset % size != 0 then Gone(Some(Misaligned(size, offset))) else Waiting
    case Copy(_, len) => if len == 0 then Gone(None) else Waiting
    case _ => Waiting
  }

  function Do(s: Sys, move: Move): Sys {
    if !Possible(s, move) then s
    else
      match move
      case Begin(job) => s.(tasks := s.tasks + [Task(job, FirstPc(job))])
      case Acquire(t) =>
        if Reads(s.tasks[t].job) then Goto(s, t, Holding).(readers := s.readers + {t})
        else Goto(s, t, Holding).(writer := Some(t))
      case Check(t) => Checked(s, t)
      case Registering(op) => s.(reg := Apply(s.reg, Advance(op)))
      case DropView(t) => s.(reg := Apply(s.reg, Drop(s.tasks[t].pc.op)))
      case Finish(t) => Goto(s, t, Leaving(if Refused(s.reg.ops[s.tasks[t].pc.op]) then Some(InvalidMode) else None))
      case Release(t) =>
        if Reads(s.tasks[t].job) then Goto(s, t, Gone(s.tasks[t].pc.error)).(readers := s.readers - {t})
        else Goto(s, t, Gone(s.tasks[t].pc.error)).(writer := None)
      case Store(t, at, bytes) => s.(mem := Put(s.mem, at, bytes))
      case Mutate(t, bytes) =>
        if s.tasks[t].job.Write? then s.(mem := Put(s.mem, s.tasks[t].job.offset, bytes))
        else s.(mem := bytes)
      case Leave(t) => Goto(s, t, Leaving(None))
  }

  function Play(s: Sys, moves: seq<Move>): Sys {
    if moves == [] then s else Do(Play(s, moves[..|moves| - 1]), moves[|moves| - 1])
  }
}
