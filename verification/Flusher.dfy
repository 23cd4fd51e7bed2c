/**
 The stop protocol of the time-based flusher (`src/flush.rs`): a worker
 that sleeps on a condition variable and calls back once per interval,
 and a `Drop` that stops and joins it, possibly from inside the callback.
 */
module Flusher {

  datatype Holder = Free | Worker | Dropper

  datatype WorkerPc =
    | Begin                          // next: lock `stop`
    | Top                            // locked; next: compute the deadline
    | Look                           // locked; next: `stop` set, or wait (unlocks)
    | Waiting                        // on the condition variable, unlocked
    | Waking(timedOut: bool)         // next: lock again
    | Decide                         // locked; next: `stop` set, or unlock for the callback
    | Unlocked                       // next: the callback starts
    | Calling                        // inside the callback
    | Relock                         // next: lock again
    | Exiting                        // locked; next: unlock and end
    | Ended

  datatype DropPc =
    | Idle                           // the flusher is alive
    | Locking                        // next: lock `stop`
    | Setting                        // locked; next: set `stop`
    | Unlocking                      // next: unlock
    | Notifying                      // next: wake the worker
    | Joining                        // next: join, unless on the worker itself
    | Returned

  datatype State = State(
    interval: nat,
    stop: bool,
    lock: Holder,
    worker: WorkerPc,
    drop: DropPc,
    onWorker: bool,      // the drop runs inside the callback
    now: nat,
    topAt: nat,          // when the worker last computed its deadline
    deadline: nat,
    starts: nat,         // callbacks started
    lateStarts: nat)     // callbacks started after `stop` was set

  /** `new`: no flusher for a zero interval. */
  function New(interval: nat): State
    requires interval > 0
  {
    State(interval, false, Free, Begin, Idle, false, 0, 0, 0, 0, 0)
  }

  datatype Step =
    | Tick                       // time passes
    | Spurious                   // the wait ends for no reason
    | TimeOut                    // the wait ends at its deadline
    | Work                       // the worker's next step
    | StartDrop(inside: bool)    // `Drop` is called, inside the callback or elsewhere
    | DropOn                     // the drop's next step

  predicate Dropping(s: State) {
    !s.drop.Idle? && !s.drop.Returned?
  }

  predicate Enabled(s: State, step: Step) {
    match step
    case Tick => true
    case Spurious => s.worker.Waiting?
    case TimeOut => s.worker.Waiting? && s.now >= s.deadline
    case Work =>
      (match s.worker
       case Begin => s.lock.Free?
       case Waking(_) => s.lock.Free?
       case Relock => s.lock.Free?
       case Waiting => false
       case Ended => false
       case Calling => !(s.onWorker && Dropping(s))   // the drop is part of the callback
       case _ => true)
    case StartDrop(inside) => s.drop.Idle? && (inside ==> s.worker.Calling?)
    case DropOn =>
      (match s.drop
       case Idle => false
       case Locking => s.lock.Free?
       case Joining => s.onWorker || s.worker.Ended?
       case Returned => false
       case _ => true)
  }

  function WorkerStep(s: State): State {
    match s.worker
    case Begin => s.(lock := Worker, worker := Top)
    case Top => s.(topAt := s.now, deadline := s.now + s.interval, worker := Look)
    case Look => if s.stop then s.(worker := Decide) else s.(worker := Waiting, lock := Free)
    case Waiting => s
    case Waking(timedOut) => s.(lock := Worker, worker := if timedOut then Decide else Look)
    case Decide => if s.stop then s.(worker := Exiting) else s.(worker := Unlocked, lock := Free)
    case Unlocked =>
      s.(worker := Calling, starts := s.starts + 1, lateStarts := s.lateStarts + (if s.stop then 1 else 0))
    case Calling => s.(worker := Relock)
    case Relock => s.(lock := Worker, worker := Top)
    case Exiting => s.(lock := Free, worker := Ended)
    case Ended => s
  }

  function DropStep(s: State): State {
    match s.drop
    case Idle => s
    case Locking => s.(lock := Dropper, drop := Setting)
    case Setting => s.(stop := true, drop := Unlocking)
    case Unlocking => s.(lock := Free, drop := Notifying)
    case Notifying => s.(drop := Joining, worker := if s.worker.Waiting? then Waking(false) else s.worker)
    case Joining => s.(drop := Returned)
    case Returned => s
  }

  function Apply(s: State, step: Step): State {
    if !Enabled(s, step) then s
    else
      match step
      case Tick => s.(now := s.now + 1)
      case Spurious => s.(worker := Waking(false))
      case TimeOut => s.(worker := Waking(true))
      case Work => WorkerStep(s)
      case StartDrop(inside) => s.(drop := Locking, onWorker := inside)
      case DropOn => DropStep(s)
  }

  function Run(s: State, steps: seq<Step>): State {
    if steps == [] then s else Apply(Run(s, steps[..|steps| - 1]), steps[|steps| - 1])
  }

  // ----- invariant -----

  predicate WorkerHolds(s: State) {
    s.worker.Top? || s.worker.Look? || s.worker.Decide? || s.worker.Exiting?
  }

  predicate DropperHolds(s: State) {
    s.drop.Setting? || s.drop.Unlocking?
  }

  /** The worker has slept to its deadline (or leaves because it saw `stop`). */
  predicate Slept(s: State) {
    s.now >= s.deadline && s.deadline == s.topAt + s.interval
  }

  predicate Inv(s: State) {
    && (s.lock.Worker? <==> WorkerHolds(s))
    && (s.lock.Dropper? <==> DropperHolds(s))
    && (s.stop <==> s.drop.Unlocking? || s.drop.Notifying? || s.drop.Joining? || s.drop.Returned?)
    && (s.worker.Exiting? || s.worker.Ended? ==> s.stop)
    // no lost wakeup: once notified, the worker is not asleep and will not sleep again
    && (s.drop.Joining? || s.drop.Returned? ==> !s.worker.Waiting?)
    && (s.onWorker && Dropping(s) ==> s.worker.Calling?)
    && (s.drop.Idle? ==> !s.onWorker)
    && (s.drop.Returned? && !s.onWorker ==> s.worker.Ended?)
    // deadlines
    && s.topAt <= s.now
    && (s.worker.Look? || s.worker.Waiting? || s.worker.Waking? ==> s.deadline == s.topAt + s.interval)
    && (s.worker == Waking(true) ==> Slept(s))
    && (s.worker.Decide? && !s.stop ==> Slept(s))
    && (s.worker.Unlocked? ==> Slept(s))
    // late starts
    && s.lateStarts <= 1
    && (s.lateStarts == 1 ==> s.stop && (s.worker.Calling? || AfterLast(s.worker)))
    && (s.stop && s.worker.Unlocked? ==> s.lateStarts == 0)
  }

  /** From here on a worker that sees `stop` only walks to its exit. */
  predicate AfterLast(w: WorkerPc) {
    w.Relock? || w.Top? || w.Look? || w.Decide? || w.Exiting? || w.Ended?
  }

  lemma WorkKeepsInv(s: State)
    requires Inv(s) && Enabled(s, Work)
    ensures Inv(WorkerStep(s))
  {
  }

  lemma DropKeepsInv(s: State)
    requires Inv(s) && Enabled(s, DropOn)
    ensures Inv(DropStep(s))
  {
  }

  lemma StepKeepsInv(s: State, step: Step)
    requires Inv(s)
    ensures Inv(Apply(s, step))
  {
    if Enabled(s, step) {
      match step
      case Work => WorkKeepsInv(s);
      case DropOn => DropKeepsInv(s);
      case _ =>
    }
  }

  lemma {:induction false} RunKeepsInv(interval: nat, steps: seq<Step>)
    requires interval > 0
    ensures Inv(Run(New(interval), steps)) && Run(New(interval), steps).interval == interval
  {
    if steps != [] {
      RunKeepsInv(interval, steps[..|steps| - 1]);
      StepKeepsInv(Run(New(interval), steps[..|steps| - 1]), steps[|steps| - 1]);
    }
  }

  // ----- what the protocol promises -----

  /** Once `Drop` on another thread has returned, no callback runs or ever starts. */
  lemma {:induction false} NoCallbackAfterDrop(interval: nat, steps: seq<Step>, more: seq<Step>)
    requires interval > 0
    requires var s := Run(New(interval), steps); s.drop.Returned? && !s.onWorker
    ensures var s, s' := Run(New(interval), steps), Run(Run(New(interval), steps), more);
            s'.worker.Ended? && s'.drop.Returned? && s'.starts == s.starts
  {
    RunKeepsInv(interval, steps);
    if more != [] {
      NoCallbackAfterDrop(interval, steps, more[..|more| - 1]);
    }
  }

  /** At most one callback starts after `stop` is set. */
  lemma AtMostOneLateCallback(interval: nat, steps: seq<Step>)
    requires interval > 0
    ensures Run(New(interval), steps).lateStarts <= 1
  {
    RunKeepsInv(interval, steps);
  }

  /** Starts after `stop` is set, told by the counter of all starts alone. */
  predicate Stopped(first: State, s: State) {
    && s.stop && s.starts <= first.starts + 1
    && (s.starts == first.starts + 1 ==> s.worker.Calling? || AfterLast(s.worker))
  }

  lemma StepKeepsStopped(first: State, s: State, step: Step)
    requires Inv(s) && Stopped(first, s)
    ensures Stopped(first, Apply(s, step))
  {
    if step.Work? && Enabled(s, step) {
      WorkKeepsInv(s);
    }
  }

  /** From the moment `stop` is set, any continuation starts at most one more callback. */
  lemma {:induction false} AtMostOneStartAfterStop(interval: nat, steps: seq<Step>, more: seq<Step>)
    requires interval > 0 && Run(New(interval), steps).stop
    ensures Stopped(Run(New(interval), steps), Run(Run(New(interval), steps), more))
  {
    RunKeepsInv(interval, steps);
    if more != [] {
      var before, last := more[..|more| - 1], more[|more| - 1];
      AtMostOneStartAfterStop(interval, steps, before);
      RunJoins(interval, steps, before);
      StepKeepsStopped(Run(New(interval), steps), Run(Run(New(interval), steps), before), last);
    }
  }

  /** A callback starts only when a full interval has passed since the worker began to wait. */
  lemma CallbackAfterFullInterval(interval: nat, steps: seq<Step>, step: Step)
    requires interval > 0
    requires var s := Run(New(interval), steps); Apply(s, step).starts > s.starts
    ensures var s := Run(New(interval), steps); s.now >= s.topAt + interval
  {
    RunKeepsInv(interval, steps);
  }

  /** Since the callback of `first` began, no other has, or an interval has passed. */
  predicate Spaced(first: State, s: State) {
    && s.now >= first.now && s.starts >= first.starts
    && (s.starts > first.starts ==> s.now >= first.now + first.interval)
    && (s.starts == first.starts && !s.worker.Calling? && !s.worker.Relock? && !s.worker.Top? ==>
          s.topAt >= first.now)
  }

  lemma StepKeepsSpaced(first: State, s: State, step: Step)
    requires Inv(s) && s.interval == first.interval && Spaced(first, s)
    ensures Spaced(first, Apply(s, step))
  {
  }

  /** Two callbacks start at least an interval apart, whatever wakeups occur in between. */
  lemma {:induction false} CallbacksAreSpaced(interval: nat, steps: seq<Step>, more: seq<Step>)
    requires interval > 0
    requires Run(New(interval), steps).worker.Calling?
    ensures Spaced(Run(New(interval), steps), Run(Run(New(interval), steps), more))
  {
    RunKeepsInv(interval, steps);
    if more != [] {
      CallbacksAreSpaced(interval, steps, more[..|more| - 1]);
      RunJoins(interval, steps, more[..|more| - 1]);
      StepKeepsSpaced(Run(New(interval), steps), Run(Run(New(interval), steps), more[..|more| - 1]), more[|more| - 1]);
    }
  }

  lemma {:induction false} RunJoins(interval: nat, steps: seq<Step>, more: seq<Step>)
    requires interval > 0
    ensures Inv(Run(Run(New(interval), steps), more)) && Run(Run(New(interval), steps), more).interval == interval
  {
    RunKeepsInv(interval, steps);
    if more != [] {
      RunJoins(interval, steps, more[..|more| - 1]);
      StepKeepsInv(Run(Run(New(interval), steps), more[..|more| - 1]), more[|more| - 1]);
    }
  }

  // ----- callbacks do come -----

  /** Only the worker moves: its steps, its wakeup at the deadline, and time. */
  predicate WorkerOnly(steps: seq<Step>) {
    forall k :: 0 <= k < |steps| ==> steps[k].Tick? || steps[k].TimeOut? || steps[k].Work?
  }

  /** Steps to the next callback, apart from the wait for the deadline. */
  function Distance(w: WorkerPc): nat {
    match w
    case Calling => 8
    case Begin => 7
    case Relock => 7
    case Top => 6
    case Waking(timedOut) => if timedOut then 2 else 5
    case Look => 4
    case Waiting => 3
    case Decide => 1
    case _ => 0
  }

  function TimeLeft(s: State): nat {
    if s.worker.Look? || s.worker.Waiting? || s.worker.Waking? then
      if s.now < s.deadline then s.deadline - s.now else 0
    else if s.worker.Decide? || s.worker.Unlocked? then 0
    else s.interval
  }

  /** What an undisturbed worker does next. */
  function Next(s: State): Step {
    if s.worker.Waiting? then if s.now < s.deadline then Tick else TimeOut else Work
  }

  lemma NextAdvances(s: State)
    requires Inv(s) && s.drop.Idle?
    ensures var s' := Apply(s, Next(s));
            && s'.drop.Idle? && s'.interval == s.interval
            && (if s.worker.Unlocked? then s'.starts == s.starts + 1 && s'.now == s.now
                else
                  && s'.starts == s.starts
                  && s'.now + TimeLeft(s') <= s.now + TimeLeft(s)
                  && (Distance(s'.worker) < Distance(s.worker)
                      || (Distance(s'.worker) == Distance(s.worker) && TimeLeft(s') < TimeLeft(s))))
  {
  }

  /** A run may be split after its first step. */
  lemma {:induction false} RunFrom(s: State, first: Step, rest: seq<Step>)
    ensures Run(s, [first] + rest) == Run(Apply(s, first), rest)
  {
    if rest == [] {
      assert [first] + rest == [first] && [first][..0] == [];
      assert Run(s, [first][..0]) == s;
    } else {
      var before := rest[..|rest| - 1];
      RunFrom(s, first, before);
      assert ([first] + rest)[..|rest|] == [first] + before;
    }
  }

  lemma {:induction false} CallbackFrom(s: State) returns (steps: seq<Step>)
    requires Inv(s) && s.drop.Idle?
    ensures WorkerOnly(steps)
    ensures Run(s, steps).starts == s.starts + 1 && Run(s, steps).now <= s.now + TimeLeft(s)
    decreases Distance(s.worker), TimeLeft(s)
  {
    var next := Next(s);
    NextAdvances(s);
    StepKeepsInv(s, next);
    var rest := [];
    if !s.worker.Unlocked? {
      rest := CallbackFrom(Apply(s, next));
    }
    RunFrom(s, next, rest);
    steps := [next] + rest;
  }

  /** While no drop has begun, the worker needs at most one more interval to start the next callback. */
  lemma CallbackComes(interval: nat, sofar: seq<Step>) returns (steps: seq<Step>)
    requires interval > 0
    requires Run(New(interval), sofar).drop.Idle?
    ensures var s := Run(New(interval), sofar);
            && WorkerOnly(steps)
            && Run(s, steps).starts == s.starts + 1
            && Run(s, steps).now <= s.now + interval
  {
    RunKeepsInv(interval, sofar);
    steps := CallbackFrom(Run(New(interval), sofar));
  }

  /** Steps left to the worker once `stop` is set and it has been woken. */
  function WorkerRank(w: WorkerPc): nat {
    match w
    case Unlocked => 9
    case Calling => 8
    case Begin => 7
    case Relock => 7
    case Top => 6
    case Waiting => 5
    case Waking(_) => 4
    case Look => 3
    case Decide => 2
    case Exiting => 1
    case Ended => 0
  }

  function DropRank(d: DropPc): nat {
    match d
    case Idle => 6
    case Locking => 5
    case Setting => 4
    case Unlocking => 3
    case Notifying => 2
    case Joining => 1
    case Returned => 0
  }

  /**
   A drop in progress never gets stuck and never waits for the interval:
   until it has returned, the worker or the drop itself can step without
   time passing.
   */
  lemma DropNeverStuck(s: State)
    requires Inv(s) && Dropping(s)
    ensures Enabled(s, Work) || Enabled(s, DropOn)
    ensures s.onWorker ==> Enabled(s, DropOn)
  {
  }

  /** Once `stop` is set, each step of the worker or the drop brings both nearer their ends. */
  lemma StopBringsEnd(s: State, step: Step)
    requires Inv(s) && s.stop && Enabled(s, step) && (step.Work? || step.DropOn? || step.TimeOut? || step.Spurious?)
    ensures var s' := Apply(s, step);
            && s'.stop
            && WorkerRank(s'.worker) + DropRank(s'.drop) < WorkerRank(s.worker) + DropRank(s.drop)
  {
  }

  // ----- the drop returns -----

  /** Worker steps before the lock is free for the drop. */
  function HoldRank(w: WorkerPc): nat {
    match w
    case Top => 2
    case Look => 1
    case Decide => 1
    case _ => 0
  }

  /** The drop moves on if it can, and else the worker does. */
  function NextForDrop(s: State): Step {
    if Enabled(s, DropOn) then DropOn else Work
  }

  predicate NoTimePasses(steps: seq<Step>) {
    forall k :: 0 <= k < |steps| ==> steps[k].Work? || steps[k].DropOn?
  }

  predicate DropAlone(steps: seq<Step>) {
    forall k :: 0 <= k < |steps| ==> steps[k].DropOn?
  }

  lemma DropAdvances(s: State)
    requires Inv(s) && Dropping(s)
    ensures var s' := Apply(s, NextForDrop(s));
            && s'.now == s.now && s'.onWorker == s.onWorker
            && (s.onWorker ==> NextForDrop(s).DropOn?)
            && (Dropping(s') || s'.drop.Returned?)
            && (DropRank(s'.drop) < DropRank(s.drop)
                || (s'.drop == s.drop
                    && if s.drop.Locking? then HoldRank(s'.worker) < HoldRank(s.worker)
                       else WorkerRank(s'.worker) < WorkerRank(s.worker)))
  {
    DropNeverStuck(s);
    if s.stop && !Enabled(s, DropOn) {
      StopBringsEnd(s, Work);
    }
  }

  lemma {:induction false} ReturnFrom(s: State) returns (steps: seq<Step>)
    requires Inv(s) && Dropping(s)
    ensures NoTimePasses(steps) && (s.onWorker ==> DropAlone(steps))
    ensures Run(s, steps).drop.Returned? && Run(s, steps).now == s.now
    decreases DropRank(s.drop), if s.drop.Locking? then HoldRank(s.worker) else WorkerRank(s.worker)
  {
    var next := NextForDrop(s);
    DropAdvances(s);
    StepKeepsInv(s, next);
    var rest := [];
    if Dropping(Apply(s, next)) {
      rest := ReturnFrom(Apply(s, next));
    }
    RunFrom(s, next, rest);
    steps := [next] + rest;
  }

  /**
   From every reachable state a drop in progress returns by its own steps
   and the worker's, without time passing: it never waits for the
   interval. Inside the callback it returns by its own steps alone.
   */
  lemma DropReturns(interval: nat, sofar: seq<Step>) returns (steps: seq<Step>)
    requires interval > 0 && Dropping(Run(New(interval), sofar))
    ensures var s := Run(New(interval), sofar);
            && NoTimePasses(steps) && (s.onWorker ==> DropAlone(steps))
            && Run(s, steps).drop.Returned? && Run(s, steps).now == s.now
  {
    RunKeepsInv(interval, sofar);
    steps := ReturnFrom(Run(New(interval), sofar));
  }

  /**
   A drop from inside the callback returns without waiting for anyone;
   the worker then ends when that callback returns: it starts no other
   callback and does not sleep.
   */
  lemma {:induction false} DropInsideCallback(interval: nat, steps: seq<Step>, more: seq<Step>)
    requires interval > 0
    requires var s := Run(New(interval), steps); s.drop.Returned? && s.onWorker
    ensures var s, s' := Run(New(interval), steps), Run(Run(New(interval), steps), more);
            && s'.starts == s.starts && s'.drop.Returned? && s'.stop
            && (s'.worker.Calling? || AfterLast(s'.worker))
            && (!s'.worker.Calling? && !s'.worker.Ended? ==> Enabled(s', Work))
  {
    RunKeepsInv(interval, steps);
    DroppedInside(interval, steps);
    if more != [] {
      DropInsideCallback(interval, steps, more[..|more| - 1]);
      RunJoins(interval, steps, more[..|more| - 1]);
    }
    RunJoins(interval, steps, more);
  }

  /** A drop made inside the callback is still inside it, or past its end. */
  lemma {:induction false} DroppedInside(interval: nat, steps: seq<Step>)
    requires interval > 0
    ensures var s := Run(New(interval), steps);
            s.onWorker && s.drop.Returned? ==> s.worker.Calling? || AfterLast(s.worker)
  {
    if steps != [] {
      DroppedInside(interval, steps[..|steps| - 1]);
      RunKeepsInv(interval, steps[..|steps| - 1]);
    }
  }
}
