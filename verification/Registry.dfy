/**
 The view registry as a step system (`src/views.rs`, "Protocol").

 Any number of threads run registrations, drops and copying reads. Each
 of them is an operation with a program counter; one step is one lock
 acquire or release, one slab insert or remove, one counter access, one
 shard scan, or one push or removal of an atomic entry. Steps of
 different operations interleave freely and take effect in order.
 */
module Registry {
  import opened Ranges
  import opened Slabs

  // ----- state -----

  /** A live atomic view: its bytes, its element size, its id. */
  datatype Entry = Entry(range: Range, size: nat, id: nat)

  datatype Conflict = AtomicLive | PlainLive | MixedSize

  /** Where `register_plain`, and later the drop of its result, stands. */
  datatype PlainPc =
    | PStart                               // next: lock the shard
    | PInsert                              // shard locked; next: insert
    | PInserted(slot: nat)                 // next: unlock the shard
    | PLoad(slot: nat)                     // next: load the counter
    | PWait(slot: nat)                     // next: read-lock the atomic set
    | PCheck(slot: nat)                    // read-locked; next: search the entries
    | PChecked(slot: nat, clash: bool)     // next: unlock the atomic set
    | PLive(slot: nat)                     // the caller holds the view
    | PDropStart(slot: nat, refused: bool) // next: lock the shard
    | PRemove(slot: nat, refused: bool)    // shard locked; next: remove
    | PRemoved(refused: bool)              // next: unlock the shard
    | PDone(refused: bool)

  /** Where `register_atomic`, and later the drop of its result, stands. */
  datatype AtomicPc =
    | AStart                               // next: is the range empty?
    | AWait                                // next: write-lock the atomic set
    | AMixed                               // write-locked; next: search other sizes
    | AAnnounce                            // next: counter + 1
    | AScan(k: nat)                        // next: lock shard k, or commit after the last
    | AScanning(k: nat)                    // shard k locked; next: search its slab
    | AScanned(k: nat, hit: bool)          // next: unlock shard k
    | ARollback                            // next: counter - 1
    | ARefuse(why: Conflict)               // next: unlock the atomic set
    | ACommitted(id: nat)                  // entry pushed; next: unlock the atomic set
    | ALive(view: Option<nat>)              // the caller holds the view
    | ADropStart(id: nat)                  // next: write-lock the atomic set
    | ARemove(id: nat)                     // write-locked; next: remove the entry
    | ARemoved                             // next: counter - 1
    | ADropped                             // next: unlock the atomic set
    | ADone(refused: Option<Conflict>)

  /** Where a copying read (`copy_out`, `touch`) stands. */
  datatype CopyPc = CStart | CHeld | CDone

  datatype Op =
    | PlainOp(range: Range, shard: nat, ppc: PlainPc)
    | AtomicOp(range: Range, size: nat, apc: AtomicPc)
    | CopyOp(range: Range, cpc: CopyPc)

  /** One shard: its slab and the operation that holds its mutex. */
  datatype Shard = Shard(table: Table, holder: Option<nat>)

  /** Operations are named by their index in `ops`. */
  datatype State = State(
    shards: seq<Shard>,
    entries: seq<Entry>,
    nextId: nat,
    writer: Option<nat>,   // holder of the atomic set's write lock
    readers: set<nat>,     // holders of its read lock
    live: int,             // the `atomic_live` counter
    ops: seq<Op>)

  function Init(shards: nat): State {
    State(seq(shards, _ => Shard(EMPTY, None)), [], 0, None, {}, 0, [])
  }

  // ----- steps -----

  datatype Step =
    | CallPlain(range: Range, shard: nat)
    | CallAtomic(range: Range, size: nat)
    | CallCopy(range: Range)
    | Advance(op: nat)   // one step of an unfinished call
    | Drop(op: nat)      // the caller drops a live view

  predicate EntryClash(entries: seq<Entry>, range: Range) {
    exists j :: 0 <= j < |entries| && Overlaps(entries[j].range, range)
  }

  predicate MixedClash(entries: seq<Entry>, range: Range, size: nat) {
    exists j :: 0 <= j < |entries| && entries[j].size != size && Overlaps(entries[j].range, range)
  }

  function Position(entries: seq<Entry>, id: nat): (j: nat)
    ensures j <= |entries|
    ensures j < |entries| ==> entries[j].id == id
    ensures forall k :: 0 <= k < j ==> entries[k].id != id
  {
    if entries == [] then 0
    else if entries[0].id == id then 0
    else 1 + Position(entries[1..], id)
  }

  function SwapRemove(entries: seq<Entry>, j: nat): seq<Entry>
    requires j < |entries|
  {
    entries[j := entries[|entries| - 1]][..|entries| - 1]
  }

  /** Operation `i` has a next step of its own and the lock it needs is free. */
  predicate Ready(s: State, i: nat) {
    i < |s.ops| &&
    match s.ops[i]
    case PlainOp(_, shard, pc) =>
      shard < |s.shards| &&
      (match pc
       case PStart => s.shards[shard].holder.None?
       case PDropStart(_, _) => s.shards[shard].holder.None?
       case PWait(_) => s.writer.None?
       case PLive(_) => false
       case PDone(_) => false
       case _ => true)
    case AtomicOp(_, _, pc) =>
      (match pc
       case AWait => s.writer.None? && s.readers == {}
       case ADropStart(_) => s.writer.None? && s.readers == {}
       case AScan(k) => k < |s.shards| ==> s.shards[k].holder.None?
       case AScanning(k) => k < |s.shards|
       case AScanned(k, _) => k < |s.shards|
       case ALive(_) => false
       case ADone(_) => false
       case _ => true)
    case CopyOp(_, pc) =>
      (match pc
       case CStart => s.writer.None?
       case CHeld => true
       case CDone => false)
  }

  function AtP(s: State, i: nat, pc: PlainPc): State
    requires i < |s.ops| && s.ops[i].PlainOp?
  {
    s.(ops := s.ops[i := s.ops[i].(ppc := pc)])
  }

  function AtA(s: State, i: nat, pc: AtomicPc): State
    requires i < |s.ops| && s.ops[i].AtomicOp?
  {
    s.(ops := s.ops[i := s.ops[i].(apc := pc)])
  }

  function SetShard(s: State, k: nat, shard: Shard): State
    requires k < |s.shards|
  {
    s.(shards := s.shards[k := shard])
  }

  function AdvancePlain(s: State, i: nat): State
    requires Ready(s, i) && s.ops[i].PlainOp?
  {
    var PlainOp(range, k, pc) := s.ops[i];
    var shard := s.shards[k];
    match pc
    case PStart => SetShard(AtP(s, i, PInsert), k, shard.(holder := Some(i)))
    case PInsert =>
      var (table, slot) := shard.table.Insert(range);
      SetShard(AtP(s, i, PInserted(slot)), k, shard.(table := table))
    case PInserted(slot) => SetShard(AtP(s, i, PLoad(slot)), k, shard.(holder := None))
    case PLoad(slot) => AtP(s, i, if s.live == 0 then PLive(slot) else PWait(slot))
    case PWait(slot) => AtP(s, i, PCheck(slot)).(readers := s.readers + {i})
    case PCheck(slot) => AtP(s, i, PChecked(slot, EntryClash(s.entries, range)))
    case PChecked(slot, clash) =>
      AtP(s, i, if clash then PDropStart(slot, true) else PLive(slot)).(readers := s.readers - {i})
    case PDropStart(slot, refused) =>
      SetShard(AtP(s, i, PRemove(slot, refused)), k, shard.(holder := Some(i)))
    case PRemove(slot, refused) =>
      SetShard(AtP(s, i, PRemoved(refused)), k, shard.(table := shard.table.Remove(slot)))
    case PRemoved(refused) => SetShard(AtP(s, i, PDone(refused)), k, shard.(holder := None))
  }

  function AdvanceAtomic(s: State, i: nat): State
    requires Ready(s, i) && s.ops[i].AtomicOp?
  {
    var AtomicOp(range, size, pc) := s.ops[i];
    match pc
    case AStart => AtA(s, i, if range.start == range.end then ALive(None) else AWait)
    case AWait => AtA(s, i, AMixed).(writer := Some(i))
    case AMixed =>
      AtA(s, i, if MixedClash(s.entries, range, size) then ARefuse(MixedSize) else AAnnounce)
    case AAnnounce => AtA(s, i, AScan(0)).(live := s.live + 1)
    case AScan(k) =>
      if k < |s.shards| then
        SetShard(AtA(s, i, AScanning(k)), k, s.shards[k].(holder := Some(i)))
      else
        AtA(s, i, ACommitted(s.nextId)).(
          entries := s.entries + [Entry(range, size, s.nextId)], nextId := s.nextId + 1)
    case AScanning(k) => AtA(s, i, AScanned(k, s.shards[k].table.Clashes(range)))
    case AScanned(k, hit) =>
      SetShard(AtA(s, i, if hit then ARollback else AScan(k + 1)), k, s.shards[k].(holder := None))
    case ARollback => AtA(s, i, ARefuse(PlainLive)).(live := s.live - 1)
    case ARefuse(why) => AtA(s, i, ADone(Some(why))).(writer := None)
    case ACommitted(id) => AtA(s, i, ALive(Some(id))).(writer := None)
    case ADropStart(id) => AtA(s, i, ARemove(id)).(writer := Some(i))
    case ARemove(id) =>
      var j := Position(s.entries, id);
      if j < |s.entries| then AtA(s, i, ARemoved).(entries := SwapRemove(s.entries, j))
      else AtA(s, i, ADropped)
    case ARemoved => AtA(s, i, ADropped).(live := s.live - 1)
    case ADropped => AtA(s, i, ADone(None)).(writer := None)
  }

  function AdvanceCopy(s: State, i: nat): State
    requires Ready(s, i) && s.ops[i].CopyOp?
  {
    if s.ops[i].cpc.CStart? then
      s.(ops := s.ops[i := s.ops[i].(cpc := CHeld)], readers := s.readers + {i})
    else
      s.(ops := s.ops[i := s.ops[i].(cpc := CDone)], readers := s.readers - {i})
  }

  function AdvanceOp(s: State, i: nat): State
    requires Ready(s, i)
  {
    match s.ops[i]
    case PlainOp(_, _, _) => AdvancePlain(s, i)
    case AtomicOp(_, _, _) => AdvanceAtomic(s, i)
    case CopyOp(_, _) => AdvanceCopy(s, i)
  }

  predicate Droppable(op: Op) {
    (op.PlainOp? && op.ppc.PLive?) || (op.AtomicOp? && op.apc.ALive?)
  }

  function Dropped(op: Op): Op
    requires Droppable(op)
  {
    if op.PlainOp? then op.(ppc := PDropStart(op.ppc.slot, false))
    else op.(apc := if op.apc.view.Some? then ADropStart(op.apc.view.value) else ADone(None))
  }

  predicate Enabled(s: State, step: Step) {
    match step
    case CallPlain(_, shard) => shard < |s.shards|
    case CallAtomic(_, _) => true
    case CallCopy(_) => true
    case Advance(i) => Ready(s, i)
    case Drop(i) => i < |s.ops| && Droppable(s.ops[i])
  }

  /** A step that is not enabled leaves the state alone: the thread waits. */
  function Apply(s: State, step: Step): State {
    if !Enabled(s, step) then s
    else
      match step
      case CallPlain(range, shard) => s.(ops := s.ops + [PlainOp(range, shard, PStart)])
      case CallAtomic(range, size) => s.(ops := s.ops + [AtomicOp(range, size, AStart)])
      case CallCopy(range) => s.(ops := s.ops + [CopyOp(range, CStart)])
      case Advance(i) => AdvanceOp(s, i)
      case Drop(i) => s.(ops := s.ops[i := Dropped(s.ops[i])])
  }

  /** The state after a whole schedule: every interleaving is one of these. */
  function Run(s: State, schedule: seq<Step>): State {
    if schedule == [] then s
    else Apply(Run(s, schedule[..|schedule| - 1]), schedule[|schedule| - 1])
  }
}
