/**
 What every step of the registry protocol keeps, and why a plain view
 and an atomic view of the same bytes never exist together.
 */
module RegistrySafety {
  import opened Ranges
  import opened Slabs
  import opened Registry

  // ----- what an operation holds, read off its program counter -----

  function ShardHeld(op: Op): Option<nat> {
    match op
    case PlainOp(_, k, pc) =>
      if pc.PInsert? || pc.PInserted? || pc.PRemove? || pc.PRemoved? then Some(k) else None
    case AtomicOp(_, _, pc) =>
      (match pc
       case AScanning(k) => Some(k)
       case AScanned(k, _) => Some(k)
       case _ => None)
    case CopyOp(_, _) => None
  }

  predicate HoldsRead(op: Op) {
    match op
    case PlainOp(_, _, pc) => pc.PCheck? || pc.PChecked?
    case AtomicOp(_, _, _) => false
    case CopyOp(_, pc) => pc.CHeld?
  }

  predicate HoldsWrite(op: Op) {
    op.AtomicOp? &&
    match op.apc
    case AStart => false
    case AWait => false
    case ALive(_) => false
    case ADropStart(_) => false
    case ADone(_) => false
    case _ => true
  }

  /** The operation's range sits in `slot` of shard `k`. */
  predicate Owns(op: Op, k: nat, slot: nat) {
    op.PlainOp? && op.shard == k &&
    match op.ppc
    case PInserted(x) => x == slot
    case PLoad(x) => x == slot
    case PWait(x) => x == slot
    case PCheck(x) => x == slot
    case PChecked(x, _) => x == slot
    case PLive(x) => x == slot
    case PDropStart(x, _) => x == slot
    case PRemove(x, _) => x == slot
    case _ => false
  }

  /** The atomic entry the operation has in the set. */
  function EntryOf(op: Op): Option<Entry> {
    if !op.AtomicOp? then None
    else
      match op.apc
      case ACommitted(id) => Some(Entry(op.range, op.size, id))
      case ALive(id) => if id.Some? then Some(Entry(op.range, op.size, id.value)) else None
      case ADropStart(id) => Some(Entry(op.range, op.size, id))
      case ARemove(id) => Some(Entry(op.range, op.size, id))
      case _ => None
  }

  /** The registration of this plain view has succeeded. */
  predicate Visible(op: Op) {
    op.PlainOp? && (op.ppc.PLive? || (op.ppc.PChecked? && !op.ppc.clash))
  }

  /** Between the counter increment and the push of the entry. */
  predicate Announced(op: Op) {
    op.AtomicOp? && (op.apc.AScan? || op.apc.AScanning? || op.apc.AScanned? || op.apc.ARollback?)
  }

  /** What the counter holds beyond the number of entries. */
  function Surplus(op: Op): nat {
    if Announced(op) || (op.AtomicOp? && op.apc.ARemoved?) then 1 else 0
  }

  /** Shards `0 .. ScannedUpTo` were found free of overlaps by this registrar. */
  function ScannedUpTo(op: Op): nat {
    if !op.AtomicOp? then 0
    else
      match op.apc
      case AScan(k) => k
      case AScanning(k) => k
      case AScanned(k, hit) => if hit then k else k + 1
      case _ => 0
  }

  predicate SizeChecked(op: Op) {
    op.AtomicOp? && (op.apc.AAnnounce? || Announced(op))
  }

  /** Shards exist, and only a view of some bytes gets as far as the locks. */
  predicate WellFormed(op: Op, n: nat) {
    match op
    case PlainOp(_, k, _) => k < n
    case AtomicOp(range, _, pc) =>
      && (pc.AScan? ==> pc.k <= n) && (pc.AScanning? || pc.AScanned? ==> pc.k < n)
      && (pc.AStart? || pc.ADone? || pc == ALive(None) || range.start != range.end)
    case CopyOp(_, _) => true
  }

  // ----- the invariant -----

  ghost predicate WriteLockInv(s: State) {
    && (s.writer.Some? ==> s.writer.value < |s.ops|)
    && (forall i :: 0 <= i < |s.ops| ==> (HoldsWrite(s.ops[i]) <==> s.writer == Some(i)))
  }

  ghost predicate ReadLockInv(s: State) {
    && (s.writer.Some? ==> s.readers == {})
    && (forall i :: 0 <= i < |s.ops| ==> (HoldsRead(s.ops[i]) <==> i in s.readers))
    && (forall i :: i in s.readers ==> i < |s.ops|)
  }

  ghost predicate ShardLockInv(s: State) {
    && (forall i :: 0 <= i < |s.ops| ==> WellFormed(s.ops[i], |s.shards|))
    && (forall i, k {:trigger s.ops[i], s.shards[k]} | 0 <= i < |s.ops| && 0 <= k < |s.shards| ::
          ShardHeld(s.ops[i]) == Some(k) <==> s.shards[k].holder == Some(i))
    && (forall k :: 0 <= k < |s.shards| && s.shards[k].holder.Some? ==> s.shards[k].holder.value < |s.ops|)
  }

  ghost predicate LockInv(s: State) {
    WriteLockInv(s) && ReadLockInv(s) && ShardLockInv(s)
  }

  ghost predicate Owned(s: State, k: nat, slot: nat) {
    exists i :: 0 <= i < |s.ops| && Owns(s.ops[i], k, slot)
  }

  /** The slabs hold exactly the ranges of the plain operations, one slot each. */
  ghost predicate SlotInv(s: State) {
    && (forall k :: 0 <= k < |s.shards| ==> s.shards[k].table.Valid())
    && (forall i, k, slot :: 0 <= i < |s.ops| && 0 <= k < |s.shards| && Owns(s.ops[i], k, slot) ==>
          s.shards[k].table.At(slot) == Some(s.ops[i].range))
    && (forall i, j, k, slot |
          0 <= i < |s.ops| && 0 <= j < |s.ops| && Owns(s.ops[i], k, slot) && Owns(s.ops[j], k, slot) ::
          i == j)
    && (forall k, slot: nat :: 0 <= k < |s.shards| && s.shards[k].table.At(slot).Some? ==> Owned(s, k, slot))
  }

  ghost predicate HasOwner(s: State, e: Entry) {
    exists i :: 0 <= i < |s.ops| && EntryOf(s.ops[i]) == Some(e)
  }

  /** The atomic set holds exactly the entries of the atomic operations. */
  ghost predicate EntryInv(s: State) {
    && (forall i :: 0 <= i < |s.ops| && EntryOf(s.ops[i]).Some? ==> EntryOf(s.ops[i]).value in s.entries)
    && (forall j :: 0 <= j < |s.entries| ==> HasOwner(s, s.entries[j]))
    && (forall j, k :: 0 <= j < k < |s.entries| ==> s.entries[j].id != s.entries[k].id)
    && (forall j :: 0 <= j < |s.entries| ==> s.entries[j].id < s.nextId)
    && (forall i, j :: 0 <= i < j < |s.ops| && EntryOf(s.ops[i]).Some? && EntryOf(s.ops[j]).Some? ==>
          EntryOf(s.ops[i]).value.id != EntryOf(s.ops[j]).value.id)
  }

  /** The counter is the number of entries, plus one in the writer's windows. */
  ghost predicate CountInv(s: State) {
    s.live == |s.entries| + (if s.writer.Some? && s.writer.value < |s.ops| then Surplus(s.ops[s.writer.value]) else 0)
  }

  /** No visible plain view overlaps an entry. */
  ghost predicate EntryExclusion(s: State) {
    forall i, j {:trigger s.ops[i], s.entries[j]} |
      0 <= i < |s.ops| && 0 <= j < |s.entries| && Visible(s.ops[i]) ::
      !Overlaps(s.entries[j].range, s.ops[i].range)
  }

  /** In the shards already scanned, no visible plain view overlaps the registrar. */
  ghost predicate ScanExclusion(s: State) {
    forall i, w |
      && 0 <= i < |s.ops| && 0 <= w < |s.ops|
      && Visible(s.ops[i]) && Announced(s.ops[w]) && s.ops[i].shard < ScannedUpTo(s.ops[w]) ::
      !Overlaps(s.ops[w].range, s.ops[i].range)
  }

  /** Overlapping entries have one element size. */
  ghost predicate SizeInv(s: State) {
    forall j, k |
      0 <= j < |s.entries| && 0 <= k < |s.entries| && Overlaps(s.entries[j].range, s.entries[k].range) ::
      s.entries[j].size == s.entries[k].size
  }

  /** A registrar past its size check agrees with every entry it overlaps. */
  ghost predicate AdmittedInv(s: State) {
    forall w, j {:trigger s.ops[w], s.entries[j]} |
      && 0 <= w < |s.ops| && SizeChecked(s.ops[w])
      && 0 <= j < |s.entries| && Overlaps(s.entries[j].range, s.ops[w].range) ::
      s.entries[j].size == s.ops[w].size
  }

  ghost predicate Inv(s: State) {
    && LockInv(s) && SlotInv(s) && EntryInv(s) && CountInv(s)
    && EntryExclusion(s) && ScanExclusion(s) && SizeInv(s) && AdmittedInv(s)
  }

  lemma StepKeepsWriteLock(s: State, i: nat)
    requires LockInv(s) && Ready(s, i)
    ensures WriteLockInv(AdvanceOp(s, i))
  {
  }

  lemma StepKeepsReadLock(s: State, i: nat)
    requires LockInv(s) && Ready(s, i)
    ensures ReadLockInv(AdvanceOp(s, i))
  {
  }

  /** Only operation `i` moved, and it is still about the same bytes. */
  ghost predicate MovesOnly(s: State, i: nat, s': State) {
    && i < |s.ops| == |s'.ops|
    && |s'.shards| == |s.shards|
    && (forall j :: 0 <= j < |s.ops| && j != i ==> s'.ops[j] == s.ops[j])
    && s'.ops[i].range == s.ops[i].range
    && s'.ops[i].PlainOp? == s.ops[i].PlainOp?
    && s'.ops[i].AtomicOp? == s.ops[i].AtomicOp?
    && (s.ops[i].PlainOp? ==> s'.ops[i].shard == s.ops[i].shard)
    && (s.ops[i].AtomicOp? ==> s'.ops[i].size == s.ops[i].size)
  }

  /** A step that moves one operation and only its own shard locks. */
  lemma ShardLocksFollow(s: State, i: nat, s': State)
    requires ShardLockInv(s) && i < |s.ops|
    requires MovesOnly(s, i, s') && WellFormed(s'.ops[i], |s.shards|)
    requires ShardHeld(s'.ops[i]).Some? && ShardHeld(s'.ops[i]) != ShardHeld(s.ops[i]) ==>
               s.shards[ShardHeld(s'.ops[i]).value].holder.None?
    requires forall k :: 0 <= k < |s.shards| ==>
               s'.shards[k].holder == if ShardHeld(s'.ops[i]) == Some(k) then Some(i)
                                      else if ShardHeld(s.ops[i]) == Some(k) then None
                                      else s.shards[k].holder
    ensures ShardLockInv(s')
  {
    forall j, k | 0 <= j < |s'.ops| && 0 <= k < |s'.shards|
      ensures ShardHeld(s'.ops[j]) == Some(k) <==> s'.shards[k].holder == Some(j)
    {
      assert ShardHeld(s.ops[j]) == Some(k) <==> s.shards[k].holder == Some(j);
      assert ShardHeld(s.ops[i]) == Some(k) <==> s.shards[k].holder == Some(i);
    }
  }

  lemma PlainStepKeepsShardLocks(s: State, i: nat)
    requires ShardLockInv(s) && Ready(s, i) && s.ops[i].PlainOp?
    ensures ShardLockInv(AdvancePlain(s, i))
  {
    var k := s.ops[i].shard;
    assert ShardHeld(s.ops[i]) == Some(k) <==> s.shards[k].holder == Some(i);
    ShardLocksFollow(s, i, AdvancePlain(s, i));
  }

  lemma AtomicStepKeepsShardLocks(s: State, i: nat)
    requires ShardLockInv(s) && Ready(s, i) && s.ops[i].AtomicOp?
    ensures ShardLockInv(AdvanceAtomic(s, i))
  {
    ShardLocksFollow(s, i, AdvanceAtomic(s, i));
  }

  lemma StepKeepsShardLocks(s: State, i: nat)
    requires LockInv(s) && Ready(s, i)
    ensures ShardLockInv(AdvanceOp(s, i))
  {
    match s.ops[i]
    case PlainOp(_, _, _) => PlainStepKeepsShardLocks(s, i);
    case AtomicOp(_, _, _) => AtomicStepKeepsShardLocks(s, i);
    case CopyOp(_, _) => ShardLocksFollow(s, i, AdvanceOp(s, i));
  }

  lemma RemoveKeepsCount(s: State, i: nat)
    requires EntryInv(s) && CountInv(s) && s.writer == Some(i) && Ready(s, i)
    requires s.ops[i].AtomicOp? && s.ops[i].apc.ARemove?
    ensures CountInv(AdvanceAtomic(s, i))
  {
    assert EntryOf(s.ops[i]).value in s.entries;
  }

  lemma AtomicStepKeepsCount(s: State, i: nat)
    requires WriteLockInv(s) && EntryInv(s) && CountInv(s) && Ready(s, i) && s.ops[i].AtomicOp?
    ensures CountInv(AdvanceAtomic(s, i))
  {
    assert HoldsWrite(s.ops[i]) <==> s.writer == Some(i);
    if s.ops[i].apc.ARemove? {
      RemoveKeepsCount(s, i);
    }
  }

  lemma StepKeepsCount(s: State, i: nat)
    requires LockInv(s) && EntryInv(s) && CountInv(s) && Ready(s, i)
    ensures CountInv(AdvanceOp(s, i))
  {
    if s.ops[i].AtomicOp? {
      AtomicStepKeepsCount(s, i);
    } else {
      assert s.writer != Some(i) by { assert !HoldsWrite(s.ops[i]); }
    }
  }

  // ----- slots -----

  lemma SlotsUnmoved(s: State, i: nat, s': State)
    requires SlotInv(s) && MovesOnly(s, i, s')
    requires forall k :: 0 <= k < |s.shards| ==> s'.shards[k].table == s.shards[k].table
    requires forall k, slot :: Owns(s'.ops[i], k, slot) == Owns(s.ops[i], k, slot)
    ensures SlotInv(s')
  {
    forall k, slot: nat | 0 <= k < |s'.shards| && s'.shards[k].table.At(slot).Some? ensures Owned(s', k, slot) {
      assert Owned(s, k, slot);
      var j :| 0 <= j < |s.ops| && Owns(s.ops[j], k, slot);
      assert Owns(s'.ops[j], k, slot);
    }
  }

  /** Only slot `slot` of shard `k` changes, and now holds what `now` says. */
  ghost predicate ChangesSlot(s: State, s': State, k: nat, slot: nat, now: Option<Range>) {
    && k < |s.shards| == |s'.shards|
    && (forall j :: 0 <= j < |s.shards| && j != k ==> s'.shards[j].table == s.shards[j].table)
    && s'.shards[k].table.Valid() && s'.shards[k].table.At(slot) == now
    && (forall x: nat :: x != slot ==> s'.shards[k].table.At(x) == s.shards[k].table.At(x))
  }

  lemma SlotTaken(s: State, i: nat, s': State, k: nat, slot: nat)
    requires SlotInv(s) && MovesOnly(s, i, s') && ChangesSlot(s, s', k, slot, Some(s.ops[i].range))
    requires s.shards[k].table.At(slot).None?
    requires forall j, x :: !Owns(s.ops[i], j, x)
    requires forall j, x :: Owns(s'.ops[i], j, x) <==> j == k && x == slot
    ensures SlotInv(s')
  {
    forall j, x: nat | 0 <= j < |s'.shards| && s'.shards[j].table.At(x).Some? ensures Owned(s', j, x) {
      if j == k && x == slot {
        assert Owns(s'.ops[i], k, slot);
      } else {
        assert Owned(s, j, x);
        var w :| 0 <= w < |s.ops| && Owns(s.ops[w], j, x);
        assert Owns(s'.ops[w], j, x);
      }
    }
  }

  lemma SlotFreed(s: State, i: nat, s': State, k: nat, slot: nat)
    requires SlotInv(s) && MovesOnly(s, i, s') && ChangesSlot(s, s', k, slot, None)
    requires forall j, x :: Owns(s.ops[i], j, x) <==> j == k && x == slot
    requires forall j, x :: !Owns(s'.ops[i], j, x)
    ensures SlotInv(s')
  {
    forall j, x: nat | 0 <= j < |s'.shards| && s'.shards[j].table.At(x).Some? ensures Owned(s', j, x) {
      assert Owned(s, j, x);
      var w :| 0 <= w < |s.ops| && Owns(s.ops[w], j, x);
      assert Owns(s'.ops[w], j, x);
    }
    assert Owns(s.ops[i], k, slot);
  }

  lemma InsertKeepsSlots(s: State, i: nat)
    requires SlotInv(s) && Ready(s, i) && s.ops[i].PlainOp? && s.ops[i].ppc.PInsert?
    ensures SlotInv(AdvanceOp(s, i))
  {
    var k, table := s.ops[i].shard, s.shards[s.ops[i].shard].table;
    InsertExtendsMap(table, s.ops[i].range);
    var slot := table.Insert(s.ops[i].range).1;
    assert table.At(slot).None?;
    SlotTaken(s, i, AdvanceOp(s, i), k, slot);
  }

  lemma RemoveKeepsSlots(s: State, i: nat)
    requires SlotInv(s) && Ready(s, i) && s.ops[i].PlainOp? && s.ops[i].ppc.PRemove?
    ensures SlotInv(AdvanceOp(s, i))
  {
    var k, slot := s.ops[i].shard, s.ops[i].ppc.slot;
    RemoveShrinksMap(s.shards[k].table, slot);
    SlotFreed(s, i, AdvanceOp(s, i), k, slot);
  }

  lemma StepKeepsSlots(s: State, i: nat)
    requires SlotInv(s) && Ready(s, i)
    ensures SlotInv(AdvanceOp(s, i))
  {
    var s', op := AdvanceOp(s, i), s.ops[i];
    if op.PlainOp? && op.ppc.PInsert? {
      InsertKeepsSlots(s, i);
    } else if op.PlainOp? && op.ppc.PRemove? {
      RemoveKeepsSlots(s, i);
    } else {
      SlotsUnmoved(s, i, s');
    }
  }

  // ----- entries -----

  lemma EntriesUnmoved(s: State, i: nat, s': State)
    requires EntryInv(s) && MovesOnly(s, i, s')
    requires s'.entries == s.entries && s'.nextId == s.nextId
    requires EntryOf(s'.ops[i]) == EntryOf(s.ops[i])
    ensures EntryInv(s')
  {
    forall j | 0 <= j < |s'.entries| ensures HasOwner(s', s'.entries[j]) {
      assert HasOwner(s, s.entries[j]);
      var w :| 0 <= w < |s.ops| && EntryOf(s.ops[w]) == Some(s.entries[j]);
      assert EntryOf(s'.ops[w]) == Some(s.entries[j]);
    }
  }

  lemma CommitKeepsEntries(s: State, i: nat)
    requires EntryInv(s) && Ready(s, i) && s.ops[i].AtomicOp? && s.ops[i].apc == AScan(|s.shards|)
    ensures EntryInv(AdvanceOp(s, i))
  {
    var s' := AdvanceOp(s, i);
    var e := Entry(s.ops[i].range, s.ops[i].size, s.nextId);
    assert EntryOf(s'.ops[i]) == Some(e);
    assert s'.entries[|s.entries|] == e;
    forall j | 0 <= j < |s'.entries| ensures HasOwner(s', s'.entries[j]) {
      if j < |s.entries| {
        assert HasOwner(s, s.entries[j]);
        var w :| 0 <= w < |s.ops| && EntryOf(s.ops[w]) == Some(s.entries[j]);
        assert EntryOf(s'.ops[w]) == Some(s.entries[j]);
      }
    }
    forall w | 0 <= w < |s'.ops| && EntryOf(s'.ops[w]).Some?
      ensures EntryOf(s'.ops[w]).value in s'.entries
    {
      if w != i {
        assert EntryOf(s.ops[w]).value in s.entries;
      }
    }
  }

  /** Swapping the last entry into the gap removes exactly the entry at `j`. */
  lemma SwapRemoveElements(entries: seq<Entry>, j: nat)
    requires j < |entries|
    requires forall a, b :: 0 <= a < b < |entries| ==> entries[a].id != entries[b].id
    ensures forall e :: e in SwapRemove(entries, j) <==> e in entries && e != entries[j]
    ensures forall a, b :: 0 <= a < b < |entries| - 1 ==> SwapRemove(entries, j)[a].id != SwapRemove(entries, j)[b].id
  {
    var rest, n := SwapRemove(entries, j), |entries| - 1;
    forall e | e in entries && e != entries[j] ensures e in rest {
      var a :| 0 <= a < |entries| && entries[a] == e;
      assert e == if a == n then rest[j] else rest[a];
    }
    forall e | e in rest ensures e in entries && e != entries[j] {
      var a :| 0 <= a < n && rest[a] == e;
      assert e == if a == j then entries[n] else entries[a];
    }
  }

  /** The entry of a view being dropped is found at some position. */
  lemma FindsEntry(s: State, i: nat)
    requires EntryInv(s) && Ready(s, i) && s.ops[i].AtomicOp? && s.ops[i].apc.ARemove?
    ensures var j := Position(s.entries, s.ops[i].apc.id);
            && j < |s.entries| && EntryOf(s.ops[i]) == Some(s.entries[j])
            && AdvanceOp(s, i) == AtA(s, i, ARemoved).(entries := SwapRemove(s.entries, j))
  {
    var e := EntryOf(s.ops[i]).value;
    assert e in s.entries;
    var a :| 0 <= a < |s.entries| && s.entries[a] == e;
    assert Position(s.entries, e.id) <= a;
  }

  lemma KeepsOwner(s: State, i: nat, s': State, e: Entry)
    requires EntryInv(s) && MovesOnly(s, i, s')
    requires e in s.entries && EntryOf(s.ops[i]) != Some(e)
    ensures HasOwner(s', e) && e.id < s.nextId
  {
    var y :| 0 <= y < |s.entries| && s.entries[y] == e;
    assert HasOwner(s, s.entries[y]);
    var w :| 0 <= w < |s.ops| && EntryOf(s.ops[w]) == Some(e);
    assert EntryOf(s'.ops[w]) == Some(e);
  }

  /** Operation `i` gives up its entry; every other operation keeps its own. */
  lemma OthersKeepEntries(s: State, i: nat, s': State, w: nat)
    requires EntryInv(s) && MovesOnly(s, i, s') && w < |s.ops|
    requires EntryOf(s.ops[i]).Some? && EntryOf(s'.ops[i]).None? && EntryOf(s'.ops[w]).Some?
    ensures w != i && EntryOf(s.ops[w]) == EntryOf(s'.ops[w])
    ensures EntryOf(s.ops[w]).value in s.entries && EntryOf(s.ops[w]) != EntryOf(s.ops[i])
  {
    if w < i {
      assert EntryOf(s.ops[w]).value.id != EntryOf(s.ops[i]).value.id;
    } else {
      assert w != i ==> EntryOf(s.ops[i]).value.id != EntryOf(s.ops[w]).value.id;
    }
  }

  lemma WithoutEntry(s: State, i: nat, s': State)
    requires EntryInv(s) && MovesOnly(s, i, s') && s'.nextId == s.nextId
    requires EntryOf(s.ops[i]).Some? && EntryOf(s'.ops[i]).None?
    requires forall e :: e in s'.entries <==> e in s.entries && e != EntryOf(s.ops[i]).value
    requires forall j, k :: 0 <= j < k < |s'.entries| ==> s'.entries[j].id != s'.entries[k].id
    ensures EntryInv(s')
  {
    forall x | 0 <= x < |s'.entries| ensures HasOwner(s', s'.entries[x]) && s'.entries[x].id < s'.nextId {
      assert s'.entries[x] in s'.entries;
      KeepsOwner(s, i, s', s'.entries[x]);
    }
    forall w | 0 <= w < |s'.ops| && EntryOf(s'.ops[w]).Some? ensures EntryOf(s'.ops[w]).value in s'.entries {
      OthersKeepEntries(s, i, s', w);
    }
    forall v, w | 0 <= v < w < |s'.ops| && EntryOf(s'.ops[v]).Some? && EntryOf(s'.ops[w]).Some?
      ensures EntryOf(s'.ops[v]).value.id != EntryOf(s'.ops[w]).value.id
    {
      OthersKeepEntries(s, i, s', v);
      OthersKeepEntries(s, i, s', w);
    }
  }

  lemma RemoveKeepsEntries(s: State, i: nat)
    requires EntryInv(s) && Ready(s, i) && s.ops[i].AtomicOp? && s.ops[i].apc.ARemove?
    ensures EntryInv(AdvanceOp(s, i))
  {
    FindsEntry(s, i);
    SwapRemoveElements(s.entries, Position(s.entries, s.ops[i].apc.id));
    WithoutEntry(s, i, AdvanceOp(s, i));
  }

  /** No other step touches the set of entries. */
  lemma OtherStepsKeepEntries(s: State, i: nat)
    requires Ready(s, i)
    requires s.ops[i].AtomicOp? ==> !s.ops[i].apc.ARemove? && (s.ops[i].apc.AScan? ==> s.ops[i].apc.k < |s.shards|)
    ensures var s' := AdvanceOp(s, i);
            && MovesOnly(s, i, s')
            && s'.entries == s.entries && s'.nextId == s.nextId
            && EntryOf(s'.ops[i]) == EntryOf(s.ops[i])
  {
  }

  lemma StepKeepsEntries(s: State, i: nat)
    requires ShardLockInv(s) && EntryInv(s) && Ready(s, i)
    ensures EntryInv(AdvanceOp(s, i))
  {
    var op := s.ops[i];
    if op.AtomicOp? && op.apc.AScan? && op.apc.k >= |s.shards| {
      CommitKeepsEntries(s, i);
    } else if op.AtomicOp? && op.apc.ARemove? {
      RemoveKeepsEntries(s, i);
    } else {
      OtherStepsKeepEntries(s, i);
      EntriesUnmoved(s, i, AdvanceOp(s, i));
    }
  }

  // ----- exclusion and element sizes -----

  lemma PlainKeepsEntryExclusion(s: State, i: nat)
    requires LockInv(s) && CountInv(s) && EntryExclusion(s) && Ready(s, i) && s.ops[i].PlainOp?
    ensures EntryExclusion(AdvanceOp(s, i))
  {
    var s' := AdvanceOp(s, i);
    assert s'.entries == s.entries;
    assert Visible(s'.ops[i]) ==> Visible(s.ops[i]) || !EntryClash(s.entries, s.ops[i].range);
  }

  /** What remains after a removal was there before. */
  lemma RemovalOnlyRemoves(s: State, i: nat, j: nat) returns (x: nat)
    requires EntryInv(s) && Ready(s, i) && s.ops[i].AtomicOp? && s.ops[i].apc.ARemove?
    requires j < |AdvanceAtomic(s, i).entries|
    ensures x < |s.entries| && s.entries[x] == AdvanceAtomic(s, i).entries[j]
  {
    FindsEntry(s, i);
    SwapRemoveElements(s.entries, Position(s.entries, s.ops[i].apc.id));
    var e := AdvanceAtomic(s, i).entries[j];
    assert e in AdvanceAtomic(s, i).entries;
    x :| 0 <= x < |s.entries| && s.entries[x] == e;
  }

  lemma AtomicKeepsEntryExclusion(s: State, i: nat)
    requires LockInv(s) && EntryInv(s) && EntryExclusion(s) && ScanExclusion(s)
    requires Ready(s, i) && s.ops[i].AtomicOp?
    ensures EntryExclusion(AdvanceOp(s, i))
  {
    var s', op := AdvanceAtomic(s, i), s.ops[i];
    forall v, j | 0 <= v < |s'.ops| && 0 <= j < |s'.entries| && Visible(s'.ops[v])
      ensures !Overlaps(s'.entries[j].range, s'.ops[v].range)
    {
      assert Visible(s.ops[v]) && WellFormed(s.ops[v], |s.shards|);
      if op.apc.ARemove? {
        var x := RemovalOnlyRemoves(s, i, j);
      }
    }
  }

  lemma StepKeepsEntryExclusion(s: State, i: nat)
    requires Inv(s) && Ready(s, i)
    ensures EntryExclusion(AdvanceOp(s, i))
  {
    if s.ops[i].PlainOp? {
      PlainKeepsEntryExclusion(s, i);
    } else if s.ops[i].AtomicOp? {
      AtomicKeepsEntryExclusion(s, i);
    }
  }

  /** A scan that finds nothing has seen every visible view of its shard. */
  lemma ScanSeesVisible(s: State, i: nat, v: nat)
    requires SlotInv(s) && ShardLockInv(s) && Ready(s, i) && s.ops[i].AtomicOp? && s.ops[i].apc.AScanning?
    requires v < |s.ops| && Visible(s.ops[v]) && s.ops[v].shard == s.ops[i].apc.k
    requires !s.shards[s.ops[i].apc.k].table.Clashes(s.ops[i].range)
    ensures !Overlaps(s.ops[i].range, s.ops[v].range)
  {
    var k, slot := s.ops[v].shard, s.ops[v].ppc.slot;
    assert Owns(s.ops[v], k, slot);
    assert s.shards[k].table.At(slot) == Some(s.ops[v].range);
    assert s.shards[k].table.entries[slot] == Some(s.ops[v].range);
  }

  /** A plain view becomes visible only while no registrar is announced. */
  lemma PlainKeepsScanExclusion(s: State, i: nat)
    requires WriteLockInv(s) && ReadLockInv(s) && CountInv(s) && ScanExclusion(s) && Ready(s, i) && s.ops[i].PlainOp?
    ensures ScanExclusion(AdvancePlain(s, i))
  {
    var s' := AdvancePlain(s, i);
    forall v, w |
      && 0 <= v < |s'.ops| && 0 <= w < |s'.ops|
      && Visible(s'.ops[v]) && Announced(s'.ops[w]) && s'.ops[v].shard < ScannedUpTo(s'.ops[w])
      ensures !Overlaps(s'.ops[w].range, s'.ops[v].range)
    {
      assert w != i && s'.ops[w] == s.ops[w] && HoldsWrite(s.ops[w]);
    }
  }

  /** A registrar passes a shard only when its scan found nothing there. */
  lemma AtomicKeepsScanExclusion(s: State, i: nat)
    requires SlotInv(s) && ShardLockInv(s) && ScanExclusion(s) && Ready(s, i) && s.ops[i].AtomicOp?
    ensures ScanExclusion(AdvanceAtomic(s, i))
  {
    var s' := AdvanceAtomic(s, i);
    forall v, w |
      && 0 <= v < |s'.ops| && 0 <= w < |s'.ops|
      && Visible(s'.ops[v]) && Announced(s'.ops[w]) && s'.ops[v].shard < ScannedUpTo(s'.ops[w])
      ensures !Overlaps(s'.ops[w].range, s'.ops[v].range)
    {
      assert s'.ops[v] == s.ops[v];
      if w == i && s.ops[i].apc.AScanning? && s.ops[v].shard == s.ops[i].apc.k {
        ScanSeesVisible(s, i, v);
      }
    }
  }

  lemma StepKeepsScanExclusion(s: State, i: nat)
    requires Inv(s) && Ready(s, i)
    ensures ScanExclusion(AdvanceOp(s, i))
  {
    match s.ops[i]
    case PlainOp(_, _, _) => PlainKeepsScanExclusion(s, i);
    case AtomicOp(_, _, _) => AtomicKeepsScanExclusion(s, i);
    case CopyOp(_, _) =>
  }

  lemma CommitKeepsSizes(s: State, i: nat)
    requires SizeInv(s) && AdmittedInv(s) && Ready(s, i)
    requires s.ops[i].AtomicOp? && s.ops[i].apc.AScan? && s.ops[i].apc.k >= |s.shards|
    ensures SizeInv(AdvanceOp(s, i))
  {
    var s', op := AdvanceOp(s, i), s.ops[i];
    assert s'.entries == s.entries + [Entry(op.range, op.size, s.nextId)];
    assert SizeChecked(op);
  }

  lemma SubsetKeepsSizes(s: State, s': State)
    requires SizeInv(s) && (forall e :: e in s'.entries ==> e in s.entries)
    ensures SizeInv(s')
  {
    forall j, k |
      0 <= j < |s'.entries| && 0 <= k < |s'.entries| && Overlaps(s'.entries[j].range, s'.entries[k].range)
      ensures s'.entries[j].size == s'.entries[k].size
    {
      assert s'.entries[j] in s'.entries && s'.entries[k] in s'.entries;
      var a :| 0 <= a < |s.entries| && s.entries[a] == s'.entries[j];
      var b :| 0 <= b < |s.entries| && s.entries[b] == s'.entries[k];
    }
  }

  lemma StepKeepsSizes(s: State, i: nat)
    requires SizeInv(s) && AdmittedInv(s) && EntryInv(s) && Ready(s, i)
    ensures SizeInv(AdvanceOp(s, i))
  {
    var op := s.ops[i];
    if op.AtomicOp? && op.apc.AScan? && op.apc.k >= |s.shards| {
      CommitKeepsSizes(s, i);
    } else {
      if op.AtomicOp? && op.apc.ARemove? {
        FindsEntry(s, i);
        SwapRemoveElements(s.entries, Position(s.entries, op.apc.id));
      }
      SubsetKeepsSizes(s, AdvanceOp(s, i));
    }
  }

  lemma AdmittedUnmoved(s: State, i: nat, s': State)
    requires AdmittedInv(s) && MovesOnly(s, i, s') && s'.entries == s.entries
    requires SizeChecked(s'.ops[i]) ==> SizeChecked(s.ops[i])
    ensures AdmittedInv(s')
  {
    forall w, j | 0 <= w < |s'.ops| && SizeChecked(s'.ops[w]) && 0 <= j < |s'.entries|
      ensures Overlaps(s'.entries[j].range, s'.ops[w].range) ==> s'.entries[j].size == s'.ops[w].size
    {
      assert SizeChecked(s.ops[w]);
      assert s.entries[j] == s'.entries[j];
    }
  }

  /** A write-lock holder is alone past the size check, before and after its step. */
  lemma WriterAlone(s: State, i: nat, s': State, w: nat)
    requires WriteLockInv(s) && MovesOnly(s, i, s') && HoldsWrite(s.ops[i])
    requires w < |s.ops| && w != i
    ensures !SizeChecked(s'.ops[w])
  {
    assert !HoldsWrite(s.ops[w]);
  }

  lemma CheckAdmits(s: State, i: nat)
    requires WriteLockInv(s) && Ready(s, i) && s.ops[i].AtomicOp? && s.ops[i].apc.AMixed?
    ensures AdmittedInv(AdvanceOp(s, i))
  {
    var s' := AdvanceOp(s, i);
    forall w, j |
      && 0 <= w < |s'.ops| && SizeChecked(s'.ops[w])
      && 0 <= j < |s'.entries| && Overlaps(s'.entries[j].range, s'.ops[w].range)
      ensures s'.entries[j].size == s'.ops[w].size
    {
      if w != i {
        WriterAlone(s, i, s', w);
      }
    }
  }

  lemma StepKeepsAdmitted(s: State, i: nat)
    requires LockInv(s) && AdmittedInv(s) && Ready(s, i)
    ensures AdmittedInv(AdvanceOp(s, i))
  {
    var s', op := AdvanceOp(s, i), s.ops[i];
    if op.AtomicOp? && op.apc.AMixed? {
      CheckAdmits(s, i);
    } else if op.AtomicOp? && (op.apc.ARemove? || (op.apc.AScan? && op.apc.k >= |s.shards|)) {
      forall w | 0 <= w < |s'.ops| ensures !SizeChecked(s'.ops[w]) {
        if w != i {
          WriterAlone(s, i, s', w);
        }
      }
    } else {
      AdmittedUnmoved(s, i, s');
    }
  }

  // ----- new calls and drops -----

  /** The operation holds no lock, no slot and no entry, and is not visible. */
  ghost predicate Idle(op: Op) {
    && ShardHeld(op).None? && !HoldsRead(op) && !HoldsWrite(op) && EntryOf(op).None? && !Visible(op)
    && (forall k, slot :: !Owns(op, k, slot))
  }

  /** `s'` is `s` with one more operation, which holds nothing yet. */
  ghost predicate Calls(s: State, op: Op, s': State) {
    Idle(op) && WellFormed(op, |s.shards|) && s' == s.(ops := s.ops + [op])
  }

  lemma CallKeepsLocks(s: State, op: Op, s': State)
    requires LockInv(s) && Calls(s, op, s')
    ensures LockInv(s')
  {
    forall j, k | 0 <= j < |s'.ops| && 0 <= k < |s'.shards|
      ensures ShardHeld(s'.ops[j]) == Some(k) <==> s'.shards[k].holder == Some(j)
    {
      if j < |s.ops| {
        assert ShardHeld(s.ops[j]) == Some(k) <==> s.shards[k].holder == Some(j);
      }
    }
  }

  lemma CallKeepsSlots(s: State, op: Op, s': State)
    requires SlotInv(s) && Calls(s, op, s')
    ensures SlotInv(s')
  {
    forall k, slot: nat | 0 <= k < |s'.shards| && s'.shards[k].table.At(slot).Some? ensures Owned(s', k, slot) {
      assert Owned(s, k, slot);
      var j :| 0 <= j < |s.ops| && Owns(s.ops[j], k, slot);
      assert Owns(s'.ops[j], k, slot);
    }
  }

  lemma CallKeepsEntries(s: State, op: Op, s': State)
    requires EntryInv(s) && Calls(s, op, s')
    ensures EntryInv(s')
  {
    forall j | 0 <= j < |s'.entries| ensures HasOwner(s', s'.entries[j]) {
      assert HasOwner(s, s.entries[j]);
      var w :| 0 <= w < |s.ops| && EntryOf(s.ops[w]) == Some(s.entries[j]);
      assert EntryOf(s'.ops[w]) == Some(s.entries[j]);
    }
  }

  lemma CallKeepsCount(s: State, op: Op, s': State)
    requires WriteLockInv(s) && CountInv(s) && Calls(s, op, s')
    ensures CountInv(s')
  {
  }

  lemma CallKeepsAdmitted(s: State, op: Op, s': State)
    requires SizeInv(s) && AdmittedInv(s) && Calls(s, op, s')
    ensures SizeInv(s') && AdmittedInv(s')
  {
    assert !SizeChecked(op);
  }

  lemma CallKeepsExclusion(s: State, op: Op, s': State)
    requires EntryExclusion(s) && ScanExclusion(s) && Calls(s, op, s')
    ensures EntryExclusion(s') && ScanExclusion(s')
  {
  }

  lemma CallKeepsInv(s: State, op: Op, s': State)
    requires Inv(s) && Calls(s, op, s')
    ensures Inv(s')
  {
    CallKeepsLocks(s, op, s');
    CallKeepsSlots(s, op, s');
    CallKeepsEntries(s, op, s');
    CallKeepsCount(s, op, s');
    CallKeepsAdmitted(s, op, s');
    CallKeepsExclusion(s, op, s');
  }

  lemma DropKeepsShardLocks(s: State, i: nat)
    requires ShardLockInv(s) && Enabled(s, Drop(i))
    ensures ShardLockInv(Apply(s, Drop(i)))
  {
    ShardLocksFollow(s, i, Apply(s, Drop(i)));
  }

  lemma DropKeepsLocks(s: State, i: nat)
    requires LockInv(s) && Enabled(s, Drop(i))
    ensures LockInv(Apply(s, Drop(i)))
  {
    DropKeepsShardLocks(s, i);
  }

  lemma DropKeepsExclusion(s: State, i: nat)
    requires Inv(s) && Enabled(s, Drop(i))
    ensures var s' := Apply(s, Drop(i));
            CountInv(s') && EntryExclusion(s') && ScanExclusion(s') && SizeInv(s') && AdmittedInv(s')
  {
    AdmittedUnmoved(s, i, Apply(s, Drop(i)));
  }

  lemma DropKeepsInv(s: State, i: nat)
    requires Inv(s) && Enabled(s, Drop(i))
    ensures Inv(Apply(s, Drop(i)))
  {
    DropKeepsLocks(s, i);
    SlotsUnmoved(s, i, Apply(s, Drop(i)));
    EntriesUnmoved(s, i, Apply(s, Drop(i)));
    DropKeepsExclusion(s, i);
  }

  lemma StepKeepsInv(s: State, step: Step)
    requires Inv(s)
    ensures Inv(Apply(s, step))
  {
    if Enabled(s, step) {
      match step
      case CallPlain(range, shard) => CallKeepsInv(s, PlainOp(range, shard, PStart), Apply(s, step));
      case CallAtomic(range, size) => CallKeepsInv(s, AtomicOp(range, size, AStart), Apply(s, step));
      case CallCopy(range) => CallKeepsInv(s, CopyOp(range, CStart), Apply(s, step));
      case Drop(i) => DropKeepsInv(s, i);
      case Advance(i) =>
        StepKeepsWriteLock(s, i);
        StepKeepsReadLock(s, i);
        StepKeepsShardLocks(s, i);
        StepKeepsSlots(s, i);
        StepKeepsEntries(s, i);
        StepKeepsCount(s, i);
        StepKeepsEntryExclusion(s, i);
        StepKeepsScanExclusion(s, i);
        StepKeepsSizes(s, i);
        StepKeepsAdmitted(s, i);
    }
  }

  lemma {:induction false} RunKeepsInv(shards: nat, schedule: seq<Step>)
    ensures Inv(Run(Init(shards), schedule))
  {
    if schedule != [] {
      var before := schedule[..|schedule| - 1];
      RunKeepsInv(shards, before);
      StepKeepsInv(Run(Init(shards), before), schedule[|schedule| - 1]);
    }
  }

  /** Every entry is some operation's. */
  lemma EntryHasOp(s: State, e: Entry) returns (j: nat)
    requires EntryInv(s) && e in s.entries
    ensures j < |s.ops| && EntryOf(s.ops[j]) == Some(e)
  {
    var x :| 0 <= x < |s.entries| && s.entries[x] == e;
    assert HasOwner(s, s.entries[x]);
    j :| 0 <= j < |s.ops| && EntryOf(s.ops[j]) == Some(e);
  }

  // ----- what the protocol promises -----

  /** The caller holds a plain view. */
  predicate LivePlain(op: Op) {
    op.PlainOp? && op.ppc.PLive?
  }

  /** The caller holds an atomic view of at least one byte. */
  predicate LiveAtomic(op: Op) {
    op.AtomicOp? && op.apc.ALive? && op.apc.view.Some?
  }

  /**
   In no reachable state, under any interleaving of any number of
   registrations, drops and copies over any number of shards, do a live
   plain view and a live atomic view share a byte.
   */
  lemma PlainAndAtomicNeverShareByte(shards: nat, schedule: seq<Step>, p: nat, a: nat, x: nat)
    requires var s := Run(Init(shards), schedule);
             p < |s.ops| && a < |s.ops| && LivePlain(s.ops[p]) && LiveAtomic(s.ops[a])
    ensures var s := Run(Init(shards), schedule);
            !(Covers(s.ops[p].range, x) && Covers(s.ops[a].range, x))
  {
    var s := Run(Init(shards), schedule);
    RunKeepsInv(shards, schedule);
    var e := EntryOf(s.ops[a]).value;
    assert e in s.entries;
    var j :| 0 <= j < |s.entries| && s.entries[j] == e;
    assert !Overlaps(s.entries[j].range, s.ops[p].range);
  }

  /** Two live atomic views of different element size never share a byte. */
  lemma MixedSizesNeverShareByte(shards: nat, schedule: seq<Step>, a: nat, b: nat, x: nat)
    requires var s := Run(Init(shards), schedule);
             a < |s.ops| && b < |s.ops| && LiveAtomic(s.ops[a]) && LiveAtomic(s.ops[b])
             && Covers(s.ops[a].range, x) && Covers(s.ops[b].range, x)
    ensures var s := Run(Init(shards), schedule);
            s.ops[a].size == s.ops[b].size
  {
    var s := Run(Init(shards), schedule);
    RunKeepsInv(shards, schedule);
    var e, f := EntryOf(s.ops[a]).value, EntryOf(s.ops[b]).value;
    assert e in s.entries && f in s.entries;
    var j :| 0 <= j < |s.entries| && s.entries[j] == e;
    var k :| 0 <= k < |s.entries| && s.entries[k] == f;
    assert Overlaps(s.entries[j].range, s.entries[k].range);
  }

  /**
   The counter is never below the number of entries, equals it whenever
   the atomic set is not write-locked, and every entry is one operation's.
   */
  lemma CounterTracksEntries(shards: nat, schedule: seq<Step>)
    ensures var s := Run(Init(shards), schedule);
            && |s.entries| <= s.live <= |s.entries| + 1
            && (s.writer.None? ==> s.live == |s.entries|)
            && (forall e :: e in s.entries <==> HasOwner(s, e))
  {
    RunKeepsInv(shards, schedule);
    var s := Run(Init(shards), schedule);
    forall e | HasOwner(s, e) ensures e in s.entries {
      var i :| 0 <= i < |s.ops| && EntryOf(s.ops[i]) == Some(e);
      assert EntryOf(s.ops[i]).value in s.entries;
    }
  }
}
