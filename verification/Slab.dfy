/**
 The table of live plain views of one shard: slots with a free list
 (`src/views.rs`, `Slab`).
 */
module Slabs {
  import opened Ranges

  function Max(a: nat, b: nat): nat {
    if a < b then b else a
  }

  /** The contents of a slab as a value. */
  datatype Table = Table(entries: seq<Option<Range>>, free: seq<nat>) {

    /** The free list is exactly the empty slots, each listed once. */
    ghost predicate Valid() {
      && (forall k :: 0 <= k < |free| ==> free[k] < |entries| && entries[free[k]].None?)
      && (forall j, k :: 0 <= j < k < |free| ==> free[j] != free[k])
      && (forall x :: 0 <= x < |entries| && entries[x].None? ==> x in free)
    }

    function At(slot: nat): Option<Range> {
      if slot < |entries| then entries[slot] else None
    }

    /** The finite map from slots to ranges that the table stands for. */
    ghost function Live(): map<nat, Range> {
      map slot | 0 <= slot < |entries| && At(slot).Some? :: At(slot).value
    }

    function Insert(range: Range): (Table, nat) {
      if |free| > 0 && free[|free| - 1] < |entries| then
        var slot := free[|free| - 1];
        (Table(entries[slot := Some(range)], free[..|free| - 1]), slot)
      else
        (Table(entries + [Some(range)], free), |entries|)
    }

    function Remove(slot: nat): Table {
      if slot < |entries| && entries[slot].Some? then
        Table(entries[slot := None], free + [slot])
      else
        this
    }

    predicate Clashes(range: Range) {
      exists slot :: 0 <= slot < |entries| && entries[slot].Some? && Overlaps(entries[slot].value, range)
    }
  }

  const EMPTY := Table([], [])

  /** What a slot holds is what the map says of it. */
  lemma LiveFollows(t: Table, t': Table, slot: nat, now: Option<Range>)
    requires (forall x: nat :: x != slot ==> t'.At(x) == t.At(x)) && t'.At(slot) == now
    ensures t'.Live() == if now.Some? then t.Live()[slot := now.value] else t.Live() - {slot}
  {
    forall x: nat ensures x in t'.Live() <==> x < |t'.entries| && t'.At(x).Some? {
    }
    assert t'.Live().Keys == if now.Some? then t.Live().Keys + {slot} else t.Live().Keys - {slot};
  }

  lemma InsertKeepsFree(t: Table, range: Range)
    requires t.Valid()
    ensures t.Insert(range).0.Valid() && t.At(t.Insert(range).1).None?
  {
    var (t', slot) := t.Insert(range);
    if |t.free| > 0 {
      assert t.free[|t.free| - 1] == slot;
      forall x | 0 <= x < |t'.entries| && t'.entries[x].None? ensures x in t'.free {
        assert x in t.free;
      }
    }
  }

  /** Insertion picks a slot that holds no view and changes no other slot. */
  lemma InsertExtendsMap(t: Table, range: Range)
    requires t.Valid()
    ensures var (t', slot) := t.Insert(range);
            && t'.Valid()
            && slot !in t.Live()
            && t'.Live() == t.Live()[slot := range]
            && t'.At(slot) == Some(range)
            && (forall x: nat :: x != slot ==> t'.At(x) == t.At(x))
  {
    InsertKeepsFree(t, range);
    var (t', slot) := t.Insert(range);
    LiveFollows(t, t', slot, Some(range));
  }

  lemma RemoveKeepsFree(t: Table, slot: nat)
    requires t.Valid()
    ensures t.Remove(slot).Valid()
  {
    var t' := t.Remove(slot);
    if t.At(slot).Some? {
      assert t'.free[|t.free|] == slot;
      forall x | 0 <= x < |t'.entries| && t'.entries[x].None? ensures x in t'.free {
        if x != slot {
          assert x in t.free;
          var k :| 0 <= k < |t.free| && t.free[k] == x;
          assert t'.free[k] == x;
        }
      }
    }
  }

  /** Removal empties exactly one slot; removing an empty slot changes nothing. */
  lemma RemoveShrinksMap(t: Table, slot: nat)
    requires t.Valid()
    ensures var t' := t.Remove(slot);
            && t'.Valid()
            && t'.Live() == t.Live() - {slot}
            && t'.At(slot) == None
            && (forall x: nat :: x != slot ==> t'.At(x) == t.At(x))
            && t'.Remove(slot) == t'
  {
    RemoveKeepsFree(t, slot);
    LiveFollows(t, t.Remove(slot), slot, None);
  }

  /** The scan answers the question "does any live range overlap?". */
  lemma ClashesIffLiveOverlap(t: Table, range: Range)
    ensures t.Clashes(range) <==> exists slot :: slot in t.Live() && Overlaps(t.Live()[slot], range)
  {
    if t.Clashes(range) {
      var slot :| 0 <= slot < |t.entries| && t.entries[slot].Some? && Overlaps(t.entries[slot].value, range);
      assert slot in t.Live() && Overlaps(t.Live()[slot], range);
    }
  }

  // ----- how large the table grows -----

  datatype Action = Insert(range: Range) | Remove(slot: nat)

  function Do(t: Table, a: Action): Table {
    match a
    case Insert(range) => t.Insert(range).0
    case Remove(slot) => t.Remove(slot)
  }

  function DoAll(actions: seq<Action>): Table {
    if actions == [] then EMPTY else Do(DoAll(actions[..|actions| - 1]), actions[|actions| - 1])
  }

  /** The largest number of views alive at once at any point of the history. */
  ghost function Peak(actions: seq<Action>): nat {
    if actions == [] then 0
    else Max(Peak(actions[..|actions| - 1]), |DoAll(actions).Live()|)
  }

  /** The slots below `n`. */
  ghost function Slots(n: nat): (r: set<nat>)
    ensures forall x: nat :: x in r <==> x < n
    ensures |r| == n
  {
    if n == 0 then {} else Slots(n - 1) + {n - 1}
  }

  ghost function Elements(s: seq<nat>): (r: set<nat>)
    requires forall j, k :: 0 <= j < k < |s| ==> s[j] != s[k]
    ensures forall x: nat :: x in r <==> x in s
    ensures |r| == |s|
  {
    if s == [] then {}
    else
      assert s[|s| - 1] !in s[..|s| - 1];
      assert s == s[..|s| - 1] + [s[|s| - 1]];
      Elements(s[..|s| - 1]) + {s[|s| - 1]}
  }

  /** Every slot is either live or free. */
  lemma LiveOrFree(t: Table, x: nat)
    requires t.Valid()
    ensures x in t.Live() <==> x < |t.entries| && x !in t.free
  {
    if x in t.free {
      var k :| 0 <= k < |t.free| && t.free[k] == x;
    }
  }

  lemma PartsAddUp(whole: set<nat>, a: set<nat>, b: set<nat>)
    requires forall x: nat :: x in a <==> x in whole && x !in b
    requires forall x: nat :: x in b ==> x in whole
    ensures |a| + |b| == |whole|
  {
    assert whole == a + b;
    assert a !! b;
  }

  /** Live slots and free slots together are all the slots. */
  lemma LivePlusFree(t: Table)
    requires t.Valid()
    ensures |t.Live()| + |t.free| == |t.entries|
  {
    var live := t.Live();
    forall x: nat ensures x in live.Keys <==> x in Slots(|t.entries|) && x !in Elements(t.free) {
      LiveOrFree(t, x);
    }
    PartsAddUp(Slots(|t.entries|), live.Keys, Elements(t.free));
    assert |live| == |live.Keys|;
  }

  /**
   Over any history of insertions and removals from an empty slab, the
   table is exactly as long as the largest number of views that were ever
   alive together: slots are reused before the table grows.
   */
  lemma {:induction false} LengthIsPeak(actions: seq<Action>)
    ensures DoAll(actions).Valid()
    ensures |DoAll(actions).entries| == Peak(actions)
  {
    if actions != [] {
      var before, last := actions[..|actions| - 1], actions[|actions| - 1];
      LengthIsPeak(before);
      var t := DoAll(before);
      LivePlusFree(t);
      match last
      case Insert(range) =>
        InsertExtendsMap(t, range);
        LivePlusFree(t.Insert(range).0);
      case Remove(slot) =>
        RemoveShrinksMap(t, slot);
        LivePlusFree(t.Remove(slot));
    }
  }

  /** A shard's slab, changed in place. */
  class Slab {
    var entries: seq<Option<Range>>
    var free: seq<nat>

    ghost function Contents(): Table
      reads this
    {
      Table(entries, free)
    }

    constructor ()
      ensures Contents() == EMPTY
    {
      entries, free := [], [];
    }

    method Insert(range: Range) returns (slot: nat)
      requires Contents().Valid()
      modifies this
      ensures (Contents(), slot) == old(Contents()).Insert(range)
      ensures slot !in old(Contents().Live())
      ensures Contents().Valid() && Contents().Live() == old(Contents().Live())[slot := range]
    {
      InsertExtendsMap(Contents(), range);
      if |free| > 0 {
        slot := free[|free| - 1];
        free := free[..|free| - 1];
        entries := entries[slot := Some(range)];
      } else {
        entries := entries + [Some(range)];
        slot := |entries| - 1;
      }
    }

    method Remove(slot: nat)
      requires Contents().Valid()
      modifies this
      ensures Contents() == old(Contents()).Remove(slot)
      ensures Contents().Valid() && Contents().Live() == old(Contents().Live()) - {slot}
    {
      RemoveShrinksMap(Contents(), slot);
      if slot < |entries| {
        var taken := entries[slot];
        entries := entries[slot := None];
        if taken.Some? {
          free := free + [slot];
        }
      }
    }

    method AnyOverlap(range: Range) returns (hit: bool)
      ensures hit <==> exists slot :: slot in Contents().Live() && Overlaps(Contents().Live()[slot], range)
      ensures hit <==> Contents().Clashes(range)
    {
      ClashesIffLiveOverlap(Contents(), range);
      var i := 0;
      while i < |entries|
        invariant 0 <= i <= |entries|
        invariant forall k :: 0 <= k < i && entries[k].Some? ==> !Overlaps(entries[k].value, range)
      {
        if entries[i].Some? && Overlaps(entries[i].value, range) {
          return true;
        }
        i := i + 1;
      }
      return false;
    }
  }
}
