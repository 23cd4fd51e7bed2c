/** `align_up` (`src/utils.rs`): the least multiple that is not below a value. */
module Alignment {
  import opened Ranges
  import opened Bounds
  import opened Bits
  import opened Multiples

  /** The fast path, for powers of two: add the mask, clear the low bits of the word. */
  function MaskPath(value: U64, alignment: U64, bits: nat): Option<nat>
    requires alignment > 0
  {
    var sum := CheckedAdd(value, alignment - 1);
    if sum.Some? then Some(And(sum.value, Not(alignment - 1, bits))) else None
  }

  /** The general path. */
  function DivisionPath(value: U64, alignment: U64): Option<nat>
    requires alignment > 0
  {
    CheckedMul(DivCeil(value, alignment), alignment)
  }

  function AlignUp(value: U64, alignment: U64): nat {
    if alignment == 0 then value
    else
      var aligned := if IsPowerOfTwo(alignment) then MaskPath(value, alignment, 64)
                     else DivisionPath(value, alignment);
      if aligned.Some? then aligned.value else U64_MAX
  }

  // ----- the least multiple, in unbounded arithmetic -----

  ghost predicate IsLeastMultiple(m: nat, value: nat, a: nat)
    requires a > 0
  {
    && m % a == 0 && value <= m
    && forall k: nat :: value <= k && k % a == 0 ==> m <= k
  }

  /** A multiple less than one step above the value is the least one. */
  lemma LeastIsWithinOneStep(m: nat, value: nat, a: nat)
    requires a > 0 && m % a == 0 && value <= m < value + a
    ensures IsLeastMultiple(m, value, a)
  {
    forall k: nat | value <= k && k % a == 0 ensures m <= k {
      if k < m {
        NextMultiple(k, m, a);
      }
    }
  }

  function Ceiling(value: nat, a: nat): int
    requires a > 0
  {
    DivCeil(value, a) * a
  }

  lemma CeilingIsLeastMultiple(value: nat, a: nat)
    requires a > 0
    ensures Ceiling(value, a) >= 0
    ensures IsLeastMultiple(Ceiling(value, a), value, a) && Ceiling(value, a) < value + a
  {
    var q, r := value / a, value % a;
    assert value == q * a + r;
    var n := DivCeil(value, a);
    assert n * a == if r == 0 then q * a else q * a + a;
    ProductNonNegative(q, a);
    DivModUnique(n * a, n, 0, a);
    LeastIsWithinOneStep(n * a, value, a);
  }

  /** Least multiples are unique. */
  lemma LeastMultipleUnique(m: nat, n: nat, value: nat, a: nat)
    requires a > 0 && IsLeastMultiple(m, value, a) && IsLeastMultiple(n, value, a)
    ensures m == n
  {
  }

  /** A power of two below `2^64` divides `2^64`. */
  lemma DividesLimit(a: U64)
    requires IsPowerOfTwo(a)
    ensures U64_LIMIT % a == 0
  {
    Pow2Of64();
    Pow2IsPowerOfTwo(64);
    SmallerDivides(a, U64_LIMIT);
  }

  /** Rounding down the sum rounds the value up. */
  lemma RoundsUp(value: nat, a: nat)
    requires a > 0
    ensures var sum := value + (a - 1);
            sum % a <= sum && (sum - sum % a) % a == 0 && IsLeastMultiple(sum - sum % a, value, a)
  {
    var sum := value + (a - 1);
    FloorMultiple(sum, a);
    LeastIsWithinOneStep(sum - sum % a, value, a);
  }

  /** Rounding up by division and by rounding down the sum is the same. */
  lemma CeilingIsFlooredSum(value: nat, a: nat)
    requires a > 0
    ensures var sum := value + (a - 1); Ceiling(value, a) == sum - sum % a
  {
    var sum := value + (a - 1);
    RoundsUp(value, a);
    CeilingIsLeastMultiple(value, a);
    LeastMultipleUnique(Ceiling(value, a), sum - sum % a, value, a);
  }

  lemma MaskClearsSum(value: U64, a: U64, bits: nat)
    requires IsPowerOfTwo(a) && value + (a - 1) < U64_LIMIT == Pow2(bits)
    ensures var sum := value + (a - 1); MaskPath(value, a, bits) == Some(sum - sum % a)
  {
    ClearLowBits(value + (a - 1), a, bits);
  }

  lemma PathsAgreeBelowLimit(value: U64, a: U64, bits: nat)
    requires IsPowerOfTwo(a) && value + (a - 1) < U64_LIMIT == Pow2(bits)
    ensures MaskPath(value, a, bits) == Some(Ceiling(value, a)) && 0 <= Ceiling(value, a) < U64_LIMIT
  {
    var sum := value + (a - 1);
    CeilingIsFlooredSum(value, a);
    MaskClearsSum(value, a, bits);
    RoundsUp(value, a);
  }

  /** The multiple of a power of two does not fit exactly if the sum does not. */
  lemma CeilingOverflows(value: U64, a: U64)
    requires IsPowerOfTwo(a) && value + (a - 1) >= U64_LIMIT
    ensures Ceiling(value, a) >= U64_LIMIT
  {
    CeilingIsLeastMultiple(value, a);
    DividesLimit(a);
    if Ceiling(value, a) < U64_LIMIT {
      NextMultiple(Ceiling(value, a), U64_LIMIT, a);
    }
  }

  /**
   On every power of two the mask path gives the answer of the division
   path, overflow included: the sum overflows exactly if the multiple does,
   because the alignment divides `2^64`.
   */
  lemma PathsAgree(value: U64, a: U64, bits: nat)
    requires IsPowerOfTwo(a) && Pow2(bits) == U64_LIMIT
    ensures MaskPath(value, a, bits) == DivisionPath(value, a)
  {
    if value + (a - 1) < U64_LIMIT {
      PathsAgreeBelowLimit(value, a, bits);
    } else {
      CeilingOverflows(value, a);
    }
  }

  /** The result is the least multiple not below the value, cut off at `2^64 - 1`. */
  lemma AlignsToLeastMultiple(value: U64, a: U64)
    requires a > 0
    ensures IsLeastMultiple(Ceiling(value, a), value, a)
    ensures AlignUp(value, a) == if Ceiling(value, a) <= U64_MAX then Ceiling(value, a) else U64_MAX
  {
    CeilingIsLeastMultiple(value, a);
    if IsPowerOfTwo(a) {
      Pow2Of64();
      PathsAgree(value, a, 64);
    }
  }

  /** For the least multiple, however found: it is the result if it fits, and else `u64::MAX` is. */
  lemma SaturatesExactly(value: U64, a: U64, m: nat)
    requires a > 0 && IsLeastMultiple(m, value, a)
    ensures AlignUp(value, a) == if m < U64_LIMIT then m else U64_MAX
  {
    AlignsToLeastMultiple(value, a);
    LeastMultipleUnique(m, Ceiling(value, a), value, a);
  }

  lemma AlignUpIsMonotone(v: U64, w: U64, a: U64)
    requires v <= w
    ensures AlignUp(v, a) <= AlignUp(w, a)
  {
    if a > 0 {
      AlignsToLeastMultiple(v, a);
      AlignsToLeastMultiple(w, a);
      assert w <= Ceiling(w, a) && Ceiling(w, a) % a == 0;
    }
  }

  /** Aligning twice changes nothing more, saturated or not. */
  lemma AlignUpIsIdempotent(v: U64, a: U64)
    ensures AlignUp(v, a) < U64_LIMIT && v <= AlignUp(v, a)
    ensures AlignUp(AlignUp(v, a), a) == AlignUp(v, a)
  {
    if a > 0 {
      AlignsToLeastMultiple(v, a);
      var m := AlignUp(v, a);
      AlignsToLeastMultiple(m, a);
      if Ceiling(v, a) <= U64_MAX {
        LeastIsWithinOneStep(m, m, a);
        LeastMultipleUnique(m, Ceiling(m, a), m, a);
      }
    }
  }

  /** An alignment of 0 asks for none. */
  lemma NoAlignment(v: U64)
    ensures AlignUp(v, 0) == v
  {
  }
}
