/** Masks on machine words, as the alignment code uses them (`src/utils.rs`, `src/raw/range.rs`). */
module Bits {
  import opened Multiples

  /** Bitwise and, from the lowest bit up. */
  function And(a: nat, b: nat): nat {
    if a == 0 || b == 0 then 0
    else (if a % 2 == 1 && b % 2 == 1 then 1 else 0) + 2 * And(a / 2, b / 2)
  }

  /** Bitwise complement in a word of `width` bits. */
  function Not(a: nat, width: nat): nat {
    if width == 0 then 0 else (if a % 2 == 1 then 0 else 1) + 2 * Not(a / 2, width - 1)
  }

  function Pow2(k: nat): (p: nat)
    ensures p > 0
  {
    if k == 0 then 1 else 2 * Pow2(k - 1)
  }

  /** Exactly one bit is set. */
  predicate IsPowerOfTwo(x: nat) {
    x == 1 || (x > 1 && x % 2 == 0 && IsPowerOfTwo(x / 2))
  }

  lemma {:induction false} PowerOfTwoIsPow2(x: nat) returns (k: nat)
    requires IsPowerOfTwo(x)
    ensures x == Pow2(k)
  {
    if x == 1 {
      k := 0;
    } else {
      k := PowerOfTwoIsPow2(x / 2);
      k := k + 1;
    }
  }

  lemma {:induction false} Pow2IsPowerOfTwo(k: nat)
    ensures IsPowerOfTwo(Pow2(k))
  {
    if k > 0 {
      Pow2IsPowerOfTwo(k - 1);
    }
  }

  /** Remainders by `2h` from the lowest bit and the remainder of the rest by `h`. */
  lemma RemainderByDouble(v: nat, h: nat)
    requires h > 0
    ensures v % (2 * h) == v % 2 + 2 * ((v / 2) % h)
  {
    var q, r := (v / 2) / h, (v / 2) % h;
    assert v / 2 == q * h + r;
    assert v == 2 * (v / 2) + v % 2;
    assert v == q * (2 * h) + (2 * r + v % 2);
    DivModUnique(v, q, 2 * r + v % 2, 2 * h);
  }

  /** Masking with a power of two less one is the remainder. */
  lemma {:induction false} MaskIsRemainder(v: nat, g: nat)
    requires IsPowerOfTwo(g)
    ensures And(v, g - 1) == v % g
  {
    if g == 1 {
      assert And(v, 0) == 0;
    } else {
      var h := g / 2;
      assert g == 2 * h;
      MaskIsRemainder(v / 2, h);
      RemainderByDouble(v, h);
      assert (g - 1) % 2 == 1 && (g - 1) / 2 == h - 1;
    }
  }

  lemma AndStep(a: nat, b: nat)
    ensures And(a, b) == (if a % 2 == 1 && b % 2 == 1 then 1 else 0) + 2 * And(a / 2, b / 2)
  {
  }

  lemma NotStep(a: nat, width: nat)
    requires width > 0
    ensures Not(a, width) % 2 == (if a % 2 == 1 then 0 else 1)
    ensures Not(a, width) / 2 == Not(a / 2, width - 1)
  {
    var bit, rest := if a % 2 == 1 then 0 else 1, Not(a / 2, width - 1);
    assert Not(a, width) == rest * 2 + bit;
    DivModUnique(Not(a, width), rest, bit, 2);
  }

  /** The bits under a mask and the bits under its complement add up. */
  lemma {:induction false} MaskAndComplement(v: nat, m: nat, width: nat)
    requires v < Pow2(width)
    ensures And(v, m) + And(v, Not(m, width)) == v
  {
    if width > 0 {
      MaskAndComplement(v / 2, m / 2, width - 1);
      AndStep(v, m);
      AndStep(v, Not(m, width));
      NotStep(m, width);
    }
  }

  /** Clearing the low bits rounds down to a multiple. */
  lemma ClearLowBits(v: nat, g: nat, width: nat)
    requires IsPowerOfTwo(g) && v < Pow2(width)
    ensures And(v, Not(g - 1, width)) == v - v % g
    ensures (v - v % g) % g == 0
  {
    MaskIsRemainder(v, g);
    MaskAndComplement(v, g - 1, width);
    FloorMultiple(v, g);
  }

  lemma {:induction false} Pow2Adds(a: nat, b: nat)
    ensures Pow2(a + b) == Pow2(a) * Pow2(b)
  {
    if a > 0 {
      Pow2Adds(a - 1, b);
      assert Pow2(a + b) == 2 * Pow2(a - 1 + b);
    }
  }

  lemma Pow2Of64()
    ensures Pow2(32) == 0x1_0000_0000 && Pow2(64) == 0x1_0000_0000_0000_0000
  {
    assert Pow2(8) == 256;
    Pow2Adds(8, 8);
    Pow2Adds(16, 16);
    Pow2Adds(32, 32);
  }

  lemma {:induction false} Pow2Grows(a: nat, b: nat)
    requires a < b
    ensures 2 * Pow2(a) <= Pow2(b)
  {
    if a + 1 < b {
      Pow2Grows(a, b - 1);
    }
  }

  /** Of two powers of two the smaller divides the larger. */
  lemma SmallerDivides(p: nat, g: nat)
    requires IsPowerOfTwo(p) && IsPowerOfTwo(g) && p <= g
    ensures g % p == 0
  {
    var a := PowerOfTwoIsPow2(p);
    var b := PowerOfTwoIsPow2(g);
    if b < a {
      Pow2Grows(b, a);
      assert false;
    }
    Pow2Adds(b - a, a);
    DivModUnique(g, Pow2(b - a), 0, p);
  }
}
