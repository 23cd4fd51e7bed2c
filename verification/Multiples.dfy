/** Division facts the solver does not find by itself. */
module Multiples {

  /** The quotient, rounded up. */
  function DivCeil(a: nat, b: nat): nat
    requires b > 0
  {
    if a % b == 0 then a / b else a / b + 1
  }

  lemma ProductBound(d: int, size: nat)
    requires d >= 1
    ensures d * size >= size
  {
    assert (d - 1) * size >= 0;
    assert d * size == (d - 1) * size + size;
  }

  lemma Cancel(p: int, q: int, size: nat)
    requires p < q
    ensures p * size + size <= q * size
  {
    ProductBound(q - p, size);
    assert (q - p) * size == q * size - p * size;
  }

  /** Quotient and remainder are unique. */
  lemma DivModUnique(a: nat, k: nat, r: nat, size: nat)
    requires a == k * size + r && r < size
    ensures a / size == k && a % size == r
  {
    var q, m := a / size, a % size;
    assert a == q * size + m;
    if k < q {
      Cancel(k, q, size);
    } else if q < k {
      Cancel(q, k, size);
    }
  }

  lemma StepMultiple(a: nat, size: nat)
    requires size > 0 && a % size == 0
    ensures (a + size) % size == 0
  {
    var q := a / size;
    assert a == q * size;
    assert a + size == (q + 1) * size;
    DivModUnique(a + size, q + 1, 0, size);
  }

  lemma NextMultiple(a: nat, b: nat, size: nat)
    requires size > 0 && a % size == 0 && b % size == 0 && a < b
    ensures a + size <= b
  {
    var p, q := a / size, b / size;
    assert a == p * size && b == q * size;
    if p < q {
      Cancel(p, q, size);
    } else if q < p {
      Cancel(q, p, size);
    }
  }

  /** Rounding down gives the last multiple that is not above `a`. */
  lemma FloorMultiple(a: nat, size: nat)
    requires size > 0
    ensures a % size <= a && (a - a % size) % size == 0 && a < a - a % size + size
  {
    var q := a / size;
    assert a == q * size + a % size;
    ProductNonNegative(q, size);
    DivModUnique(a - a % size, q, 0, size);
  }

  lemma ProductNonNegative(q: nat, size: nat)
    ensures q * size >= 0
  {
  }

  lemma AddMultiple(a: nat, k: nat, size: nat)
    requires size > 0 && a % size == 0
    ensures (a + size * k) % size == 0
  {
    var q := a / size;
    assert a + size * k == (q + k) * size;
    ProductNonNegative(q + k, size);
    DivModUnique(a + size * k, q + k, 0, size);
  }
}
