/** Byte ranges and the option type shared by every module. */
module Ranges {

  datatype Option<+T> = None | Some(value: T)

  function Min(a: nat, b: nat): nat {
    if a < b then a else b
  }

  type Byte = x: int | 0 <= x < 256

  /** The bytes `start`, `start + 1`, ..., `end - 1`. */
  datatype Range = Range(start: nat, end: nat)

  predicate Covers(r: Range, x: nat) {
    r.start <= x < r.end
  }

  /** The registry's own test for a conflict between two ranges. */
  predicate Overlaps(a: Range, b: Range) {
    a.start < b.end && b.start < a.end
  }

  /** On ranges that hold a byte, the test says exactly that a byte is shared. */
  lemma OverlapsIffSharesByte(a: Range, b: Range)
    requires a.start < a.end && b.start < b.end
    ensures Overlaps(a, b) <==> exists x :: Covers(a, x) && Covers(b, x)
  {
    var x := if a.start < b.start then b.start else a.start;
    if Overlaps(a, b) {
      assert Covers(a, x) && Covers(b, x);
    }
  }
}
