/** Sequence helpers shared by the chunker, the batching and the cost estimate. */
module SeqUtil {

  function Min(a: int, b: int): int { if a <= b then a else b }

  function Max(a: int, b: int): int { if a >= b then a else b }

  /** Concatenation of a list of pieces, in order (the inverse of slicing a list up). */
  function Flatten<T>(ss: seq<seq<T>>): seq<T>
  {
    if ss == [] then [] else ss[0] + Flatten(ss[1..])
  }

  lemma {:induction false} FlattenAppend<T>(a: seq<seq<T>>, b: seq<seq<T>>)
    ensures Flatten(a + b) == Flatten(a) + Flatten(b)
    decreases |a|
  {
    if a == [] {
      assert a + b == b;
    } else {
      assert (a + b)[1..] == a[1..] + b;
      FlattenAppend(a[1..], b);
    }
  }

  /** The number of values of Python's `range(lo, hi, step)` for a positive step. */
  function RangeLen(lo: int, hi: int, step: nat): nat
    requires step > 0
    decreases hi - lo
  {
    if lo < hi then 1 + RangeLen(lo + step, hi, step) else 0
  }

  /** `len(range(lo, hi, step))` is the least count whose multiple of `step` covers the
      distance `hi - lo`: the ceiling of `(hi - lo) / step`. */
  lemma {:induction false} RangeLenIsCeiling(lo: int, hi: int, step: nat)
    requires step > 0
    ensures lo >= hi ==> RangeLen(lo, hi, step) == 0
    ensures lo < hi ==> (RangeLen(lo, hi, step) - 1) * step < hi - lo <= RangeLen(lo, hi, step) * step
    decreases hi - lo
  {
    if lo < hi {
      var m := RangeLen(lo + step, hi, step);
      RangeLenIsCeiling(lo + step, hi, step);
      assert (m + 1) * step == m * step + step;
    }
  }

  /** The same count written as Python's `math.ceil((hi - lo) / step)`. */
  lemma RangeLenIsCeilDiv(lo: int, hi: int, step: nat)
    requires step > 0 && lo < hi
    ensures RangeLen(lo, hi, step) == (hi - lo + step - 1) / step
  {
    var n := RangeLen(lo, hi, step);
    RangeLenIsCeiling(lo, hi, step);
    assert (n - 1) * step == n * step - step;
    DivInRange(hi - lo + step - 1, step, n);
  }

  /** Integer division is determined by the quotient's range. */
  lemma DivInRange(x: int, d: int, q: int)
    requires d > 0 && q * d <= x < q * d + d
    ensures x / d == q
  {
    var q', r' := x / d, x % d;
    assert x == q' * d + r' && 0 <= r' < d;
    assert (q' - q) * d == q' * d - q * d;
    assert -d < (q' - q) * d < d;
    MulSmall(q' - q, d);
  }

  lemma MulSmall(k: int, d: int)
    requires d > 0 && -d < k * d < d
    ensures k == 0
  {
  }
}
