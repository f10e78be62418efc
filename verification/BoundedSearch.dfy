/** The integer search behind most bounded pages (src/bounded-search.ts). */
module BoundedSearch {
  /** Whatever the predicate: the result is the untested lower bound or a value that passed, and
      its successor is out of range or failed. For a predicate that never passes again once it
      failed, that makes it the largest that fits. */
  method LargestFittingInteger(lower: int, upper: int, fits: int -> bool) returns (r: int)
    ensures r == lower || (lower < r <= upper && fits(r))
    ensures r >= upper || !fits(r + 1)
    ensures (forall x, y | lower < x < y <= upper && fits(y) :: fits(x)) ==> forall x | r < x <= upper :: !fits(x)
  {
    var lo, hi := lower, upper;
    while lo < hi
      invariant lower <= lo && hi <= upper && (lo <= hi || (lo == lower && hi == upper))
      invariant lo == lower || fits(lo)
      invariant hi == upper || !fits(hi + 1)
      decreases hi - lo
    {
      var middle := (lo + hi + 1) / 2;
      if fits(middle) {
        lo := middle;
      } else {
        hi := middle - 1;
      }
    }
    return lo;
  }
}
