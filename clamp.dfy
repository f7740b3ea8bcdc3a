/** `clamp` of `setupDecimalInput`: the bounds check applied when an edited
    value is formatted on blur. */
module Clamping {
  import opened Wrappers

  /** `x` is not below a lower bound that may be `-Infinity`. */
  predicate AtLeast(x: real, min: Bound<real>) {
    min.Bounded? ==> min.limit <= x
  }

  /** `x` is not above an upper bound that may be `Infinity`. */
  predicate AtMost(x: real, max: Bound<real>) {
    max.Bounded? ==> x <= max.limit
  }

  predicate Within(x: real, min: Bound<real>, max: Bound<real>) {
    AtLeast(x, min) && AtMost(x, max)
  }

  /** The bounds leave room for at least one value. */
  predicate Ordered(min: Bound<real>, max: Bound<real>) {
    min.Bounded? && max.Bounded? ==> min.limit <= max.limit
  }

  /** `clamp(num)`: `min` below the lower bound, else `max` above the upper
      bound, else `num` itself. */
  function Clamp(x: real, min: Bound<real>, max: Bound<real>): (r: real)
    ensures Ordered(min, max) ==> Within(r, min, max)
    ensures Within(x, min, max) ==> r == x
    ensures !AtLeast(x, min) ==> r == min.limit
    ensures AtLeast(x, min) && !AtMost(x, max) ==> r == max.limit
  {
    if min.Bounded? && x < min.limit then min.limit
    else if max.Bounded? && x > max.limit then max.limit
    else x
  }

  /** Clamping twice is clamping once. */
  lemma ClampIdempotent(x: real, min: Bound<real>, max: Bound<real>)
    requires Ordered(min, max)
    ensures Clamp(Clamp(x, min, max), min, max) == Clamp(x, min, max)
  {
  }

  /** The clamped value is the point of the range nearest to `x`. */
  lemma ClampNearest(x: real, y: real, min: Bound<real>, max: Bound<real>)
    requires Ordered(min, max) && Within(y, min, max)
    ensures Distance(Clamp(x, min, max), x) <= Distance(y, x)
  {
  }

  function Distance(a: real, b: real): real {
    if a <= b then b - a else a - b
  }

  /** Clamping keeps the order of values. */
  lemma ClampMonotone(x: real, y: real, min: Bound<real>, max: Bound<real>)
    requires Ordered(min, max) && x <= y
    ensures Clamp(x, min, max) <= Clamp(y, min, max)
  {
  }
}
