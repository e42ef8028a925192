/** One axis of an array: the half-open interval [min, min + extent) of valid
    coordinates, and the memory distance between consecutive coordinates. */
module Dims {

  /** A resolved dimension: its stride is a definite integer, possibly negative
      (a reversed axis) or zero (a broadcast axis). */
  datatype Dim = Dim(min: int, extent: nat, stride: int) {

    /** The last valid coordinate (min - 1 when the dimension is empty). */
    function Max(): int {
      min + extent - 1
    }

    /** Scalar range membership, `dim::is_in_range(index_t)`. */
    predicate Contains(x: int) {
      min <= x <= Max()
    }

    /** The interval of valid coordinates, as an interval value. */
    function Range(): Interval {
      Interval(min, extent)
    }

    /** The smallest address contribution x * stride over the valid coordinates. */
    function LowOffset(): int {
      if stride >= 0 then min * stride else Max() * stride
    }

    /** The largest address contribution x * stride over the valid coordinates. */
    function HighOffset(): int {
      if stride >= 0 then Max() * stride else min * stride
    }
  }

  /** An interval of coordinates, `interval<>(min, extent)`. */
  datatype Interval = Interval(min: int, extent: nat) {
    function Max(): int {
      min + extent - 1
    }
  }

  /** Interval membership, `dim::is_in_range(interval)`: both ends of the
      interval are valid coordinates of the dimension. */
  predicate IntervalInRange(d: Dim, iv: Interval): (r: bool)
    ensures iv.extent > 0 ==> (r <==> d.Contains(iv.min) && d.Contains(iv.Max()))
  {
    d.min <= iv.min && iv.Max() <= d.Max()
  }

  function Min(a: int, b: int): int {
    if a <= b then a else b
  }

  function MaxOf(a: int, b: int): int {
    if a >= b then a else b
  }

  /** `clamp(x, dim)`: the coordinate moved into [min, max]. */
  function Clamp(x: int, d: Dim): (r: int)
    ensures d.extent > 0 ==> d.Contains(r)
    ensures d.Contains(x) ==> r == x
    ensures d.extent > 0 ==> forall y :: d.Contains(y) ==> Distance(r, x) <= Distance(y, x)
  {
    MaxOf(Min(x, d.Max()), d.min)
  }

  function Distance(a: int, b: int): nat {
    if a >= b then a - b else b - a
  }

  /** A scalar coordinate is in range exactly when the one-element interval at
      that coordinate is. */
  lemma PointInterval(d: Dim, x: int)
    ensures IntervalInRange(d, Interval(x, 1)) <==> d.Contains(x)
  {
  }

  /** A non-empty interval is in range exactly when every coordinate it holds is. */
  lemma IntervalInRangeIffContained(d: Dim, iv: Interval)
    requires iv.extent > 0
    ensures IntervalInRange(d, iv) <==> forall x :: iv.min <= x <= iv.Max() ==> d.Contains(x)
  {
    if forall x :: iv.min <= x <= iv.Max() ==> d.Contains(x) {
      assert d.Contains(iv.min);
      assert d.Contains(iv.Max());
    }
  }

  /** The clamp examples of the dimension (5, 10): coordinates below 5 go to 5,
      coordinates above 14 go to 14, the rest are kept. */
  lemma ClampExample(x: int)
    ensures Clamp(x, Dim(5, 10, 1)) == MaxOf(Min(x, 14), 5)
    ensures Clamp(x, Dim(5, 10, 1)) == (if x < 5 then 5 else if x > 14 then 14 else x)
  {
  }

  /** The range checks of test/shape.cpp:344-356 on the dimension (2, 5):
      coordinates 2 to 6 are in range and 1 and 8 are not; the dimension's own
      interval is in range, and the intervals (1, 2) and (8, 2) are not. */
  lemma InRangeExample(stride: int, x: int)
    ensures Dim(2, 5, stride).Contains(x) <==> 2 <= x < 7
    ensures IntervalInRange(Dim(2, 5, stride), Dim(2, 5, stride).Range())
    ensures !IntervalInRange(Dim(2, 5, stride), Interval(1, 2))
    ensures !IntervalInRange(Dim(2, 5, stride), Interval(8, 2))
  {
  }

  /** x * stride is bracketed by the low and high contributions for every valid x. */
  lemma ContributionBounds(d: Dim, x: int)
    requires d.Contains(x)
    ensures d.LowOffset() <= x * d.stride <= d.HighOffset()
  {
    if d.stride >= 0 {
      MulMono(d.min, x, d.stride);
      MulMono(x, d.Max(), d.stride);
    } else {
      MulMono(x, d.Max(), -d.stride);
      MulMono(d.min, x, -d.stride);
    }
  }

  lemma MulMono(a: int, b: int, c: nat)
    requires a <= b
    ensures a * c <= b * c
  {
    assert b * c - a * c == (b - a) * c;
  }
}
