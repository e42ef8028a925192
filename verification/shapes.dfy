/** A shape: an ordered sequence of resolved dimensions, and the address map
    from a multi-index to a flat offset. */
module Shapes {
  import opened Dims

  type Shape = seq<Dim>

  /** A multi-index: one coordinate per dimension, in dimension order. */
  type Index = seq<int>

  function Front<T>(s: seq<T>): seq<T>
    requires |s| > 0
  {
    s[..|s| - 1]
  }

  function Last<T>(s: seq<T>): T
    requires |s| > 0
  {
    s[|s| - 1]
  }

  /** Every coordinate of `i` is a valid coordinate of its dimension. */
  predicate InDomain(s: Shape, i: Index) {
    |i| == |s| && forall k :: 0 <= k < |s| ==> s[k].Contains(i[k])
  }

  /** The flat offset `shape(i...)`: the sum of coordinate times stride. The
      coordinate is not shifted by the dimension's min; a view's base address
      is chosen so that its in-domain offsets land in its buffer. */
  function Offset(s: Shape, i: Index): (r: int)
    requires |i| == |s|
  {
    if |s| == 0 then 0 else Offset(Front(s), Front(i)) + Last(i) * Last(s).stride
  }

  /** `size()`: the number of multi-indices in the domain. */
  function Size(s: Shape): (n: nat) {
    if |s| == 0 then 1 else Size(Front(s)) * Last(s).extent
  }

  /** `flat_min()`: the sum of each dimension's smallest contribution. */
  function FlatMin(s: Shape): (r: int) {
    if |s| == 0 then 0 else FlatMin(Front(s)) + Last(s).LowOffset()
  }

  /** `flat_max()`: the sum of each dimension's largest contribution. */
  function FlatMax(s: Shape): (r: int) {
    if |s| == 0 then 0 else FlatMax(Front(s)) + Last(s).HighOffset()
  }

  /** `flat_extent()`: the number of buffer slots from flat_min to flat_max; an
      empty domain needs no slots. */
  function FlatExtent(s: Shape): (n: nat)
    ensures n == 0 <==> Size(s) == 0
  {
    if Size(s) == 0 then 0 else FlatBoundsOrdered(s); FlatMax(s) - FlatMin(s) + 1
  }

  /** The multi-index of every dimension's min. */
  function Mins(s: Shape): Index {
    seq(|s|, k requires 0 <= k < |s| => s[k].min)
  }

  /** The corner of the domain whose offset is flat_min. */
  function LowCorner(s: Shape): Index {
    seq(|s|, k requires 0 <= k < |s| => if s[k].stride >= 0 then s[k].min else s[k].Max())
  }

  /** The corner of the domain whose offset is flat_max. */
  function HighCorner(s: Shape): Index {
    seq(|s|, k requires 0 <= k < |s| => if s[k].stride >= 0 then s[k].Max() else s[k].min)
  }

  /** Shape range check: each dimension is given an interval (a scalar
      coordinate is the one-element interval) and must contain it. */
  predicate IntervalsInRange(s: Shape, ivs: seq<Interval>): (r: bool)
    requires |ivs| == |s|
    ensures r ==> forall k :: 0 <= k < |s| && ivs[k].extent > 0 ==>
      s[k].Contains(ivs[k].min) && s[k].Contains(ivs[k].Max())
    ensures (forall k :: 0 <= k < |s| ==> ivs[k].extent > 0 && s[k].Contains(ivs[k].min) && s[k].Contains(ivs[k].Max())) ==> r
  {
    forall k :: 0 <= k < |s| ==> IntervalInRange(s[k], ivs[k])
  }

  lemma SizePositive(s: Shape)
    ensures Size(s) > 0 <==> forall k :: 0 <= k < |s| ==> s[k].extent > 0
  {
    if |s| > 0 {
      SizePositive(Front(s));
      assert forall k :: 0 <= k < |s| - 1 ==> Front(s)[k] == s[k];
    }
  }

  lemma FlatBoundsOrdered(s: Shape)
    requires Size(s) > 0
    ensures FlatMin(s) <= FlatMax(s)
  {
    if |s| > 0 {
      SizePositive(s);
      SizePositive(Front(s));
      assert forall k :: 0 <= k < |s| - 1 ==> Front(s)[k] == s[k];
      FlatBoundsOrdered(Front(s));
      ContributionBounds(Last(s), Last(s).min);
    }
  }

  lemma FrontInDomain(s: Shape, i: Index)
    requires |s| > 0 && InDomain(s, i)
    ensures InDomain(Front(s), Front(i)) && Last(s).Contains(Last(i))
  {
  }

  /** Every in-domain offset lies between flat_min and flat_max. */
  lemma {:induction false} OffsetBounds(s: Shape, i: Index)
    requires InDomain(s, i)
    ensures FlatMin(s) <= Offset(s, i) <= FlatMax(s)
  {
    if |s| > 0 {
      FrontInDomain(s, i);
      OffsetBounds(Front(s), Front(i));
      ContributionBounds(Last(s), Last(i));
    }
  }

  /** flat_min is attained: it is the offset of the low corner, which is in the
      domain whenever the domain is not empty. */
  lemma {:induction false} FlatMinAttained(s: Shape)
    requires Size(s) > 0
    ensures InDomain(s, LowCorner(s)) && Offset(s, LowCorner(s)) == FlatMin(s)
  {
    SizePositive(s);
    if |s| > 0 {
      SizePositive(Front(s));
      assert forall k :: 0 <= k < |s| - 1 ==> Front(s)[k] == s[k];
      FlatMinAttained(Front(s));
      assert Front(LowCorner(s)) == LowCorner(Front(s));
    }
  }

  /** flat_max is attained by the high corner. */
  lemma {:induction false} FlatMaxAttained(s: Shape)
    requires Size(s) > 0
    ensures InDomain(s, HighCorner(s)) && Offset(s, HighCorner(s)) == FlatMax(s)
  {
    SizePositive(s);
    if |s| > 0 {
      SizePositive(Front(s));
      assert forall k :: 0 <= k < |s| - 1 ==> Front(s)[k] == s[k];
      FlatMaxAttained(Front(s));
      assert Front(HighCorner(s)) == HighCorner(Front(s));
    }
  }

  /** A rank-0 shape has one element, one slot, and maps the empty index to 0. */
  lemma ScalarShape()
    ensures Size([]) == 1 && FlatExtent([]) == 1 && Offset([], []) == 0
    ensures InDomain([], [])
  {
  }

  lemma PointIntervalsInRange(s: Shape, i: Index)
    requires |i| == |s|
    ensures IntervalsInRange(s, seq(|s|, k requires 0 <= k < |s| => Interval(i[k], 1))) <==> InDomain(s, i)
  {
  }

  /** The extents of a shape, in dimension order. */
  function Extents(s: Shape): (es: seq<nat>)
    ensures |es| == |s| && forall k :: 0 <= k < |s| ==> es[k] == s[k].extent
  {
    seq(|s|, k requires 0 <= k < |s| => s[k].extent)
  }

  /** The product of max(1, extent) over the first k extents: the stride a
      densely packed dimension k has. */
  function Pitch(es: seq<nat>, k: nat): (p: nat)
    requires k <= |es|
    ensures p >= 1
  {
    if k == 0 then 1
    else Pitch(es, k - 1) * (if es[k - 1] >= 1 then es[k - 1] else 1)
  }

  lemma {:induction false} PitchMono(es: seq<nat>, i: nat, j: nat)
    requires i <= j <= |es|
    ensures Pitch(es, i) <= Pitch(es, j)
    decreases j - i
  {
    if i < j {
      PitchMono(es, i, j - 1);
      MulMono(1, if es[j - 1] >= 1 then es[j - 1] else 1, Pitch(es, j - 1));
    }
  }

  /** A pitch depends only on the extents before it. */
  lemma {:induction false} PitchPrefix(es: seq<nat>, fs: seq<nat>, k: nat)
    requires k <= |es| && k <= |fs| && es[..k] == fs[..k]
    ensures Pitch(es, k) == Pitch(fs, k)
  {
    if k > 0 {
      assert es[k - 1] == es[..k][k - 1] == fs[k - 1];
      assert es[..k - 1] == es[..k][..k - 1];
      PitchPrefix(es, fs, k - 1);
    }
  }

  /** When no extent is 0, the pitch past the last dimension is the size. */
  lemma {:induction false} PitchSize(s: Shape)
    requires forall k :: 0 <= k < |s| ==> s[k].extent >= 1
    ensures Pitch(Extents(s), |s|) == Size(s)
  {
    if |s| > 0 {
      PitchSize(Front(s));
      PitchPrefix(Extents(s), Extents(Front(s)), |s| - 1);
    }
  }

  /** The all-zero index has offset 0, whatever the strides. */
  lemma {:induction false} OffsetOfZero(s: Shape, i: Index)
    requires |i| == |s| && forall k :: 0 <= k < |i| ==> i[k] == 0
    ensures Offset(s, i) == 0
  {
    if |s| > 0 {
      OffsetOfZero(Front(s), Front(i));
    }
  }
  /** test/shape.cpp:31-47: a one-dimensional shape maps coordinate x to
      x * stride, and to x itself when the stride is 1. */
  lemma OneDimExample(stride: int, x: int)
    ensures Offset([Dim(0, 10, stride)], [x]) == x * stride
  {
  }

  /** test/shape.cpp:49-76: the dense 10 x 5 shape maps (j, i) to i * 10 + j;
      with the row stride negated it maps (j, i) to i * -10 + j, still has 50
      elements in 50 slots, and its flat_min and flat_max are -40 and 9. */
  lemma TwoDimExamples(j: int, i: int)
    ensures Offset([Dim(0, 10, 1), Dim(0, 5, 10)], [j, i]) == i * 10 + j
    ensures Offset([Dim(0, 10, 1), Dim(0, 5, -10)], [j, i]) == i * -10 + j
    ensures var s := [Dim(0, 10, 1), Dim(0, 5, -10)];
      Size(s) == 50 && FlatExtent(s) == 50 && FlatMin(s) == -40 && FlatMax(s) == 9
  {
    OffsetPair(Dim(0, 10, 1), Dim(0, 5, 10), j, i);
    OffsetPair(Dim(0, 10, 1), Dim(0, 5, -10), j, i);
    var s := [Dim(0, 10, 1), Dim(0, 5, -10)];
    assert Front(s) == [Dim(0, 10, 1)];
  }

  /** test/shape.cpp:207-216: a dimension of stride 0 broadcasts: its
      coordinate does not move the offset. */
  lemma BroadcastExample(y: Dim, j: int, i: int)
    requires y.stride == 0
    ensures Offset([Dim(0, 10, 1), y], [j, i]) == j
  {
    OffsetPair(Dim(0, 10, 1), y, j, i);
  }

  /** The offset of a two-dimensional index is the sum of its two terms. */
  lemma OffsetPair(x: Dim, y: Dim, j: int, i: int)
    ensures Offset([x, y], [j, i]) == j * x.stride + i * y.stride
  {
    assert Front([x, y]) == [x] && Front([j, i]) == [j];
    assert Front([x]) == [] && Front([j]) == [];
    assert Offset([x], [j]) == j * x.stride;
  }

  /** test/shape.cpp:373-392: the shape (2, 5) x (-3, 6) contains exactly the
      (j, i) with 2 <= j < 7 and -3 <= i < 3; its own ranges are in range, and
      replacing either by a point outside is not. */
  lemma ShapeInRangeExample(a: int, b: int, j: int, i: int)
    ensures InDomain([Dim(2, 5, a), Dim(-3, 6, b)], [j, i]) <==> 2 <= j < 7 && -3 <= i < 3
    ensures IntervalsInRange([Dim(2, 5, a), Dim(-3, 6, b)], [Interval(2, 5), Interval(-3, 6)])
    ensures !IntervalsInRange([Dim(2, 5, a), Dim(-3, 6, b)], [Interval(1, 1), Interval(-3, 6)])
    ensures !IntervalsInRange([Dim(2, 5, a), Dim(-3, 6, b)], [Interval(2, 5), Interval(-4, 1)])
  {
    var s := [Dim(2, 5, a), Dim(-3, 6, b)];
    assert !IntervalInRange(s[0], Interval(1, 1));
    assert !IntervalInRange(s[1], Interval(-4, 1));
  }
}
