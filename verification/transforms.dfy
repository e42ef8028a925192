/** Shape transformations that rearrange dimensions without touching any
    dimension's (min, extent, stride): transpose, reorder and rank widening. */
module Transforms {
  import opened Wrappers
  import opened Dims
  import opened Shapes
  import opened Perms

  /** `transpose<order...>(s)`: dimension k of the result is dimension order[k]
      of `s`; `order` is a permutation of the dimensions. */
  function Transpose(s: Shape, order: seq<nat>): (r: Shape)
    requires IsPermutation(order, |s|)
    ensures |r| == |s|
  {
    Pick(s, order)
  }

  /** Transposing keeps the number of indices. */
  lemma TransposeSize(s: Shape, order: seq<nat>)
    requires IsPermutation(order, |s|)
    ensures Size(Transpose(s, order)) == Size(s)
  {
    var r := Transpose(s, order);
    SizeIsProduct(s);
    SizeIsProduct(r);
    assert Extents(r) == Pick(Extents(s), order);
    ProductPick(Extents(s), order);
  }

  /** The number of indices is the product of the extents. */
  lemma {:induction false} SizeIsProduct(s: Shape)
    ensures Size(s) == Product(Extents(s))
  {
    if |s| > 0 {
      SizeIsProduct(Front(s));
      assert Extents(s)[..|s| - 1] == Extents(Front(s));
    }
  }

  /** `reorder<sel...>(s)`: like transpose, but `sel` may name only some of the
      dimensions, so the rank can shrink. */
  function Reorder(s: Shape, sel: seq<nat>): (r: Shape)
    requires forall k :: 0 <= k < |sel| ==> sel[k] < |s|
    ensures |r| == |sel|
    ensures forall k :: 0 <= k < |sel| ==> r[k] == s[sel[k]]
  {
    Pick(s, sel)
  }

  /** The index of the transposed shape that names the same element as `i`. */
  function PermuteIndex(i: Index, order: seq<nat>): Index
    requires IsPermutation(order, |i|)
  {
    Pick(i, order)
  }

  /** The index of the original shape that names the same element as the
      transposed shape's index `j`. */
  function UnpermuteIndex(j: Index, order: seq<nat>): Index
    requires IsPermutation(order, |j|)
  {
    Pick(j, Inverse(order))
  }

  /** Transposing back by the inverse permutation restores the shape. */
  lemma TransposeRoundTrip(s: Shape, order: seq<nat>)
    requires IsPermutation(order, |s|)
    ensures IsPermutation(Inverse(order), |s|)
    ensures Transpose(Transpose(s, order), Inverse(order)) == s
  {
    InverseIsPermutation(order);
    PickInverse(s, order);
  }

  /** PermuteIndex and UnpermuteIndex are inverse to each other. */
  lemma IndexRoundTrip(i: Index, order: seq<nat>)
    requires IsPermutation(order, |i|)
    ensures UnpermuteIndex(PermuteIndex(i, order), order) == i
    ensures PermuteIndex(UnpermuteIndex(i, order), order) == i
  {
    PickInverse(i, order);
  }

  function Terms(s: Shape, i: Index): (t: seq<int>)
    requires |i| == |s|
    ensures |t| == |s|
  {
    seq(|s|, k requires 0 <= k < |s| => i[k] * s[k].stride)
  }

  lemma {:induction false} OffsetIsSum(s: Shape, i: Index)
    requires |i| == |s|
    ensures Offset(s, i) == Sum(Terms(s, i))
  {
    if |s| > 0 {
      OffsetIsSum(Front(s), Front(i));
      assert Terms(s, i)[..|s| - 1] == Terms(Front(s), Front(i));
    }
  }

  /** Transposition does not change which flat offset an element has. */
  lemma OffsetTranspose(s: Shape, order: seq<nat>, i: Index)
    requires IsPermutation(order, |s|) && |i| == |s|
    ensures Offset(Transpose(s, order), PermuteIndex(i, order)) == Offset(s, i)
  {
    var t := Transpose(s, order);
    var j := PermuteIndex(i, order);
    OffsetIsSum(s, i);
    OffsetIsSum(t, j);
    assert Terms(t, j) == Pick(Terms(s, i), order);
    SumPick(Terms(s, i), order);
  }

  /** Transposition maps the domain onto the transposed domain. */
  lemma DomainTranspose(s: Shape, order: seq<nat>, i: Index)
    requires IsPermutation(order, |s|) && |i| == |s|
    ensures InDomain(Transpose(s, order), PermuteIndex(i, order)) <==> InDomain(s, i)
  {
    var t := Transpose(s, order);
    var j := PermuteIndex(i, order);
    if InDomain(t, j) {
      forall d | 0 <= d < |s|
        ensures s[d].Contains(i[d])
      {
        var k := Position(order, d);
        assert t[k].Contains(j[k]);
      }
    }
  }

  /** The transposition of test/shape.cpp:420-430: transpose<1, 2, 0> of the
      dense (3, 5, 8) shape has extents (5, 8, 3), and reorder<2, 0> of that has
      extents (3, 5). */
  lemma TransposeExample(s: Shape)
    requires |s| == 3 && s[0].extent == 3 && s[1].extent == 5 && s[2].extent == 8
    ensures IsPermutation([1, 2, 0], 3)
    ensures var t := Transpose(s, [1, 2, 0]);
      t[0].extent == 5 && t[1].extent == 8 && t[2].extent == 3
      && Reorder(t, [2, 0])[0].extent == 3 && Reorder(t, [2, 0])[1].extent == 5
  {
    assert 0 in [1, 2, 0] && 1 in [1, 2, 0] && 2 in [1, 2, 0];
  }

  /** The compile-time-fixed parts of a dimension type: `dense_dim<>` fixes the
      stride to 1, `dim<>` fixes nothing, `dim<Min, Extent>` fixes both. */
  datatype DimType = DimType(min: Option<int>, extent: Option<nat>, stride: Option<int>)

  predicate Fits(d: Dim, t: DimType) {
    && (t.min.Some? ==> d.min == t.min.value)
    && (t.extent.Some? ==> d.extent == t.extent.value)
    && (t.stride.Some? ==> d.stride == t.stride.value)
  }

  /** The dimension appended when widening the rank: min 0, extent 1, and the
      type's fixed stride or else 0. */
  function Padding(t: DimType): Dim {
    Dim(0, 1, if t.stride.Some? then t.stride.value else 0)
  }

  /** `s` padded to the target's rank. */
  function Widen(s: Shape, target: seq<DimType>): (r: Shape)
    requires |s| <= |target|
    ensures |r| == |target| && r[..|s|] == s
    ensures forall k :: |s| <= k < |target| ==> r[k] == Padding(target[k])
  {
    s + seq(|target| - |s|, k requires 0 <= k < |target| - |s| => Padding(target[|s| + k]))
  }

  /** `is_compatible<Target>(s)`: every dimension, including the padding,
      satisfies the target type's fixed fields. */
  predicate IsCompatible(s: Shape, target: seq<DimType>)
    requires |s| <= |target|
  {
    var w := Widen(s, target);
    forall k :: 0 <= k < |target| ==> Fits(w[k], target[k])
  }

  /** `convert_shape<Target>(s)`: the widened shape, or a shape mismatch when a
      fixed field of the target disagrees. */
  function ConvertShape(s: Shape, target: seq<DimType>): (r: Result<Shape>)
    requires |s| <= |target|
    ensures r.Failure? <==> !IsCompatible(s, target)
    ensures r.Failure? ==> r.error == ShapeMismatch
    ensures r.Success? ==> |r.value| == |target| && r.value[..|s|] == s
    ensures r.Success? ==> forall k :: |s| <= k < |target| ==> r.value[k].min == 0 && r.value[k].extent == 1
    ensures r.Success? ==> forall k :: 0 <= k < |target| ==> Fits(r.value[k], target[k])
  {
    if IsCompatible(s, target) then Success(Widen(s, target)) else Failure(ShapeMismatch)
  }

  function Zeros(n: nat): (z: Index)
    ensures |z| == n && forall k :: 0 <= k < n ==> z[k] == 0
  {
    seq(n, k => 0)
  }

  /** Appending dimensions of min 0 and extent 1, addressed at coordinate 0,
      changes neither domain membership nor the offset. */
  lemma {:induction false} AppendUnitDims(s: Shape, pad: Shape, i: Index)
    requires |i| == |s|
    requires forall k :: 0 <= k < |pad| ==> pad[k].min == 0 && pad[k].extent == 1
    ensures InDomain(s + pad, i + Zeros(|pad|)) <==> InDomain(s, i)
    ensures Offset(s + pad, i + Zeros(|pad|)) == Offset(s, i)
  {
    var w, j := s + pad, i + Zeros(|pad|);
    if |pad| == 0 {
      assert w == s && j == i;
    } else {
      AppendUnitDims(s, Front(pad), i);
      assert Front(w) == s + Front(pad);
      assert Front(j) == i + Zeros(|pad| - 1);
      assert Last(w).Contains(Last(j));
      if InDomain(s, i) {
        assert InDomain(w, j) by {
          forall k | 0 <= k < |w|
            ensures w[k].Contains(j[k])
          {
            if k < |w| - 1 {
              assert Front(w)[k] == w[k];
            }
          }
        }
      } else if InDomain(w, j) {
        FrontInDomain(w, j);
      }
    }
  }

  /** Widening keeps every element where it was: an index of `s` padded with
      zeros is in the widened domain exactly when the index is in the domain of
      `s`, and it has the same offset. */
  lemma WidenOffset(s: Shape, target: seq<DimType>, i: Index)
    requires |s| <= |target| && |i| == |s|
    ensures InDomain(Widen(s, target), i + Zeros(|target| - |s|)) <==> InDomain(s, i)
    ensures Offset(Widen(s, target), i + Zeros(|target| - |s|)) == Offset(s, i)
  {
    var w := Widen(s, target);
    var pad := w[|s|..];
    assert w == s + pad;
    AppendUnitDims(s, pad, i);
  }

  lemma WidenedDomain(s: Shape, target: seq<DimType>, j: Index)
    requires |s| <= |target|
    requires InDomain(Widen(s, target), j)
    ensures InDomain(s, j[..|s|])
    ensures forall k :: |s| <= k < |target| ==> j[k] == 0
  {
    var w := Widen(s, target);
    forall k | |s| <= k < |target|
      ensures j[k] == 0
    {
      assert w[k] == Padding(target[k]);
    }
  }

  /** The conversions of test/shape.cpp:394-418: a dense 2-D shape is
      compatible with `dense_shape<2>`, a shape whose first stride is 2 is not,
      and widening to rank 3 appends a dimension with min 0 and extent 1. */
  lemma ConversionExamples()
    ensures var denseType := [DimType(None, None, Some(1)), DimType(None, None, None)];
      && IsCompatible([Dim(0, 10, 1), Dim(1, 5, 10)], denseType)
      && !IsCompatible([Dim(0, 10, 2), Dim(1, 5, 20)], denseType)
    ensures var dense3 := [DimType(None, None, Some(1)), DimType(None, None, None), DimType(None, None, None)];
      var r := ConvertShape([Dim(0, 10, 1), Dim(1, 5, 10)], dense3);
      r.Success? && r.value[2].min == 0 && r.value[2].extent == 1
  {
    var denseType := [DimType(None, None, Some(1)), DimType(None, None, None)];
    assert !Fits(Widen([Dim(0, 10, 2), Dim(1, 5, 20)], denseType)[0], denseType[0]);
  }
}
