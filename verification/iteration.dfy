/** `for_each_index` / `for_all_indices`: visiting every index of a shape's
    domain in a chosen loop order. */
module Iteration {
  import opened Dims
  import opened Shapes
  import opened Domains
  import opened Perms
  import opened Transforms
  import opened Layout

  /** The p-th index visited when the loops run in `order`: order[0] names
      the innermost loop's dimension and the last entry the outermost. */
  function VisitAt(s: Shape, order: seq<nat>, p: nat): (i: Index)
    requires IsPermutation(order, |s|) && p < Size(s)
    ensures InDomain(s, i)
  {
    TransposeSize(s, order);
    IndicesAt(Transpose(s, order), p);
    TransposedIndex(s, order, Indices(Transpose(s, order))[p]);
    UnpermuteIndex(Indices(Transpose(s, order))[p], order)
  }

  /** `for_each_index<order...>(s, f)`: the indices handed to f, in order. */
  function ForEachIndex(s: Shape, order: seq<nat>): (r: seq<Index>)
    requires IsPermutation(order, |s|)
    ensures |r| == Size(s)
    ensures forall p :: 0 <= p < |r| ==> InDomain(s, r[p])
  {
    seq(Size(s), p requires 0 <= p < Size(s) => VisitAt(s, order, p))
  }

  lemma ForEachAt(s: Shape, order: seq<nat>, p: nat)
    requires IsPermutation(order, |s|) && p < Size(s)
    ensures p < |ForEachIndex(s, order)| && ForEachIndex(s, order)[p] == VisitAt(s, order, p)
  {
  }

  lemma VisitAtIs(s: Shape, order: seq<nat>, p: nat)
    requires IsPermutation(order, |s|) && p < Size(s)
    ensures Size(Transpose(s, order)) == Size(s)
    ensures InDomain(s, VisitAt(s, order, p))
    ensures Offset(s, VisitAt(s, order, p)) == Offsets(Transpose(s, order))[p]
    ensures PermuteIndex(VisitAt(s, order, p), order) == Indices(Transpose(s, order))[p]
  {
    TransposeSize(s, order);
    IndicesAt(Transpose(s, order), p);
    TransposedIndex(s, order, Indices(Transpose(s, order))[p]);
  }

  /** Different steps of the loops visit different indices. */
  lemma VisitAtDistinct(s: Shape, order: seq<nat>, p: nat, q: nat)
    requires IsPermutation(order, |s|) && p < q < Size(s)
    ensures VisitAt(s, order, p) != VisitAt(s, order, q)
  {
    var t := Transpose(s, order);
    VisitAtIs(s, order, p);
    VisitAtIs(s, order, q);
    IndicesAt(t, p);
    IndicesAt(t, q);
  }

  /** Every index of the domain is visited at some step. */
  lemma VisitAtReaches(s: Shape, order: seq<nat>, i: Index) returns (p: nat)
    requires IsPermutation(order, |s|) && InDomain(s, i)
    ensures p < Size(s) && VisitAt(s, order, p) == i
  {
    var t := Transpose(s, order);
    var j := PermuteIndex(i, order);
    TransposeSize(s, order);
    DomainTranspose(s, order, i);
    RankIndices(t, j);
    p := Rank(t, j);
    IndexRoundTrip(i, order);
  }

  /** In any loop order every index of the domain is visited exactly once and
      nothing else is visited. */
  lemma ForEachVisitsOnce(s: Shape, order: seq<nat>)
    requires IsPermutation(order, |s|)
    ensures forall p :: 0 <= p < Size(s) ==> InDomain(s, ForEachIndex(s, order)[p])
    ensures forall p, q :: 0 <= p < q < Size(s) ==> ForEachIndex(s, order)[p] != ForEachIndex(s, order)[q]
    ensures forall i :: InDomain(s, i) ==> i in ForEachIndex(s, order)
  {
    var r := ForEachIndex(s, order);
    forall p | 0 <= p < Size(s)
      ensures InDomain(s, r[p])
    {
      VisitAtIs(s, order, p);
    }
    forall p, q | 0 <= p < q < Size(s)
      ensures r[p] != r[q]
    {
      VisitAtDistinct(s, order, p, q);
    }
    forall i | InDomain(s, i)
      ensures i in r
    {
      var p := VisitAtReaches(s, order, i);
      assert r[p] == i;
    }
  }

  /** In the natural order the loops visit the domain in Indices order. */
  lemma ForEachNatural(s: Shape)
    ensures ForEachIndex(s, Identity(|s|)) == Indices(s)
  {
    var order := Identity(|s|);
    assert Transpose(s, order) == s;
    forall p | 0 <= p < Size(s)
      ensures ForEachIndex(s, order)[p] == Indices(s)[p]
    {
      IndicesAt(s, p);
      IndexRoundTrip(Indices(s)[p], order);
      assert PermuteIndex(Indices(s)[p], order) == Indices(s)[p];
    }
  }

  /** When the shape is dense with its dimensions listed in the loop order,
      the loops walk its buffer slot by slot: the p-th index visited has the
      offset of the mins plus p. */
  lemma DenseIteration(s: Shape, order: seq<nat>)
    requires IsPermutation(order, |s|) && IsDense(Transpose(s, order))
    ensures forall p :: 0 <= p < Size(s) ==>
      Offset(s, ForEachIndex(s, order)[p]) == Offset(s, Mins(s)) + p
  {
    forall p | 0 <= p < Size(s)
      ensures Offset(s, ForEachIndex(s, order)[p]) == Offset(s, Mins(s)) + p
    {
      DenseVisit(s, order, p);
      ForEachAt(s, order, p);
    }
  }

  lemma DenseVisit(s: Shape, order: seq<nat>, p: nat)
    requires IsPermutation(order, |s|) && IsDense(Transpose(s, order)) && p < Size(s)
    ensures Offset(s, VisitAt(s, order, p)) == Offset(s, Mins(s)) + p
  {
    var t := Transpose(s, order);
    TransposeSize(s, order);
    DenseAt(t, p);
    MinsTranspose(s, order);
    VisitOffset(s, order, p, t, Offset(s, Mins(s)));
  }

  /** The p-th index visited has the p-th offset of the transposed shape. */
  lemma VisitOffset(s: Shape, order: seq<nat>, p: nat, t: Shape, c: int)
    requires IsPermutation(order, |s|) && p < Size(s) && t == Transpose(s, order)
    requires p < |Offsets(t)| && Offsets(t)[p] == c + p
    ensures Offset(s, VisitAt(s, order, p)) == c + p
  {
    VisitAtIs(s, order, p);
  }

  /** The p-th offset a dense shape visits is the offset of the mins plus p. */
  lemma DenseAt(t: Shape, p: nat)
    requires IsDense(t) && p < Size(t)
    ensures Offsets(t)[p] == Offset(t, Mins(t)) + p
  {
    IndicesAt(t, p);
    DenseOffset(t, Indices(t)[p]);
  }

  /** The mins of a transposed shape sit at the same offset as the mins of
      the original. */
  lemma MinsTranspose(s: Shape, order: seq<nat>)
    requires IsPermutation(order, |s|)
    ensures Offset(Transpose(s, order), Mins(Transpose(s, order))) == Offset(s, Mins(s))
  {
    TransposeCorners(s, order);
    OffsetTranspose(s, order, Mins(s));
  }

  /** A rank-0 shape is visited once, with the empty index
      (test/shape.cpp:226-234). */
  lemma ScalarIteration()
    ensures ForEachIndex([], []) == [[]]
  {
    ScalarVisitedOnce();
    assert Transpose([], []) == [];
    assert UnpermuteIndex([], []) == [];
  }

  /** The dense loops of test/shape.cpp:236-268: (3, 5, 8) resolved to strides
      (1, 3, 15) walked in natural order, and (3, 5, (0, 8, 1)) resolved to
      strides (8, 24, 1) walked with dimension 2 innermost, both give offsets
      0, 1, ..., 119. */
  lemma DenseLoopExamples()
    ensures var s := [Dim(0, 3, 1), Dim(0, 5, 3), Dim(0, 8, 15)];
      Size(s) == 120 && forall p :: 0 <= p < 120 ==> Offset(s, ForEachIndex(s, Identity(3))[p]) == p
    ensures IsPermutation([2, 0, 1], 3)
    ensures var s := [Dim(0, 3, 8), Dim(0, 5, 24), Dim(0, 8, 1)];
      Size(s) == 120 && forall p :: 0 <= p < 120 ==> Offset(s, ForEachIndex(s, [2, 0, 1])[p]) == p
  {
    NaturalLoop();
    ReorderedLoop();
  }

  lemma NaturalLoop()
    ensures var s := [Dim(0, 3, 1), Dim(0, 5, 3), Dim(0, 8, 15)];
      Size(s) == 120 && forall p :: 0 <= p < 120 ==> Offset(s, ForEachIndex(s, Identity(3))[p]) == p
  {
    var s := [Dim(0, 3, 1), Dim(0, 5, 3), Dim(0, 8, 15)];
    assert Transpose(s, Identity(3)) == s;
    assert IsDense(s) by {
      assert Extents(s) == [3, 5, 8];
      assert Pitch(Extents(s), 1) == 3 && Pitch(Extents(s), 2) == 15;
    }
    DenseIteration(s, Identity(3));
    OffsetOfZero(s, Mins(s));
  }

  lemma ReorderedLoop()
    ensures IsPermutation([2, 0, 1], 3)
    ensures var s := [Dim(0, 3, 8), Dim(0, 5, 24), Dim(0, 8, 1)];
      Size(s) == 120 && forall p :: 0 <= p < 120 ==> Offset(s, ForEachIndex(s, [2, 0, 1])[p]) == p
  {
    var s := [Dim(0, 3, 8), Dim(0, 5, 24), Dim(0, 8, 1)];
    var order := [2, 0, 1];
    assert 0 in order && 1 in order && 2 in order;
    var t := Transpose(s, order);
    assert IsDense(t) by {
      assert t == [Dim(0, 8, 1), Dim(0, 3, 8), Dim(0, 5, 24)];
      assert Extents(t) == [8, 3, 5];
      assert Pitch(Extents(t), 1) == 8 && Pitch(Extents(t), 2) == 24;
    }
    DenseIteration(s, order);
    OffsetOfZero(s, Mins(s));
  }
}
