/** How a shape's domain lies in its buffer: which flat offsets are used and
    how often, and the dense layouts that use every slot exactly once. */
module Layout {
  import opened Wrappers
  import opened Dims
  import opened Shapes
  import opened Domains
  import opened Perms
  import opened Transforms
  import opened Resolution

  /** The flat offset of the p-th visited index. */
  function OffsetAt(s: Shape, p: nat): int
    requires p < Size(s)
  {
    IndicesAt(s, p);
    Offset(s, Indices(s)[p])
  }

  /** The offsets of the domain in visiting order: the addresses a loop over
      every index touches, with repetitions. */
  function Offsets(s: Shape): (os: seq<int>)
    ensures |os| == Size(s)
  {
    seq(Size(s), p requires 0 <= p < Size(s) => OffsetAt(s, p))
  }

  /** How many indices of the domain land on slot `a`. */
  function Hits(s: Shape, a: int): nat {
    multiset(Offsets(s))[a]
  }

  /** Slot `a` is the offset of some index of the domain. */
  ghost predicate Hit(s: Shape, a: int) {
    exists i :: InDomain(s, i) && Offset(s, i) == a
  }

  /** `a` is one of the flat_extent slots from flat_min on. */
  predicate InSlots(s: Shape, a: int) {
    FlatMin(s) <= a < FlatMin(s) + FlatExtent(s)
  }

  /** `is_compact()`, by its brute-force definition: every slot of the flat
      extent is hit at least once. */
  predicate IsCompact(s: Shape): (r: bool)
    ensures r <==> Covers(s)
  {
    CountsCover(s);
    forall a :: FlatMin(s) <= a < FlatMin(s) + FlatExtent(s) ==> Hits(s, a) >= 1
  }

  /** `is_one_to_one()`, by its brute-force definition: every slot of the flat
      extent is hit at most once. */
  predicate IsOneToOne(s: Shape): (r: bool)
    ensures r <==> Injective(s)
  {
    CountsInjective(s);
    forall a :: FlatMin(s) <= a < FlatMin(s) + FlatExtent(s) ==> Hits(s, a) <= 1
  }

  /** No two indices of the domain share an offset. */
  ghost predicate Injective(s: Shape) {
    forall i, j :: InDomain(s, i) && InDomain(s, j) && Offset(s, i) == Offset(s, j) ==> i == j
  }

  /** Every slot of the flat extent is the offset of some index. */
  ghost predicate Covers(s: Shape) {
    forall a :: InSlots(s, a) ==> Hit(s, a)
  }

  /** The offsets listed are exactly the offsets of the domain. */
  lemma InOffsets(s: Shape, a: int)
    ensures a in Offsets(s) <==> Hit(s, a)
  {
    if a in Offsets(s) {
      var p :| 0 <= p < |Offsets(s)| && Offsets(s)[p] == a;
      IndicesAt(s, p);
    }
    if Hit(s, a) {
      var i :| InDomain(s, i) && Offset(s, i) == a;
      RankIndices(s, i);
      assert Offsets(s)[Rank(s, i)] == a;
    }
  }

  /** Every offset of the domain lies in the slots. */
  lemma HitInSlots(s: Shape, i: Index)
    requires InDomain(s, i)
    ensures InSlots(s, Offset(s, i))
  {
    OffsetBounds(s, i);
    SizePositive(s);
  }

  /** A slot is counted at least once exactly when some index reaches it. */
  lemma HitsPositive(s: Shape, a: int)
    ensures Hits(s, a) >= 1 <==> Hit(s, a)
  {
    InOffsets(s, a);
    assert a in Offsets(s) <==> a in multiset(Offsets(s));
  }

  /** Every slot counted at least once is every slot reached by an index. */
  lemma CountsCover(s: Shape)
    ensures (forall a :: FlatMin(s) <= a < FlatMin(s) + FlatExtent(s) ==> Hits(s, a) >= 1) <==> Covers(s)
  {
    forall a
      ensures Hits(s, a) >= 1 <==> Hit(s, a)
    {
      HitsPositive(s, a);
    }
  }

  /** Two positions holding the same value count twice. */
  lemma TwoPositions(xs: seq<int>, p: nat, q: nat)
    requires p < q < |xs| && xs[p] == xs[q]
    ensures multiset(xs)[xs[p]] >= 2
  {
    assert xs == xs[..q] + [xs[q]] + xs[q + 1..];
    assert xs[p] in xs[..q];
  }

  /** A value counted twice sits at two positions. */
  lemma {:induction false} CountTwo(xs: seq<int>, a: int) returns (p: nat, q: nat)
    requires multiset(xs)[a] >= 2
    ensures p < q < |xs| && xs[p] == a && xs[q] == a
  {
    assert xs == [xs[0]] + xs[1..];
    if xs[0] == a {
      assert a in multiset(xs[1..]);
      var q' :| 0 <= q' < |xs[1..]| && xs[1..][q'] == a;
      p, q := 0, q' + 1;
    } else {
      var p', q' := CountTwo(xs[1..], a);
      p, q := p' + 1, q' + 1;
    }
  }

  /** Two different indices sharing an offset hit that slot twice. */
  lemma SharedOffset(s: Shape, i: Index, j: Index)
    requires InDomain(s, i) && InDomain(s, j) && Offset(s, i) == Offset(s, j) && i != j
    ensures InSlots(s, Offset(s, i)) && Hits(s, Offset(s, i)) >= 2
  {
    HitInSlots(s, i);
    var p, q := Rank(s, i), Rank(s, j);
    assert 0 <= p < Size(s) && 0 <= q < Size(s) && Offsets(s)[p] == Offsets(s)[q] == Offset(s, i) by {
      RankIndices(s, i);
      RankIndices(s, j);
    }
    assert p != q by {
      if p == q {
        RankInjective(s, i, j);
      }
    }
    if p < q {
      TwoPositions(Offsets(s), p, q);
    } else {
      TwoPositions(Offsets(s), q, p);
    }
  }

  /** A slot hit twice is the offset of two different indices. */
  lemma SlotHitTwice(s: Shape, a: int) returns (i: Index, j: Index)
    requires Hits(s, a) >= 2
    ensures InDomain(s, i) && InDomain(s, j) && Offset(s, i) == a && Offset(s, j) == a && i != j
  {
    var p, q := CountTwo(Offsets(s), a);
    IndicesAt(s, p);
    IndicesAt(s, q);
    i, j := Indices(s)[p], Indices(s)[q];
  }

  /** Every slot counted at most once is no slot reached by two indices. */
  lemma CountsInjective(s: Shape)
    ensures (forall a :: FlatMin(s) <= a < FlatMin(s) + FlatExtent(s) ==> Hits(s, a) <= 1) <==> Injective(s)
  {
    if forall a :: FlatMin(s) <= a < FlatMin(s) + FlatExtent(s) ==> Hits(s, a) <= 1 {
      forall i, j | InDomain(s, i) && InDomain(s, j) && Offset(s, i) == Offset(s, j)
        ensures i == j
      {
        if i != j {
          SharedOffset(s, i, j);
        }
      }
    }
    if Injective(s) {
      forall a | FlatMin(s) <= a < FlatMin(s) + FlatExtent(s)
        ensures Hits(s, a) <= 1
      {
        if Hits(s, a) >= 2 {
          var i, j := SlotHitTwice(s, a);
        }
      }
    }
  }

  /** Dense in dimension order: every dimension that has more than one
      coordinate steps by the product of the extents before it. */
  predicate IsDense(s: Shape) {
    forall k :: 0 <= k < |s| && s[k].extent >= 2 ==> s[k].stride == Pitch(Extents(s), k)
  }

  lemma DenseFront(s: Shape)
    requires |s| > 0 && IsDense(s)
    ensures IsDense(Front(s))
  {
    var f := Front(s);
    forall k | 0 <= k < |f| && f[k].extent >= 2
      ensures f[k].stride == Pitch(Extents(f), k)
    {
      assert Extents(f)[..k] == Extents(s)[..k];
      PitchPrefix(Extents(f), Extents(s), k);
    }
  }

  /** In a dense shape an index's offset is the offset of the mins plus the
      index's position in visiting order. */
  lemma {:induction false} DenseOffset(s: Shape, i: Index)
    requires IsDense(s) && InDomain(s, i)
    ensures Offset(s, i) == Offset(s, Mins(s)) + Rank(s, i)
  {
    if |s| > 0 {
      var f, d := Front(s), Last(s);
      assert Offset(f, Front(i)) == Offset(f, Mins(f)) + Rank(f, Front(i)) by {
        FrontInDomain(s, i);
        DenseFront(s);
        DenseOffset(f, Front(i));
      }
      assert Front(Mins(s)) == Mins(f) && Last(Mins(s)) == d.min;
      assert d.stride == Size(f) || Last(i) == d.min by {
        if d.extent >= 2 {
          var n := |s| - 1;
          assert Extents(f)[..n] == Extents(s)[..n];
          PitchPrefix(Extents(f), Extents(s), n);
          PitchSize(f);
        }
      }
      DenseStep(Last(i), d.min, d.stride, Size(f));
    }
  }

  /** The last dimension's share of a dense offset: a dimension with one
      coordinate adds nothing, and any other steps by the front's size. */
  lemma DenseStep(x: int, lo: int, stride: int, m: int)
    requires stride == m || x == lo
    ensures x * stride - lo * stride == (x - lo) * m
  {
    if stride == m {
      assert x * stride - lo * stride == (x - lo) * stride;
    }
  }

  /** With no negative stride where a dimension has two coordinates, the
      lowest offset is the offset of the mins. */
  lemma MinsAreLow(s: Shape)
    requires forall k :: 0 <= k < |s| ==> s[k].extent == 1 || (s[k].extent >= 2 && s[k].stride >= 0)
    ensures LowCorner(s) == Mins(s)
  {
  }

  /** A dense shape is compact and one-to-one: its domain fills its flat
      extent exactly once. */
  lemma DenseLayout(s: Shape)
    requires IsDense(s)
    ensures IsCompact(s) && IsOneToOne(s)
  {
    SizePositive(s);
    if Size(s) > 0 {
      forall i, j | InDomain(s, i) && InDomain(s, j) && Offset(s, i) == Offset(s, j)
        ensures i == j
      {
        DenseInjective(s, i, j);
      }
      DenseCovers(s);
    }
  }

  lemma DenseInjective(s: Shape, i: Index, j: Index)
    requires IsDense(s) && InDomain(s, i) && InDomain(s, j) && Offset(s, i) == Offset(s, j)
    ensures i == j
  {
    assert Rank(s, i) == Rank(s, j) by {
      DenseOffset(s, i);
      DenseOffset(s, j);
    }
    RankInjective(s, i, j);
  }

  lemma DenseCovers(s: Shape)
    requires IsDense(s) && Size(s) > 0
    ensures Covers(s)
  {
    SizePositive(s);
    var b := Offset(s, Mins(s));
    MinsAreLow(s);
    FlatMinAttained(s);
    FlatMaxAttained(s);
    DenseOffset(s, HighCorner(s));
    RankIndices(s, HighCorner(s));
    forall a | InSlots(s, a)
      ensures Hit(s, a)
    {
      var p := a - b;
      IndicesAt(s, p);
      DenseOffset(s, Indices(s)[p]);
    }
  }

  lemma TransposeCorners(s: Shape, order: seq<nat>)
    requires IsPermutation(order, |s|)
    ensures LowCorner(Transpose(s, order)) == PermuteIndex(LowCorner(s), order)
    ensures HighCorner(Transpose(s, order)) == PermuteIndex(HighCorner(s), order)
    ensures Mins(Transpose(s, order)) == PermuteIndex(Mins(s), order)
  {
  }

  /** Transposing keeps flat_min and flat_extent. */
  lemma TransposeSlots(s: Shape, order: seq<nat>)
    requires IsPermutation(order, |s|)
    ensures FlatExtent(Transpose(s, order)) == FlatExtent(s)
    ensures Size(s) > 0 ==> FlatMin(Transpose(s, order)) == FlatMin(s)
  {
    var t := Transpose(s, order);
    TransposeSize(s, order);
    if Size(s) > 0 {
      TransposeCorners(s, order);
      FlatMinAttained(s);
      FlatMinAttained(t);
      FlatMaxAttained(s);
      FlatMaxAttained(t);
      OffsetTranspose(s, order, LowCorner(s));
      OffsetTranspose(s, order, HighCorner(s));
    }
  }

  /** Every index of `s` reappears, permuted, in the transposed shape at the
      same offset; and every index of the transposed shape comes from one. */
  lemma TransposedIndex(s: Shape, order: seq<nat>, j: Index)
    requires IsPermutation(order, |s|) && InDomain(Transpose(s, order), j)
    ensures InDomain(s, UnpermuteIndex(j, order))
    ensures PermuteIndex(UnpermuteIndex(j, order), order) == j
    ensures Offset(s, UnpermuteIndex(j, order)) == Offset(Transpose(s, order), j)
  {
    var i := UnpermuteIndex(j, order);
    InverseIsPermutation(order);
    IndexRoundTrip(j, order);
    DomainTranspose(s, order, i);
    OffsetTranspose(s, order, i);
  }

  lemma TransposePreservesLayout(s: Shape, order: seq<nat>)
    requires IsPermutation(order, |s|)
    ensures Covers(s) ==> Covers(Transpose(s, order))
    ensures Injective(s) ==> Injective(Transpose(s, order))
  {
    var t := Transpose(s, order);
    TransposeSlots(s, order);
    SizePositive(s);
    if Covers(s) {
      forall a | InSlots(t, a)
        ensures Hit(t, a)
      {
        assert InSlots(s, a);
        var i :| InDomain(s, i) && Offset(s, i) == a;
        DomainTranspose(s, order, i);
        OffsetTranspose(s, order, i);
      }
    }
    if Injective(s) {
      forall j1, j2 | InDomain(t, j1) && InDomain(t, j2) && Offset(t, j1) == Offset(t, j2)
        ensures j1 == j2
      {
        TransposedIndex(s, order, j1);
        TransposedIndex(s, order, j2);
      }
    }
  }

  /** Compactness and one-to-one-ness do not depend on the order in which the
      dimensions are listed. */
  lemma TransposeLayout(s: Shape, order: seq<nat>)
    requires IsPermutation(order, |s|)
    ensures IsCompact(Transpose(s, order)) <==> IsCompact(s)
    ensures IsOneToOne(Transpose(s, order)) <==> IsOneToOne(s)
  {
    var t := Transpose(s, order);
    TransposeRoundTrip(s, order);
    TransposePreservesLayout(s, order);
    TransposePreservesLayout(t, Inverse(order));
  }

  /** A shape that is dense once its dimensions are listed in `order` is
      compact and one-to-one. */
  lemma DenseUnderLayout(s: Shape, order: seq<nat>)
    requires IsPermutation(order, |s|) && IsDense(Transpose(s, order))
    ensures IsCompact(s) && IsOneToOne(s)
  {
    DenseLayout(Transpose(s, order));
    TransposeLayout(s, order);
  }

  lemma OffsetsInSlots(s: Shape, p: nat)
    requires p < Size(s)
    ensures InSlots(s, Offsets(s)[p])
  {
    IndicesAt(s, p);
    HitInSlots(s, Indices(s)[p]);
  }

  /** Counting one more offset bumps exactly its counter. */
  lemma Bump(os: seq<int>, p: nat, counts: seq<nat>, lo: int)
    requires p < |os| && 0 <= os[p] - lo < |counts|
    requires forall x :: 0 <= x < |counts| ==> counts[x] == multiset(os[..p])[lo + x]
    ensures var c := counts[os[p] - lo := counts[os[p] - lo] + 1];
      forall x :: 0 <= x < |c| ==> c[x] == multiset(os[..p + 1])[lo + x]
  {
    assert os[..p + 1] == os[..p] + [os[p]];
  }

  /** A histogram of the slots decides both layout predicates. */
  lemma HistogramDecides(s: Shape, addresses: seq<nat>)
    requires |addresses| == FlatExtent(s)
    requires forall x :: 0 <= x < |addresses| ==> addresses[x] == Hits(s, FlatMin(s) + x)
    ensures IsCompact(s) <==> forall x :: 0 <= x < |addresses| ==> addresses[x] >= 1
    ensures IsOneToOne(s) <==> forall x :: 0 <= x < |addresses| ==> addresses[x] <= 1
  {
    var lo := FlatMin(s);
    assert forall a :: lo <= a < lo + |addresses| ==> Hits(s, a) == addresses[a - lo];
  }

  /** One counter per slot lo .. lo + n - 1, counting the offsets that land
      on it. */
  method Histogram(os: seq<int>, lo: int, n: nat) returns (counts: seq<nat>)
    requires forall p :: 0 <= p < |os| ==> lo <= os[p] < lo + n
    ensures |counts| == n
    ensures forall x :: 0 <= x < n ==> counts[x] == multiset(os)[lo + x]
  {
    counts := seq(n, _ => 0);
    var p := 0;
    assert multiset(os[..p]) == multiset{};
    while p < |os|
      invariant 0 <= p <= |os|
      invariant |counts| == n
      invariant forall x :: 0 <= x < n ==> counts[x] == multiset(os[..p])[lo + x]
    {
      Bump(os, p, counts, lo);
      var x := os[p] - lo;
      counts := counts[x := counts[x] + 1];
      p := p + 1;
    }
    assert os[..p] == os;
  }

  /** The address histogram of test/shape.cpp:484-498: one counter per slot of
      the flat extent, bumped once for every index of the domain. Its counters
      decide both is_compact and is_one_to_one. */
  method CountAddresses(s: Shape) returns (addresses: seq<nat>)
    ensures |addresses| == FlatExtent(s)
    ensures forall x :: 0 <= x < |addresses| ==> addresses[x] == Hits(s, FlatMin(s) + x)
    ensures IsCompact(s) <==> forall x :: 0 <= x < |addresses| ==> addresses[x] >= 1
    ensures IsOneToOne(s) <==> forall x :: 0 <= x < |addresses| ==> addresses[x] <= 1
  {
    forall p | 0 <= p < Size(s)
      ensures InSlots(s, Offsets(s)[p])
    {
      OffsetsInSlots(s, p);
    }
    addresses := Histogram(Offsets(s), FlatMin(s), FlatExtent(s));
    HistogramDecides(s, addresses);
  }

  /** A dense packing in `order` is dense once its dimensions are listed in
      that order. */
  lemma PackedIsDense(spec: ShapeSpec, order: seq<nat>)
    requires IsPermutation(order, |spec|)
    ensures IsDense(Transpose(Packed(spec, order), order))
  {
    InverseIsPermutation(order);
    var t := Transpose(Packed(spec, order), order);
    assert Extents(t) == Pick(SpecExtents(spec), order);
  }

  /** A spec that packs in `order` resolves to a compact, one-to-one shape. */
  lemma PackingLayout(spec: ShapeSpec, order: seq<nat>)
    requires IsPermutation(order, |spec|) && PacksInOrder(spec, order)
    ensures IsCompact(Resolve(spec)) && IsOneToOne(Resolve(spec))
  {
    PackedResolve(spec, order);
    PackedIsDense(spec, order);
    DenseUnderLayout(Resolve(spec), order);
  }

  /** Resolving unknown strides gives a dense shape (test/shape.cpp:89-136),
      so its domain fills its flat extent exactly once. */
  lemma AllUnknownLayout(spec: ShapeSpec)
    requires AllUnknown(spec)
    ensures IsDense(Resolve(spec))
    ensures IsCompact(Resolve(spec)) && IsOneToOne(Resolve(spec))
  {
    AllUnknownResolve(spec);
    assert Extents(Resolve(spec)) == SpecExtents(spec);
    DenseLayout(Resolve(spec));
  }

  /** A shape with one dimension fixed at stride 1 and the rest unknown keeps
      that stride and resolves to a compact, one-to-one shape
      (test/shape.cpp:143-161). */
  lemma OneDenseStride(spec: ShapeSpec, m: nat)
    requires m < |spec| && spec[m].stride == Some(1)
    requires forall k :: 0 <= k < |spec| && k != m ==> spec[k].stride.None?
    ensures Resolve(spec)[m].stride == 1
    ensures IsCompact(Resolve(spec)) && IsOneToOne(Resolve(spec))
  {
    OneKnownPacks(spec, m);
    PackingLayout(spec, MoveToFront(m, |spec|));
  }

  function Factorial(n: nat): nat {
    if n == 0 then 1 else n * Factorial(n - 1)
  }

  /** The family test_one_dense_stride builds: dimension d has extent d + 1,
      and only dimension `known` has a stride, 1. */
  function OneDenseSpec(n: nat, known: nat): (spec: ShapeSpec)
    ensures |spec| == n
  {
    seq(n, d requires 0 <= d < n => DimSpec(0, d + 1, if d == known then Some(1) else None))
  }

  /** A shape whose extents are 1, 2, ..., n has n! indices. */
  lemma {:induction false} FactorialSize(s: Shape)
    requires forall d :: 0 <= d < |s| ==> s[d].extent == d + 1
    ensures Size(s) == Factorial(|s|)
  {
    if |s| > 0 {
      FactorialSize(Front(s));
    }
  }

  lemma OneDenseSize(n: nat, known: nat)
    ensures Size(Resolve(OneDenseSpec(n, known))) == Factorial(n)
  {
    FactorialSize(Resolve(OneDenseSpec(n, known)));
  }

  /** test_one_dense_stride for every rank: the shape has rank! elements,
      keeps the known stride 1, and is compact and one-to-one. */
  lemma OneDenseStrideFamily(n: nat, known: nat)
    requires known < n
    ensures Size(Resolve(OneDenseSpec(n, known))) == Factorial(n)
    ensures Resolve(OneDenseSpec(n, known))[known].stride == 1
    ensures IsCompact(Resolve(OneDenseSpec(n, known))) && IsOneToOne(Resolve(OneDenseSpec(n, known)))
  {
    OneDenseSize(n, known);
    OneDenseStride(OneDenseSpec(n, known), known);
  }

  /** Without fixed strides make_compact yields a compact, one-to-one shape. */
  lemma MakeCompactLayout(s: Shape, fixed: seq<bool>)
    requires |fixed| == |s| && forall k :: 0 <= k < |s| ==> !fixed[k]
    ensures IsCompact(MakeCompact(s, fixed)) && IsOneToOne(MakeCompact(s, fixed))
  {
    AllUnknownLayout(Forget(s, fixed));
  }
}
