/** Stride resolution: filling in the strides a shape was constructed without. */
module Resolution {
  import opened Wrappers
  import opened Dims
  import opened Shapes
  import opened Perms

  /** A dimension as constructed: its stride may still be unknown. */
  datatype DimSpec = DimSpec(min: int, extent: nat, stride: Option<int>)

  type ShapeSpec = seq<DimSpec>

  function Abs(x: int): nat {
    if x >= 0 then x else -x
  }

  /** A resolved dimension viewed as a constructed one with a known stride. */
  function Lift(d: Dim): DimSpec {
    DimSpec(d.min, d.extent, Some(d.stride))
  }

  function LiftAll(s: Shape): (r: ShapeSpec)
    ensures |r| == |s| && forall k :: 0 <= k < |s| ==> r[k] == Lift(s[k])
  {
    seq(|s|, k requires 0 <= k < |s| => Lift(s[k]))
  }

  /** The smallest stride that steps over the whole of a known dimension: the
      candidate that known dimension contributes (at least 1). */
  function Reach(d: DimSpec): nat
    requires d.stride.Some?
  {
    var r := Abs(d.stride.value) * d.extent;
    if r >= 1 then r else 1
  }

  /** A dimension of extent `e` at stride `c` does not interleave with `d`:
      either all of it fits within one step of `d`, or it starts beyond the
      whole of `d`. A dimension whose stride is unknown constrains nothing. */
  predicate Avoids(c: int, e: nat, d: DimSpec) {
    d.stride.None? || c * e <= Abs(d.stride.value) || Abs(d.stride.value) * d.extent <= c
  }

  predicate AvoidsAll(c: int, e: nat, dims: ShapeSpec) {
    forall k :: 0 <= k < |dims| ==> Avoids(c, e, dims[k])
  }

  /** The strides tried for an unknown dimension: 1, and the reach of every
      dimension whose stride is known. */
  function Candidates(dims: ShapeSpec): (cs: seq<int>)
    ensures 1 in cs
    ensures forall c :: c in cs ==> c >= 1
  {
    if |dims| == 0 then [1]
    else Candidates(Front(dims)) + (if Last(dims).stride.Some? then [Reach(Last(dims))] else [])
  }

  /** The largest candidate. */
  function Largest(cs: seq<int>): (m: int)
    requires |cs| > 0
    ensures m in cs && forall c :: c in cs ==> c <= m
  {
    assert cs == [cs[0]] + cs[1..];
    if |cs| == 1 then cs[0] else MaxOf(cs[0], Largest(cs[1..]))
  }

  /** The smallest of `best` and the candidates in `cs` that avoid every
      dimension. */
  function Smallest(cs: seq<int>, e: nat, dims: ShapeSpec, best: int): (r: int)
    ensures r <= best
    ensures r == best || (r in cs && AvoidsAll(r, e, dims))
    ensures forall c :: c in cs && AvoidsAll(c, e, dims) ==> r <= c
  {
    if |cs| == 0 then best
    else Smallest(cs[1..], e, dims, if cs[0] < best && AvoidsAll(cs[0], e, dims) then cs[0] else best)
  }

  lemma CandidateMembers(dims: ShapeSpec, c: int)
    ensures c in Candidates(dims) <==> c == 1 || exists k :: 0 <= k < |dims| && dims[k].stride.Some? && c == Reach(dims[k])
  {
    if |dims| > 0 {
      CandidateMembers(Front(dims), c);
      if exists k :: 0 <= k < |dims| && dims[k].stride.Some? && c == Reach(dims[k]) {
        var k :| 0 <= k < |dims| && dims[k].stride.Some? && c == Reach(dims[k]);
        if k < |dims| - 1 {
          assert Front(dims)[k] == dims[k];
        }
      }
    }
  }

  /** The largest candidate avoids every known dimension. */
  lemma LargestAvoids(e: nat, dims: ShapeSpec)
    ensures AvoidsAll(Largest(Candidates(dims)), e, dims)
  {
    var m := Largest(Candidates(dims));
    forall k | 0 <= k < |dims| && dims[k].stride.Some?
      ensures Avoids(m, e, dims[k])
    {
      CandidateMembers(dims, Reach(dims[k]));
    }
  }

  /** The stride chosen for an unknown dimension of extent `e`: the smallest
      candidate that avoids every dimension whose stride is known. */
  function FindStride(e: nat, dims: ShapeSpec): (r: int)
    ensures r >= 1 && r in Candidates(dims)
    ensures AvoidsAll(r, e, dims)
    ensures forall c :: c in Candidates(dims) && AvoidsAll(c, e, dims) ==> r <= c
  {
    LargestAvoids(e, dims);
    Smallest(Candidates(dims), e, dims, Largest(Candidates(dims)))
  }

  /** Resolves the unknown strides of dimensions k, k + 1, ... in turn; each
      resolved dimension constrains the ones after it. */
  function ResolveFrom(dims: ShapeSpec, k: nat): (r: ShapeSpec)
    requires k <= |dims|
    ensures |r| == |dims|
    ensures forall j :: 0 <= j < |dims| ==> r[j].min == dims[j].min && r[j].extent == dims[j].extent
    ensures forall j :: 0 <= j < |dims| && (j < k || dims[j].stride.Some?) ==> r[j] == dims[j]
    ensures forall j :: k <= j < |dims| ==> r[j].stride.Some?
    decreases |dims| - k
  {
    if k == |dims| then dims
    else if dims[k].stride.Some? then ResolveFrom(dims, k + 1)
    else ResolveFrom(dims[k := dims[k].(stride := Some(FindStride(dims[k].extent, dims)))], k + 1)
  }

  /** `shape::resolve()`: every stride known; known strides, mins and extents
      are kept. */
  function Resolve(spec: ShapeSpec): (s: Shape)
    ensures |s| == |spec|
    ensures forall k :: 0 <= k < |spec| ==> s[k].min == spec[k].min && s[k].extent == spec[k].extent
    ensures forall k :: 0 <= k < |spec| && spec[k].stride.Some? ==> s[k].stride == spec[k].stride.value
  {
    var r := ResolveFrom(spec, 0);
    seq(|r|, k requires 0 <= k < |r| => Dim(r[k].min, r[k].extent, r[k].stride.value))
  }

  /** FindStride is pinned down by its three properties. */
  lemma FindStrideIs(e: nat, dims: ShapeSpec, v: int)
    requires v in Candidates(dims) && AvoidsAll(v, e, dims)
    requires forall c :: c in Candidates(dims) && c < v ==> !AvoidsAll(c, e, dims)
    ensures FindStride(e, dims) == v
  {
  }

  /** The resolver's state when it reaches dimension k: the first k dimensions
      as resolved, the rest as constructed. */
  function StateAt(spec: ShapeSpec, s: Shape, k: nat): ShapeSpec
    requires k <= |spec| && |s| == |spec|
  {
    LiftAll(s[..k]) + spec[k..]
  }

  /** `s` is a resolution of `spec` step by step: it keeps mins, extents and
      known strides, and gives each unknown dimension the stride FindStride
      picks against the state at that dimension. */
  predicate StepwiseResolved(spec: ShapeSpec, s: Shape) {
    && |s| == |spec|
    && (forall k :: 0 <= k < |spec| ==> s[k].min == spec[k].min && s[k].extent == spec[k].extent)
    && (forall k :: 0 <= k < |spec| && spec[k].stride.Some? ==> s[k].stride == spec[k].stride.value)
    && (forall k :: 0 <= k < |spec| && spec[k].stride.None? ==>
          s[k].stride == FindStride(spec[k].extent, StateAt(spec, s, k)))
  }

  /** The state after the resolver has handled dimension k. */
  function Advance(dims: ShapeSpec, k: nat): ShapeSpec
    requires k < |dims|
  {
    if dims[k].stride.Some? then dims else dims[k := dims[k].(stride := Some(FindStride(dims[k].extent, dims)))]
  }

  lemma ResolveFromUnfold(dims: ShapeSpec, k: nat)
    requires k < |dims|
    ensures ResolveFrom(dims, k) == ResolveFrom(Advance(dims, k), k + 1)
  {
  }

  lemma StateAtIndex(spec: ShapeSpec, s: Shape, k: nat, j: nat)
    requires k <= |spec| == |s| && j < |spec|
    ensures |StateAt(spec, s, k)| == |spec|
    ensures StateAt(spec, s, k)[j] == if j < k then Lift(s[j]) else spec[j]
  {
  }

  /** Handling dimension k of the state at k gives the state at k + 1. */
  lemma StateAdvance(spec: ShapeSpec, s: Shape, k: nat)
    requires k < |spec| == |s|
    requires s[k].min == spec[k].min && s[k].extent == spec[k].extent
    requires spec[k].stride.Some? ==> s[k].stride == spec[k].stride.value
    requires spec[k].stride.None? ==> s[k].stride == FindStride(spec[k].extent, StateAt(spec, s, k))
    ensures Advance(StateAt(spec, s, k), k) == StateAt(spec, s, k + 1)
  {
    var dims := StateAt(spec, s, k);
    var after, next := Advance(dims, k), StateAt(spec, s, k + 1);
    StateAtIndex(spec, s, k, k);
    assert after[k] == Lift(s[k]);
    forall j | 0 <= j < |spec|
      ensures after[j] == next[j]
    {
      StateAtIndex(spec, s, k, j);
      StateAtIndex(spec, s, k + 1, j);
    }
    StateAtIndex(spec, s, k + 1, k);
  }

  lemma {:induction false} ResolveFromStepwise(spec: ShapeSpec, s: Shape, k: nat)
    requires k <= |spec| && StepwiseResolved(spec, s)
    ensures ResolveFrom(StateAt(spec, s, k), k) == LiftAll(s)
    decreases |spec| - k
  {
    if k == |spec| {
      assert StateAt(spec, s, k) == LiftAll(s);
    } else {
      var dims, next := StateAt(spec, s, k), StateAt(spec, s, k + 1);
      assert ResolveFrom(dims, k) == ResolveFrom(next, k + 1) by {
        ResolveFromUnfold(dims, k);
        assert s[k].min == spec[k].min && s[k].extent == spec[k].extent;
        assert spec[k].stride.Some? ==> s[k].stride == spec[k].stride.value;
        StateAdvance(spec, s, k);
      }
      ResolveFromStepwise(spec, s, k + 1);
    }
  }

  lemma {:induction false} ResolveFromSteps(dims: ShapeSpec, k: nat, j: nat)
    requires k <= j < |dims| && dims[j].stride.None?
    ensures var r := ResolveFrom(dims, k);
      r[j].stride == Some(FindStride(dims[j].extent, r[..j] + dims[j..]))
    decreases |dims| - k
  {
    if dims[k].stride.Some? {
      ResolveFromSteps(dims, k + 1, j);
    } else if j == k {
      ResolveFromHere(dims, k);
    } else {
      var dims' := dims[k := dims[k].(stride := Some(FindStride(dims[k].extent, dims)))];
      ResolveFromSteps(dims', k + 1, j);
      assert dims'[j..] == dims[j..];
    }
  }

  lemma ResolveFromHere(dims: ShapeSpec, k: nat)
    requires k < |dims| && dims[k].stride.None?
    ensures var r := ResolveFrom(dims, k);
      r[k].stride == Some(FindStride(dims[k].extent, r[..k] + dims[k..]))
  {
    var v := FindStride(dims[k].extent, dims);
    var r := ResolveFrom(Advance(dims, k), k + 1);
    ResolveFromUnfold(dims, k);
    assert r[k] == Advance(dims, k)[k];
    KeepsPrefix(dims, Advance(dims, k), r, k);
  }

  /** A state that agrees with `dims` before k, followed by `dims` from k on,
      is `dims`. */
  lemma KeepsPrefix(dims: ShapeSpec, dims': ShapeSpec, r: ShapeSpec, k: nat)
    requires k <= |dims| == |dims'| == |r|
    requires forall j :: 0 <= j < k ==> dims'[j] == dims[j] && r[j] == dims'[j]
    ensures r[..k] + dims[k..] == dims
  {
    assert r[..k] == dims[..k];
    assert dims == dims[..k] + dims[k..];
  }

  /** Resolve is characterised by its steps: the resolution of `spec` is the
      one shape that resolves it step by step. */
  lemma ResolveIffStepwise(spec: ShapeSpec, s: Shape)
    ensures StepwiseResolved(spec, s) <==> s == Resolve(spec)
  {
    if StepwiseResolved(spec, s) {
      ResolveFromStepwise(spec, s, 0);
      assert StateAt(spec, s, 0) == spec;
    }
    if s == Resolve(spec) {
      var r := ResolveFrom(spec, 0);
      assert LiftAll(s) == r;
      forall k | 0 <= k < |spec| && spec[k].stride.None?
        ensures s[k].stride == FindStride(spec[k].extent, StateAt(spec, s, k))
      {
        ResolveFromSteps(spec, 0, k);
        assert r[..k] == LiftAll(s[..k]);
      }
    }
  }

  function Contribution(d: DimSpec): seq<int> {
    if d.stride.Some? then [Reach(d)] else []
  }

  lemma CandidatesOf3(a: DimSpec, b: DimSpec, c: DimSpec)
    ensures Candidates([a]) == [1] + Contribution(a)
    ensures Candidates([a, b]) == [1] + Contribution(a) + Contribution(b)
    ensures Candidates([a, b, c]) == [1] + Contribution(a) + Contribution(b) + Contribution(c)
  {
    assert Front([a, b, c]) == [a, b];
    assert Front([a, b]) == [a];
    assert Front([a]) == [];
  }

  /** The automatic strides of test/shape.cpp:177-179: a lone unknown
      dimension gets stride 1, and dense (5, 10) gets strides (1, 5). */
  lemma AutoStridesDense()
    ensures Resolve([DimSpec(3, 5, None)]) == [Dim(3, 5, 1)]
    ensures Resolve([DimSpec(0, 5, None), DimSpec(0, 10, None)]) == [Dim(0, 5, 1), Dim(0, 10, 5)]
  {
    var spec1 := [DimSpec(3, 5, None)];
    var s1 := [Dim(3, 5, 1)];
    assert StepwiseResolved(spec1, s1) by {
      assert StateAt(spec1, s1, 0) == spec1;
      NoKnownStride(5, spec1);
    }
    ResolveIffStepwise(spec1, s1);
    AutoStridesDense2();
  }

  lemma AutoStridesDense2()
    ensures Resolve([DimSpec(0, 5, None), DimSpec(0, 10, None)]) == [Dim(0, 5, 1), Dim(0, 10, 5)]
  {
    var spec := [DimSpec(0, 5, None), DimSpec(0, 10, None)];
    var s := [Dim(0, 5, 1), Dim(0, 10, 5)];
    assert StepwiseResolved(spec, s) by {
      forall k | 0 <= k < |spec| && spec[k].stride.None?
        ensures s[k].stride == FindStride(spec[k].extent, StateAt(spec, s, k))
      {
        if k == 0 {
          assert StateAt(spec, s, 0) == spec;
          NoKnownStride(5, spec);
        } else {
          assert StateAt(spec, s, 1) == [DimSpec(0, 5, Some(1)), DimSpec(0, 10, None)];
          DenseStep();
        }
      }
    }
    ResolveIffStepwise(spec, s);
  }

  /** With no known stride the only candidate is 1. */
  lemma NoKnownStride(e: nat, dims: ShapeSpec)
    requires forall k :: 0 <= k < |dims| ==> dims[k].stride.None?
    ensures FindStride(e, dims) == 1
  {
    NoKnownCandidates(dims);
  }

  lemma NoKnownCandidates(dims: ShapeSpec)
    requires forall k :: 0 <= k < |dims| ==> dims[k].stride.None?
    ensures Candidates(dims) == [1]
  {
    if |dims| > 0 {
      NoKnownCandidates(Front(dims));
    }
  }

  lemma DenseStep()
    ensures FindStride(10, [DimSpec(0, 5, Some(1)), DimSpec(0, 10, None)]) == 5
  {
    var dims := [DimSpec(0, 5, Some(1)), DimSpec(0, 10, None)];
    CandidatesOf3(dims[0], dims[1], dims[1]);
    assert !Avoids(1, 10, dims[0]);
    FindStrideIs(10, dims, 5);
  }

  /** The interleaved cases of test/shape.cpp:186-193: an unknown x of extent 5
      beside y = (0, 4, row) and z = (0, 3, 1) gets stride 3 when the row stride
      is 20 or 15, and 56 when it is 14, where stride 3 would overlap y. */
  lemma AutoStridesInterleaved()
    ensures Resolve([DimSpec(0, 5, None), DimSpec(0, 4, Some(20)), DimSpec(0, 3, Some(1))])
      == [Dim(0, 5, 3), Dim(0, 4, 20), Dim(0, 3, 1)]
    ensures Resolve([DimSpec(0, 5, None), DimSpec(0, 4, Some(15)), DimSpec(0, 3, Some(1))])
      == [Dim(0, 5, 3), Dim(0, 4, 15), Dim(0, 3, 1)]
    ensures Resolve([DimSpec(0, 5, None), DimSpec(0, 4, Some(14)), DimSpec(0, 3, Some(1))])
      == [Dim(0, 5, 56), Dim(0, 4, 14), Dim(0, 3, 1)]
  {
    InterleavedCase(20, 3);
    InterleavedCase(15, 3);
    InterleavedCase(14, 56);
  }

  lemma InterleavedStep(row: int, x: int)
    requires ((row == 20 || row == 15) && x == 3) || (row == 14 && x == 56)
    ensures FindStride(5, [DimSpec(0, 5, None), DimSpec(0, 4, Some(row)), DimSpec(0, 3, Some(1))]) == x
  {
    var dims := [DimSpec(0, 5, None), DimSpec(0, 4, Some(row)), DimSpec(0, 3, Some(1))];
    CandidatesOf3(dims[0], dims[1], dims[2]);
    assert !Avoids(1, 5, dims[2]);
    if row == 14 {
      assert !Avoids(3, 5, dims[1]);
    }
    FindStrideIs(5, dims, x);
  }

  lemma InterleavedCase(row: int, x: int)
    requires ((row == 20 || row == 15) && x == 3) || (row == 14 && x == 56)
    ensures Resolve([DimSpec(0, 5, None), DimSpec(0, 4, Some(row)), DimSpec(0, 3, Some(1))])
      == [Dim(0, 5, x), Dim(0, 4, row), Dim(0, 3, 1)]
  {
    var spec := [DimSpec(0, 5, None), DimSpec(0, 4, Some(row)), DimSpec(0, 3, Some(1))];
    var s := [Dim(0, 5, x), Dim(0, 4, row), Dim(0, 3, 1)];
    InterleavedStepwise(row, x);
    ResolveIffStepwise(spec, s);
  }

  lemma InterleavedStepwise(row: int, x: int)
    requires ((row == 20 || row == 15) && x == 3) || (row == 14 && x == 56)
    ensures StepwiseResolved([DimSpec(0, 5, None), DimSpec(0, 4, Some(row)), DimSpec(0, 3, Some(1))],
      [Dim(0, 5, x), Dim(0, 4, row), Dim(0, 3, 1)])
  {
    var spec := [DimSpec(0, 5, None), DimSpec(0, 4, Some(row)), DimSpec(0, 3, Some(1))];
    var s := [Dim(0, 5, x), Dim(0, 4, row), Dim(0, 3, 1)];
    assert StateAt(spec, s, 0) == spec;
    InterleavedStep(row, x);
  }

  /** The negative-stride case of test/shape.cpp:78-81: (10, 5, (0, 3, -1))
      resolves x to 3 and y to 30. */
  lemma AutoStridesNegative()
    ensures Resolve([DimSpec(0, 10, None), DimSpec(0, 5, None), DimSpec(0, 3, Some(-1))])
      == [Dim(0, 10, 3), Dim(0, 5, 30), Dim(0, 3, -1)]
  {
    var spec := [DimSpec(0, 10, None), DimSpec(0, 5, None), DimSpec(0, 3, Some(-1))];
    var s := [Dim(0, 10, 3), Dim(0, 5, 30), Dim(0, 3, -1)];
    assert StepwiseResolved(spec, s) by {
      forall k | 0 <= k < |spec| && spec[k].stride.None?
        ensures s[k].stride == FindStride(spec[k].extent, StateAt(spec, s, k))
      {
        if k == 0 {
          assert StateAt(spec, s, 0) == spec;
          NegativeStep0();
        } else {
          assert StateAt(spec, s, 1) == [DimSpec(0, 10, Some(3)), DimSpec(0, 5, None), DimSpec(0, 3, Some(-1))];
          NegativeStep1();
        }
      }
    }
    ResolveIffStepwise(spec, s);
  }

  lemma NegativeStep0()
    ensures FindStride(10, [DimSpec(0, 10, None), DimSpec(0, 5, None), DimSpec(0, 3, Some(-1))]) == 3
  {
    var dims := [DimSpec(0, 10, None), DimSpec(0, 5, None), DimSpec(0, 3, Some(-1))];
    CandidatesOf3(dims[0], dims[1], dims[2]);
    assert !Avoids(1, 10, dims[2]);
    FindStrideIs(10, dims, 3);
  }

  lemma NegativeStep1()
    ensures FindStride(5, [DimSpec(0, 10, Some(3)), DimSpec(0, 5, None), DimSpec(0, 3, Some(-1))]) == 30
  {
    var dims := [DimSpec(0, 10, Some(3)), DimSpec(0, 5, None), DimSpec(0, 3, Some(-1))];
    CandidatesOf3(dims[0], dims[1], dims[2]);
    assert !Avoids(1, 5, dims[2]);
    assert !Avoids(3, 5, dims[0]);
    FindStrideIs(5, dims, 30);
  }

  /** The extents of a shape as constructed. */
  function SpecExtents(spec: ShapeSpec): (es: seq<nat>)
    ensures |es| == |spec| && forall k :: 0 <= k < |spec| ==> es[k] == spec[k].extent
  {
    seq(|spec|, k requires 0 <= k < |spec| => spec[k].extent)
  }

  /** Below any pitch smaller than Pitch(k) there is a dimension of extent at
      least 2 whose own pitch is exactly that value. */
  lemma {:induction false} Blocker(es: seq<nat>, i: nat, k: nat) returns (j: nat)
    requires i <= k <= |es| && Pitch(es, i) < Pitch(es, k)
    ensures i <= j < k && Pitch(es, j) == Pitch(es, i) && es[j] >= 2
    decreases k - i
  {
    if es[i] >= 2 {
      j := i;
    } else {
      assert Pitch(es, i + 1) == Pitch(es, i);
      j := Blocker(es, i + 1, k);
    }
  }

  /** Pitch(k), when above 1, was reached by the last dimension of extent at
      least 2 before k. */
  lemma {:induction false} LastGrowth(es: seq<nat>, k: nat) returns (j: nat)
    requires k <= |es| && Pitch(es, k) > 1
    ensures j < k && es[j] >= 2 && Pitch(es, j + 1) == Pitch(es, k)
  {
    if es[k - 1] >= 2 {
      j := k - 1;
    } else {
      j := LastGrowth(es, k - 1);
    }
  }

  /** The stride dimension k gets when the dimensions are packed densely in
      `order` (innermost first): the product of max(1, extent) over the
      dimensions before it in that order, or 1 for a dimension of extent 0 or 1
      (which any stride covers). */
  function PackedStride(spec: ShapeSpec, order: seq<nat>, k: nat): nat
    requires IsPermutation(order, |spec|) && k < |spec|
  {
    InverseIsPermutation(order);
    if spec[k].extent >= 2 then Pitch(Pick(SpecExtents(spec), order), Inverse(order)[k]) else 1
  }

  function Packed(spec: ShapeSpec, order: seq<nat>): (s: Shape)
    requires IsPermutation(order, |spec|)
    ensures |s| == |spec|
    ensures forall k :: 0 <= k < |spec| ==> s[k] == Dim(spec[k].min, spec[k].extent, PackedStride(spec, order, k))
  {
    seq(|spec|, k requires 0 <= k < |spec| => Dim(spec[k].min, spec[k].extent, PackedStride(spec, order, k)))
  }

  predicate AllUnknown(spec: ShapeSpec) {
    forall k :: 0 <= k < |spec| ==> spec[k].stride.None?
  }

  /** Resolving visits the dimensions so that packing in `order` comes out:
      every known stride is already the packed one, and when an unknown
      dimension is reached the dimensions already resolved or known are exactly
      those before it in `order`. */
  predicate PacksInOrder(spec: ShapeSpec, order: seq<nat>)
    requires IsPermutation(order, |spec|)
  {
    && (forall k :: 0 <= k < |spec| && spec[k].stride.Some? ==> spec[k].stride.value == PackedStride(spec, order, k))
    && (forall k, j :: 0 <= k < |spec| && 0 <= j < |spec| && j != k && spec[k].stride.None? ==>
          ((j < k || spec[j].stride.Some?) <==> Inverse(order)[j] < Inverse(order)[k]))
  }

  /** What the resolver sees of dimension j when it reaches the unknown
      dimension k of a spec that packs in `order`. */
  lemma PackedState(spec: ShapeSpec, order: seq<nat>, k: nat, j: nat)
    requires IsPermutation(order, |spec|) && PacksInOrder(spec, order)
    requires k < |spec| && spec[k].stride.None? && j < |spec| && j != k
    ensures var st := StateAt(spec, Packed(spec, order), k);
      && (st[j].stride.Some? <==> Inverse(order)[j] < Inverse(order)[k])
      && (st[j].stride.Some? ==> st[j].stride == Some(PackedStride(spec, order, j)))
      && (st[j].stride.Some? ==>
            Reach(st[j]) == if spec[j].extent >= 2 then Pitch(Pick(SpecExtents(spec), order), Inverse(order)[j] + 1) else 1)
  {
    var st := StateAt(spec, Packed(spec, order), k);
    InverseIsPermutation(order);
    if j < k {
      assert st[j] == Lift(Packed(spec, order)[j]);
    } else {
      assert st[j] == spec[j];
    }
    var es := Pick(SpecExtents(spec), order);
    assert es[Inverse(order)[j]] == spec[j].extent;
  }

  /** The packed stride avoids every dimension the resolver can see. */
  lemma PackedAvoids(spec: ShapeSpec, order: seq<nat>, k: nat)
    requires IsPermutation(order, |spec|) && PacksInOrder(spec, order)
    requires k < |spec| && spec[k].stride.None?
    ensures AvoidsAll(PackedStride(spec, order, k), spec[k].extent, StateAt(spec, Packed(spec, order), k))
  {
    var st := StateAt(spec, Packed(spec, order), k);
    forall j | 0 <= j < |st|
      ensures Avoids(PackedStride(spec, order, k), spec[k].extent, st[j])
    {
      PackedAvoidsOne(spec, order, k, j);
    }
  }

  lemma PackedAvoidsOne(spec: ShapeSpec, order: seq<nat>, k: nat, j: nat)
    requires IsPermutation(order, |spec|) && PacksInOrder(spec, order)
    requires k < |spec| && spec[k].stride.None? && j < |spec|
    ensures Avoids(PackedStride(spec, order, k), spec[k].extent, StateAt(spec, Packed(spec, order), k)[j])
  {
    InverseIsPermutation(order);
    var st := StateAt(spec, Packed(spec, order), k);
    var e := spec[k].extent;
    if j == k {
      assert st[k] == spec[k];
    } else {
      PackedState(spec, order, k, j);
      if st[j].stride.Some? && e >= 2 && spec[j].extent >= 2 {
        PitchMono(Pick(SpecExtents(spec), order), Inverse(order)[j] + 1, Inverse(order)[k]);
      }
    }
  }

  /** The packed stride is one of the candidates. */
  lemma PackedCandidate(spec: ShapeSpec, order: seq<nat>, k: nat)
    requires IsPermutation(order, |spec|) && PacksInOrder(spec, order)
    requires k < |spec| && spec[k].stride.None?
    ensures PackedStride(spec, order, k) in Candidates(StateAt(spec, Packed(spec, order), k))
  {
    InverseIsPermutation(order);
    var st := StateAt(spec, Packed(spec, order), k);
    var t := PackedStride(spec, order, k);
    CandidateMembers(st, t);
    if t > 1 {
      var es := Pick(SpecExtents(spec), order);
      var i := LastGrowth(es, Inverse(order)[k]);
      PackedState(spec, order, k, order[i]);
    }
  }

  /** Every candidate the resolver sees at k is a pitch of the order up to k. */
  lemma CandidateIsPitch(spec: ShapeSpec, order: seq<nat>, k: nat, c: int) returns (i0: nat)
    requires IsPermutation(order, |spec|) && PacksInOrder(spec, order)
    requires k < |spec| && spec[k].stride.None?
    requires c in Candidates(StateAt(spec, Packed(spec, order), k))
    ensures i0 <= Inverse(order)[k] && c == Pitch(Pick(SpecExtents(spec), order), i0)
  {
    InverseIsPermutation(order);
    var st := StateAt(spec, Packed(spec, order), k);
    CandidateMembers(st, c);
    i0 := 0;
    if c != 1 {
      var j :| 0 <= j < |st| && st[j].stride.Some? && c == Reach(st[j]);
      assert st[k] == spec[k];
      PackedState(spec, order, k, j);
      if spec[j].extent >= 2 {
        i0 := Inverse(order)[j] + 1;
      }
    }
  }

  /** No candidate below the packed stride avoids every visible dimension:
      the dimension whose pitch it equals is in the way. */
  lemma PackedMinimal(spec: ShapeSpec, order: seq<nat>, k: nat, c: int)
    requires IsPermutation(order, |spec|) && PacksInOrder(spec, order)
    requires k < |spec| && spec[k].stride.None?
    requires c in Candidates(StateAt(spec, Packed(spec, order), k)) && c < PackedStride(spec, order, k)
    ensures !AvoidsAll(c, spec[k].extent, StateAt(spec, Packed(spec, order), k))
  {
    InverseIsPermutation(order);
    var es := Pick(SpecExtents(spec), order);
    var i0 := CandidateIsPitch(spec, order, k, c);
    var b := Blocker(es, i0, Inverse(order)[k]);
    Blocks(spec, order, k, b);
  }

  /** A visible dimension of extent at least 2 blocks its own pitch. */
  lemma Blocks(spec: ShapeSpec, order: seq<nat>, k: nat, b: nat)
    requires IsPermutation(order, |spec|) && PacksInOrder(spec, order)
    requires k < |spec| && spec[k].stride.None? && spec[k].extent >= 2
    requires b < Inverse(order)[k] && Pick(SpecExtents(spec), order)[b] >= 2
    ensures !Avoids(Pitch(Pick(SpecExtents(spec), order), b), spec[k].extent, StateAt(spec, Packed(spec, order), k)[order[b]])
  {
    InverseIsPermutation(order);
    var es := Pick(SpecExtents(spec), order);
    var c := Pitch(es, b);
    PackedState(spec, order, k, order[b]);
    MulMono(2, spec[k].extent, c);
    MulMono(2, es[b], c);
  }

  /** The stride of the unknown dimension k that resolve picks is its packed
      stride. */
  lemma PackedStep(spec: ShapeSpec, order: seq<nat>, k: nat)
    requires IsPermutation(order, |spec|) && PacksInOrder(spec, order)
    requires k < |spec| && spec[k].stride.None?
    ensures FindStride(spec[k].extent, StateAt(spec, Packed(spec, order), k)) == PackedStride(spec, order, k)
  {
    var st := StateAt(spec, Packed(spec, order), k);
    PackedAvoids(spec, order, k);
    PackedCandidate(spec, order, k);
    forall c | c in Candidates(st) && c < PackedStride(spec, order, k)
      ensures !AvoidsAll(c, spec[k].extent, st)
    {
      PackedMinimal(spec, order, k, c);
    }
    FindStrideIs(spec[k].extent, st, PackedStride(spec, order, k));
  }

  /** A spec that packs in `order` resolves to exactly that dense packing. */
  lemma PackedResolve(spec: ShapeSpec, order: seq<nat>)
    requires IsPermutation(order, |spec|) && PacksInOrder(spec, order)
    ensures Resolve(spec) == Packed(spec, order)
  {
    var s := Packed(spec, order);
    assert StepwiseResolved(spec, s) by {
      forall k | 0 <= k < |spec| && spec[k].stride.None?
        ensures s[k].stride == FindStride(spec[k].extent, StateAt(spec, s, k))
      {
        PackedStep(spec, order, k);
      }
    }
    ResolveIffStepwise(spec, s);
  }

  /** Resolving a shape whose strides are all unknown packs it densely in
      dimension order: dimension k gets the product of max(1, extent) over the
      dimensions before it (1 if its own extent is 0 or 1). */
  lemma AllUnknownResolve(spec: ShapeSpec)
    requires AllUnknown(spec)
    ensures Resolve(spec) == Packed(spec, Identity(|spec|))
    ensures forall k :: 0 <= k < |spec| ==>
      Resolve(spec)[k].stride == if spec[k].extent >= 2 then Pitch(SpecExtents(spec), k) else 1
  {
    var order := Identity(|spec|);
    IdentityInverse(|spec|);
    assert Pick(SpecExtents(spec), order) == SpecExtents(spec);
    PackedResolve(spec, order);
  }

  /** The loop order that puts dimension m innermost and keeps the others in
      dimension order. */
  function MoveToFront(m: nat, n: nat): (order: seq<nat>)
    requires m < n
    ensures IsPermutation(order, n)
    ensures forall d :: 0 <= d < n ==> order[FrontPosition(m, d)] == d
  {
    var order := seq(n, i requires 0 <= i < n => if i == 0 then m else if i <= m then i - 1 else i);
    forall d | 0 <= d < n
      ensures order[FrontPosition(m, d)] == d && d in order
    {
      var p := FrontPosition(m, d);
      assert order[p] == d;
    }
    forall i, j | 0 <= i < j < n
      ensures order[i] != order[j]
    {
    }
    order
  }

  /** Where MoveToFront(m, n) puts dimension d. */
  function FrontPosition(m: nat, d: nat): nat {
    if d == m then 0 else if d < m then d + 1 else d
  }

  lemma MoveToFrontInverse(m: nat, n: nat, d: nat)
    requires m < n && d < n
    ensures Inverse(MoveToFront(m, n))[d] == FrontPosition(m, d)
  {
    var order := MoveToFront(m, n);
    InverseIsPermutation(order);
    assert order[FrontPosition(m, d)] == d;
  }

  /** A shape with one dimension m of known stride 1 and every other stride
      unknown resolves like dense packing with m innermost. */
  lemma OneKnownPacks(spec: ShapeSpec, m: nat)
    requires m < |spec| && spec[m].stride == Some(1)
    requires forall k :: 0 <= k < |spec| && k != m ==> spec[k].stride.None?
    ensures PacksInOrder(spec, MoveToFront(m, |spec|))
    ensures Resolve(spec) == Packed(spec, MoveToFront(m, |spec|))
  {
    var order := MoveToFront(m, |spec|);
    forall d | 0 <= d < |spec|
      ensures Inverse(order)[d] == FrontPosition(m, d)
    {
      MoveToFrontInverse(m, |spec|, d);
    }
    PackedResolve(spec, order);
  }

  /** test_all_unknown_strides (test/shape.cpp:120-136): dimension d of extent
      d resolves to the running product of max(1, extent). */
  lemma AllUnknownExample(spec: ShapeSpec)
    requires forall d :: 0 <= d < |spec| ==> spec[d] == DimSpec(0, d, None)
    ensures forall d :: 0 <= d < |spec| ==> Resolve(spec)[d].stride == Pitch(SpecExtents(spec), d)
  {
    AllUnknownResolve(spec);
  }

  /** Resolving is idempotent: a resolved shape has nothing left to resolve. */
  lemma ResolveIdempotent(spec: ShapeSpec)
    ensures Resolve(LiftAll(Resolve(spec))) == Resolve(spec)
  {
    var s := Resolve(spec);
    assert ResolveFrom(LiftAll(s), 0) == LiftAll(s);
  }

  /** The reordered iteration case of test/shape.cpp:272-283: (3, 5, (0, 8, 1))
      resolves to strides (8, 24, 1), dense when dimension 2 is innermost. */
  lemma ReorderedResolve()
    ensures Resolve([DimSpec(0, 3, None), DimSpec(0, 5, None), DimSpec(0, 8, Some(1))])
      == [Dim(0, 3, 8), Dim(0, 5, 24), Dim(0, 8, 1)]
  {
    var spec := [DimSpec(0, 3, None), DimSpec(0, 5, None), DimSpec(0, 8, Some(1))];
    var s := [Dim(0, 3, 8), Dim(0, 5, 24), Dim(0, 8, 1)];
    assert StepwiseResolved(spec, s) by {
      forall k | 0 <= k < |spec| && spec[k].stride.None?
        ensures s[k].stride == FindStride(spec[k].extent, StateAt(spec, s, k))
      {
        if k == 0 {
          assert StateAt(spec, s, 0) == spec;
          ReorderedStep0();
        } else {
          assert StateAt(spec, s, 1) == [DimSpec(0, 3, Some(8)), DimSpec(0, 5, None), DimSpec(0, 8, Some(1))];
          ReorderedStep1();
        }
      }
    }
    ResolveIffStepwise(spec, s);
  }

  lemma ReorderedStep0()
    ensures FindStride(3, [DimSpec(0, 3, None), DimSpec(0, 5, None), DimSpec(0, 8, Some(1))]) == 8
  {
    var dims := [DimSpec(0, 3, None), DimSpec(0, 5, None), DimSpec(0, 8, Some(1))];
    CandidatesOf3(dims[0], dims[1], dims[2]);
    assert !Avoids(1, 3, dims[2]);
    FindStrideIs(3, dims, 8);
  }

  lemma ReorderedStep1()
    ensures FindStride(5, [DimSpec(0, 3, Some(8)), DimSpec(0, 5, None), DimSpec(0, 8, Some(1))]) == 24
  {
    var dims := [DimSpec(0, 3, Some(8)), DimSpec(0, 5, None), DimSpec(0, 8, Some(1))];
    CandidatesOf3(dims[0], dims[1], dims[2]);
    assert !Avoids(1, 5, dims[2]);
    assert !Avoids(8, 5, dims[0]);
    FindStrideIs(5, dims, 24);
  }

  /** `dense_shape<2>(10, 5)` and `dense_shape<3>(10, 5, 20)` of
      test/shape.cpp:89-111: the dense first dimension keeps stride 1, and
      the others get strides 10 and 50. */
  lemma DenseShapeResolve()
    ensures Resolve([DimSpec(0, 10, Some(1)), DimSpec(0, 5, None)]) == [Dim(0, 10, 1), Dim(0, 5, 10)]
    ensures Resolve([DimSpec(0, 10, Some(1)), DimSpec(0, 5, None), DimSpec(0, 20, None)])
      == [Dim(0, 10, 1), Dim(0, 5, 10), Dim(0, 20, 50)]
  {
    var spec2 := [DimSpec(0, 10, Some(1)), DimSpec(0, 5, None)];
    var s2 := [Dim(0, 10, 1), Dim(0, 5, 10)];
    assert StepwiseResolved(spec2, s2) by {
      assert StateAt(spec2, s2, 1) == spec2;
      DenseShapeStep2();
    }
    ResolveIffStepwise(spec2, s2);
    DenseShapeResolve3();
  }

  lemma DenseShapeResolve3()
    ensures Resolve([DimSpec(0, 10, Some(1)), DimSpec(0, 5, None), DimSpec(0, 20, None)])
      == [Dim(0, 10, 1), Dim(0, 5, 10), Dim(0, 20, 50)]
  {
    var spec := [DimSpec(0, 10, Some(1)), DimSpec(0, 5, None), DimSpec(0, 20, None)];
    var s := [Dim(0, 10, 1), Dim(0, 5, 10), Dim(0, 20, 50)];
    assert s[1].stride == FindStride(spec[1].extent, StateAt(spec, s, 1)) by {
      assert StateAt(spec, s, 1) == spec;
      DenseShapeStep1();
    }
    assert s[2].stride == FindStride(spec[2].extent, StateAt(spec, s, 2)) by {
      assert StateAt(spec, s, 2) == [DimSpec(0, 10, Some(1)), DimSpec(0, 5, Some(10)), DimSpec(0, 20, None)];
      DenseShapeStep2Of3();
    }
    assert StepwiseResolved(spec, s);
    ResolveIffStepwise(spec, s);
  }

  lemma DenseShapeStep2()
    ensures FindStride(5, [DimSpec(0, 10, Some(1)), DimSpec(0, 5, None)]) == 10
  {
    var dims := [DimSpec(0, 10, Some(1)), DimSpec(0, 5, None)];
    CandidatesOf3(dims[0], dims[1], dims[1]);
    assert !Avoids(1, 5, dims[0]);
    FindStrideIs(5, dims, 10);
  }

  lemma DenseShapeStep1()
    ensures FindStride(5, [DimSpec(0, 10, Some(1)), DimSpec(0, 5, None), DimSpec(0, 20, None)]) == 10
  {
    var dims := [DimSpec(0, 10, Some(1)), DimSpec(0, 5, None), DimSpec(0, 20, None)];
    CandidatesOf3(dims[0], dims[1], dims[2]);
    assert !Avoids(1, 5, dims[0]);
    FindStrideIs(5, dims, 10);
  }

  lemma DenseShapeStep2Of3()
    ensures FindStride(20, [DimSpec(0, 10, Some(1)), DimSpec(0, 5, Some(10)), DimSpec(0, 20, None)]) == 50
  {
    var dims := [DimSpec(0, 10, Some(1)), DimSpec(0, 5, Some(10)), DimSpec(0, 20, None)];
    CandidatesOf3(dims[0], dims[1], dims[2]);
    assert !Avoids(1, 20, dims[0]);
    assert !Avoids(10, 20, dims[1]);
    FindStrideIs(20, dims, 50);
  }

  /** The shape as constructed again, keeping only the strides that `fixed`
      marks as part of the dimension's type. */
  function Forget(s: Shape, fixed: seq<bool>): (spec: ShapeSpec)
    requires |fixed| == |s|
    ensures |spec| == |s|
  {
    seq(|s|, k requires 0 <= k < |s| =>
      DimSpec(s[k].min, s[k].extent, if fixed[k] then Some(s[k].stride) else None))
  }

  /** `make_compact`: the same domain with the strides repacked by resolution;
      only strides fixed by the dimension's type (a dense dimension's stride
      1) survive. */
  function MakeCompact(s: Shape, fixed: seq<bool>): (r: Shape)
    requires |fixed| == |s|
    ensures |r| == |s|
    ensures forall k :: 0 <= k < |s| ==> r[k].min == s[k].min && r[k].extent == s[k].extent
    ensures forall k :: 0 <= k < |s| && fixed[k] ==> r[k].stride == s[k].stride
  {
    Resolve(Forget(s, fixed))
  }

  /** Without fixed strides, make_compact packs the dimensions densely in
      dimension order, whatever the strides were. */
  lemma MakeCompactPacks(s: Shape, fixed: seq<bool>)
    requires |fixed| == |s| && forall k :: 0 <= k < |s| ==> !fixed[k]
    ensures MakeCompact(s, fixed) == Packed(Forget(s, fixed), Identity(|s|))
  {
    AllUnknownResolve(Forget(s, fixed));
  }

  /** make_compact depends only on the domain and the fixed strides, so
      applying it twice changes nothing more. */
  lemma MakeCompactIdempotent(s: Shape, fixed: seq<bool>)
    requires |fixed| == |s|
    ensures MakeCompact(MakeCompact(s, fixed), fixed) == MakeCompact(s, fixed)
  {
    assert Forget(MakeCompact(s, fixed), fixed) == Forget(s, fixed);
  }

  /** The vectors of test/shape.cpp:470-482. */
  lemma MakeCompactExamples()
    ensures MakeCompact([Dim(3, 5, 2)], [false]) == [Dim(3, 5, 1)]
    ensures MakeCompact([Dim(3, 5, 8), Dim(1, 4, 1)], [false, false]) == [Dim(3, 5, 1), Dim(1, 4, 5)]
    ensures MakeCompact([Dim(3, 5, 8), Dim(1, 4, 1)], [false, true]) == [Dim(3, 5, 4), Dim(1, 4, 1)]
  {
    MakeCompactPacks([Dim(3, 5, 2)], [false]);
    MakeCompactPacks([Dim(3, 5, 8), Dim(1, 4, 1)], [false, false]);
    assert Pitch(SpecExtents(Forget([Dim(3, 5, 8), Dim(1, 4, 1)], [false, false])), 1) == 5;
    MakeCompactDenseInner();
  }

  lemma MakeCompactDenseInner()
    ensures MakeCompact([Dim(3, 5, 8), Dim(1, 4, 1)], [false, true]) == [Dim(3, 5, 4), Dim(1, 4, 1)]
  {
    var spec := [DimSpec(3, 5, None), DimSpec(1, 4, Some(1))];
    assert Forget([Dim(3, 5, 8), Dim(1, 4, 1)], [false, true]) == spec;
    var s := [Dim(3, 5, 4), Dim(1, 4, 1)];
    DenseInnerSteps();
    ResolveIffStepwise(spec, s);
  }

  lemma DenseInnerSteps()
    ensures StepwiseResolved([DimSpec(3, 5, None), DimSpec(1, 4, Some(1))], [Dim(3, 5, 4), Dim(1, 4, 1)])
  {
    var spec := [DimSpec(3, 5, None), DimSpec(1, 4, Some(1))];
    var s := [Dim(3, 5, 4), Dim(1, 4, 1)];
    assert StateAt(spec, s, 0) == spec;
    CandidatesOf3(spec[0], spec[1], spec[1]);
    assert !Avoids(1, 5, spec[1]);
    FindStrideIs(5, spec, 4);
  }

  /** Every stride resolve picks is at least 1 and does not interleave with any
      dimension resolved before it or fixed by the caller. */
  lemma ResolvedAvoids(spec: ShapeSpec, k: nat, j: nat)
    requires k < |spec| && spec[k].stride.None?
    requires j < |spec| && j != k && (j < k || spec[j].stride.Some?)
    ensures Resolve(spec)[k].stride >= 1
    ensures Avoids(Resolve(spec)[k].stride, spec[k].extent, Lift(Resolve(spec)[j]))
  {
    var s := Resolve(spec);
    ResolveIffStepwise(spec, s);
    var st := StateAt(spec, s, k);
    assert st[j] == Lift(s[j]);
  }
}
