/** The strided algorithms over views: `fill`, `generate`, `copy`, `move` and
    `equal`. Each walks the destination's domain in natural order and writes
    through the offset map. */
module Algorithms {
  import opened Wrappers
  import opened Dims
  import opened Shapes
  import opened Domains
  import opened Layout
  import opened Views

  /** The buffer after the writes (address, value), in order: a later write to
      an address replaces an earlier one. */
  function Scatter<T>(mem: map<int, T>, writes: seq<(int, T)>): map<int, T>
    decreases |writes|
  {
    if |writes| == 0 then mem else Scatter(mem, Front(writes))[Last(writes).0 := Last(writes).1]
  }

  /** Some write goes to address a. */
  predicate Touches<T>(writes: seq<(int, T)>, a: int) {
    exists p :: 0 <= p < |writes| && writes[p].0 == a
  }

  lemma {:induction false} ScatterKeys<T>(mem: map<int, T>, writes: seq<(int, T)>, a: int)
    ensures a in Scatter(mem, writes) <==> a in mem || Touches(writes, a)
    decreases |writes|
  {
    if |writes| > 0 {
      ScatterKeys(mem, Front(writes), a);
      if Touches(Front(writes), a) {
        var p :| 0 <= p < |Front(writes)| && Front(writes)[p].0 == a;
        assert writes[p].0 == a;
      }
      if Touches(writes, a) && Last(writes).0 != a {
        var p :| 0 <= p < |writes| && writes[p].0 == a;
        assert Front(writes)[p].0 == a;
      }
    }
  }

  /** An address no write goes to keeps its value. */
  lemma {:induction false} ScatterUntouched<T>(mem: map<int, T>, writes: seq<(int, T)>, a: int)
    requires a in mem && forall p :: 0 <= p < |writes| ==> writes[p].0 != a
    ensures a in Scatter(mem, writes) && Scatter(mem, writes)[a] == mem[a]
    decreases |writes|
  {
    if |writes| > 0 {
      assert Last(writes).0 != a;
      ScatterUntouched(mem, Front(writes), a);
    }
  }

  /** The last write to an address is the value it ends up with. */
  lemma {:induction false} ScatterLast<T>(mem: map<int, T>, writes: seq<(int, T)>, p: nat)
    requires p < |writes| && forall q :: p < q < |writes| ==> writes[q].0 != writes[p].0
    ensures writes[p].0 in Scatter(mem, writes) && Scatter(mem, writes)[writes[p].0] == writes[p].1
    decreases |writes|
  {
    if p < |writes| - 1 {
      ScatterLast(mem, Front(writes), p);
    }
  }

  /** A written address holds one of the values written to it. */
  lemma {:induction false} ScatterWritten<T>(mem: map<int, T>, writes: seq<(int, T)>, p: nat) returns (q: nat)
    requires p < |writes|
    ensures q < |writes| && writes[q].0 == writes[p].0
    ensures writes[p].0 in Scatter(mem, writes) && Scatter(mem, writes)[writes[p].0] == writes[q].1
    decreases |writes|
  {
    if Last(writes).0 == writes[p].0 {
      q := |writes| - 1;
    } else {
      q := ScatterWritten(mem, Front(writes), p);
    }
  }

  /** Writes that put back what the buffer already holds leave it unchanged. */
  lemma {:induction false} ScatterSame<T>(mem: map<int, T>, writes: seq<(int, T)>)
    requires forall p :: 0 <= p < |writes| ==> writes[p].0 in mem && mem[writes[p].0] == writes[p].1
    ensures Scatter(mem, writes) == mem
    decreases |writes|
  {
    if |writes| > 0 {
      ScatterSame(mem, Front(writes));
      assert Last(writes).0 in mem;
    }
  }

  /** One write per index of the view's domain, in natural order: vals[p] goes
      to the address of the p-th index. */
  function Writes<T>(v: View<T>, vals: seq<T>): (w: seq<(int, T)>)
    requires |vals| == Size(v.shape)
    ensures |w| == |vals|
    ensures forall p :: 0 <= p < |vals| ==> w[p] == (v.base + OffsetAt(v.shape, p), vals[p])
  {
    seq(|vals|, p requires 0 <= p < |vals| => (v.base + OffsetAt(v.shape, p), vals[p]))
  }

  /** The p-th write goes to the address of the p-th visited index. */
  lemma WriteAddress<T>(v: View<T>, p: nat)
    requires p < Size(v.shape)
    ensures InDomain(v.shape, Indices(v.shape)[p]) && Rank(v.shape, Indices(v.shape)[p]) == p
    ensures v.base + OffsetAt(v.shape, p) == Address(v, Indices(v.shape)[p])
  {
    IndicesAt(v.shape, p);
  }

  /** The view after the value vals[p] is written at the p-th index of its
      domain. A null view can only be written when its domain is empty. */
  function Store<T>(v: View<T>, vals: seq<T>): (r: View<T>)
    requires |vals| == Size(v.shape) && (v.mem.Some? || Size(v.shape) == 0)
    ensures r.base == v.base && r.shape == v.shape && (r.mem.Some? <==> v.mem.Some?)
  {
    if v.mem.None? then v else View(Some(Scatter(v.mem.value, Writes(v, vals))), v.base, v.shape)
  }

  /** In a one-to-one view, the element at i is the value written at i's
      position in the visiting order. */
  lemma StoreAt<T>(v: View<T>, vals: seq<T>, i: Index)
    requires |vals| == Size(v.shape) && v.mem.Some? && Injective(v.shape) && InDomain(v.shape, i)
    ensures 0 <= Rank(v.shape, i) < |vals|
    ensures Readable(Store(v, vals), i) && At(Store(v, vals), i) == vals[Rank(v.shape, i)]
  {
    var s := v.shape;
    var w := Writes(v, vals);
    var p := Rank(s, i);
    assert 0 <= p < |w| && w[p].0 == Address(v, i) && Indices(s)[p] == i by {
      RankIndices(s, i);
      WriteAddress(v, p);
    }
    forall q | p < q < |w|
      ensures w[q].0 != w[p].0
    {
      WriteAddress(v, q);
      assert Indices(s)[q] != i;
    }
    ScatterLast(v.mem.value, w, p);
    var r := Store(v, vals);
    assert r.mem.value == Scatter(v.mem.value, w) && Address(r, i) == Address(v, i);
  }

  /** Every element of the domain holds one of the values written. */
  lemma StoreWritten<T>(v: View<T>, vals: seq<T>, i: Index) returns (q: nat)
    requires |vals| == Size(v.shape) && v.mem.Some? && InDomain(v.shape, i)
    ensures q < |vals| && Readable(Store(v, vals), i) && At(Store(v, vals), i) == vals[q]
    ensures InDomain(v.shape, Indices(v.shape)[q]) && Address(v, Indices(v.shape)[q]) == Address(v, i)
  {
    var w := Writes(v, vals);
    var p := Rank(v.shape, i);
    assert 0 <= p < |w| && w[p].0 == Address(v, i) by {
      RankIndices(v.shape, i);
      WriteAddress(v, p);
    }
    q := ScatterWritten(v.mem.value, w, p);
    var r := Store(v, vals);
    assert r.mem.value == Scatter(v.mem.value, w) && Address(r, i) == Address(v, i);
    assert w[q].1 == vals[q];
    WriteAddress(v, q);
  }

  /** Buffer slots that no index of the domain addresses are left alone. */
  lemma StoreElsewhere<T>(v: View<T>, vals: seq<T>, a: int)
    requires |vals| == Size(v.shape) && v.mem.Some? && a in v.mem.value
    requires forall i :: InDomain(v.shape, i) ==> Address(v, i) != a
    ensures a in Store(v, vals).mem.value && Store(v, vals).mem.value[a] == v.mem.value[a]
  {
    var w := Writes(v, vals);
    forall p | 0 <= p < |w|
      ensures w[p].0 != a
    {
      WriteAddress(v, p);
    }
    ScatterUntouched(v.mem.value, w, a);
  }

  lemma StoreAddressable<T>(v: View<T>, vals: seq<T>)
    requires |vals| == Size(v.shape) && (v.mem.Some? || Size(v.shape) == 0) && Addressable(v)
    ensures Addressable(Store(v, vals))
  {
    forall i | InDomain(v.shape, i)
      ensures Readable(Store(v, vals), i)
    {
      ScatterKeys(v.mem.value, Writes(v, vals), Address(v, i));
    }
  }

  /** A store adds exactly the addresses of the domain to the buffer. */
  lemma StoreKeys<T>(v: View<T>, vals: seq<T>, a: int)
    requires |vals| == Size(v.shape) && v.mem.Some?
    ensures a in Store(v, vals).mem.value <==> a in v.mem.value || exists i :: InDomain(v.shape, i) && Address(v, i) == a
  {
    var w := Writes(v, vals);
    assert Store(v, vals).mem.value == Scatter(v.mem.value, w);
    ScatterKeys(v.mem.value, w, a);
    if Touches(w, a) {
      var p :| 0 <= p < |w| && w[p].0 == a;
      WriteAddress(v, p);
    }
    if exists i :: InDomain(v.shape, i) && Address(v, i) == a {
      var i :| InDomain(v.shape, i) && Address(v, i) == a;
      RankIndices(v.shape, i);
      WriteAddress(v, Rank(v.shape, i));
      assert w[Rank(v.shape, i)].0 == a;
    }
  }

  /** `fill(ref, x)`. */
  function Fill<T>(v: View<T>, x: T): (r: View<T>)
    requires v.mem.Some? || Size(v.shape) == 0
    ensures r.base == v.base && r.shape == v.shape && (r.mem.Some? <==> v.mem.Some?)
  {
    Store(v, seq(Size(v.shape), p => x))
  }

  /** After a fill every element of the domain is x, even where several
      indices share a slot, and the rest of the buffer is unchanged. */
  lemma FillAt<T>(v: View<T>, x: T, i: Index)
    requires v.mem.Some? && InDomain(v.shape, i)
    ensures Readable(Fill(v, x), i) && At(Fill(v, x), i) == x
  {
    var q := StoreWritten(v, seq(Size(v.shape), p => x), i);
  }

  lemma FillElsewhere<T>(v: View<T>, x: T, a: int)
    requires v.mem.Some? && a in v.mem.value
    requires forall i :: InDomain(v.shape, i) ==> Address(v, i) != a
    ensures a in Fill(v, x).mem.value && Fill(v, x).mem.value[a] == v.mem.value[a]
  {
    StoreElsewhere(v, seq(Size(v.shape), p => x), a);
  }

  /** `generate(ref, g)`: g is called once per index, in visiting order; the
      values it produces are the parameter `g` applied to the index. */
  function Generate<T>(v: View<T>, g: Index -> T): (r: View<T>)
    requires v.mem.Some? || Size(v.shape) == 0
    ensures r.base == v.base && r.shape == v.shape && (r.mem.Some? <==> v.mem.Some?)
  {
    Store(v, seq(Size(v.shape), p requires 0 <= p < Size(v.shape) => g(Indices(v.shape)[p])))
  }

  lemma GenerateAt<T>(v: View<T>, g: Index -> T, i: Index)
    requires v.mem.Some? && Injective(v.shape) && InDomain(v.shape, i)
    ensures Readable(Generate(v, g), i) && At(Generate(v, g), i) == g(i)
  {
    RankIndices(v.shape, i);
    StoreAt(v, seq(Size(v.shape), p requires 0 <= p < Size(v.shape) => g(Indices(v.shape)[p])), i);
  }

  /** The index of every dimension's max. */
  function Maxs(s: Shape): (i: Index)
    ensures |i| == |s| && forall k :: 0 <= k < |s| ==> i[k] == s[k].Max()
  {
    seq(|s|, k requires 0 <= k < |s| => s[k].Max())
  }

  /** The range check of copy and move: an empty destination needs nothing;
      otherwise the destination's min and max corners must both lie in the
      source's domain. */
  predicate CopyInRange(src: Shape, dst: Shape)
    requires |src| == |dst|
  {
    Size(dst) == 0 || (InDomain(src, Mins(dst)) && InDomain(src, Maxs(dst)))
  }

  /** Checking the two corners is checking that every dimension's interval is
      contained, and that every index of the destination is an index of the
      source. */
  lemma CopyInRangeIff(src: Shape, dst: Shape)
    requires |src| == |dst| && Size(dst) > 0
    ensures CopyInRange(src, dst) <==> forall k :: 0 <= k < |dst| ==> IntervalInRange(src[k], dst[k].Range())
    ensures CopyInRange(src, dst) <==> forall i :: InDomain(dst, i) ==> InDomain(src, i)
  {
    SizePositive(dst);
    if CopyInRange(src, dst) {
      forall i | InDomain(dst, i)
        ensures InDomain(src, i)
      {
        assert forall k :: 0 <= k < |dst| ==> src[k].Contains(Mins(dst)[k]) && src[k].Contains(Maxs(dst)[k]);
      }
    }
    if forall i :: InDomain(dst, i) ==> InDomain(src, i) {
      assert InDomain(dst, Mins(dst));
      assert InDomain(dst, Maxs(dst));
    }
  }

  /** The source's elements at the destination's indices, in visiting order. */
  function Gather<T>(src: View<T>, dst: Shape): (vals: seq<T>)
    requires |src.shape| == |dst| && Addressable(src)
    requires forall i :: InDomain(dst, i) ==> InDomain(src.shape, i)
    ensures |vals| == Size(dst)
  {
    seq(Size(dst), p requires 0 <= p < Size(dst) => IndicesAt(dst, p); At(src, Indices(dst)[p]))
  }

  /** `copy(src, dst)`: every element of the destination's domain gets the
      source's element at the same index. Out of range when the destination
      reaches outside the source's domain. */
  function Copy<T>(src: View<T>, dst: View<T>): (r: Result<View<T>>)
    requires |src.shape| == |dst.shape| && Addressable(src) && Addressable(dst)
    ensures r.Failure? <==> Size(dst.shape) > 0 && exists k :: 0 <= k < |dst.shape| && !IntervalInRange(src.shape[k], dst.shape[k].Range())
    ensures r.Failure? ==> r.error == OutOfRange
    ensures r.Success? ==> r.value.base == dst.base && r.value.shape == dst.shape && Addressable(r.value)
  {
    if Size(dst.shape) == 0 then Success(dst)
    else
      CopyInRangeIff(src.shape, dst.shape);
      if !CopyInRange(src.shape, dst.shape) then Failure(OutOfRange)
      else
        SizePositive(dst.shape);
        assert InDomain(dst.shape, Mins(dst.shape));
        var vals := Gather(src, dst.shape);
        StoreAddressable(dst, vals);
        Success(Store(dst, vals))
  }

  /** After a successful copy into a one-to-one destination, each element of
      the destination is the source's element at the same index. */
  lemma CopyAt<T>(src: View<T>, dst: View<T>, i: Index)
    requires |src.shape| == |dst.shape| && Addressable(src) && Addressable(dst)
    requires Copy(src, dst).Success? && Injective(dst.shape) && InDomain(dst.shape, i)
    ensures InDomain(src.shape, i)
    ensures Readable(Copy(src, dst).value, i) && At(Copy(src, dst).value, i) == At(src, i)
  {
    SizePositive(dst.shape);
    CopyInRangeIff(src.shape, dst.shape);
    var vals := Gather(src, dst.shape);
    StoreAt(dst, vals, i);
    RankIndices(dst.shape, i);
  }

  /** Domain equality: the same min and extent in every dimension; strides
      may differ. */
  predicate SameDomain(s: Shape, t: Shape) {
    |s| == |t| && forall k :: 0 <= k < |s| ==> s[k].min == t[k].min && s[k].extent == t[k].extent
  }

  lemma SameDomainInDomain(s: Shape, t: Shape, i: Index)
    requires SameDomain(s, t)
    ensures InDomain(s, i) <==> InDomain(t, i)
  {
    if InDomain(s, i) {
      assert forall k :: 0 <= k < |t| ==> s[k].Contains(i[k]) && t[k].Max() == s[k].Max();
    }
    if InDomain(t, i) {
      assert forall k :: 0 <= k < |s| ==> t[k].Contains(i[k]) && t[k].Max() == s[k].Max();
    }
  }

  /** The two views hold the same element at every index of a's domain,
      compared in visiting order: the loop `equal` runs. */
  predicate AgreeInOrder<T(==)>(a: View<T>, b: View<T>)
    requires Addressable(a) && Addressable(b) && SameDomain(a.shape, b.shape)
  {
    InOrderInDomain(a, b);
    forall p :: 0 <= p < Size(a.shape) ==> At(a, Indices(a.shape)[p]) == At(b, Indices(a.shape)[p])
  }

  /** The two views hold the same element at every index of a's domain. */
  ghost predicate AgreeEverywhere<T>(a: View<T>, b: View<T>)
    requires Addressable(a) && Addressable(b)
  {
    forall i :: InDomain(a.shape, i) ==> InDomain(b.shape, i) && At(a, i) == At(b, i)
  }

  /** Comparing in visiting order compares at every index. */
  lemma EqualInOrder<T>(a: View<T>, b: View<T>)
    requires Addressable(a) && Addressable(b) && SameDomain(a.shape, b.shape)
    ensures AgreeInOrder(a, b) <==> AgreeEverywhere(a, b)
  {
    InOrderInDomain(a, b);
    if AgreeInOrder(a, b) {
      EqualInOrderEverywhere(a, b);
    }
    if AgreeEverywhere(a, b) {
      EqualEveryIndex(a, b);
    }
  }

  /** Agreement at every visited index is agreement at every index. */
  lemma EqualInOrderEverywhere<T>(a: View<T>, b: View<T>)
    requires Addressable(a) && Addressable(b) && SameDomain(a.shape, b.shape)
    requires forall p :: 0 <= p < Size(a.shape) ==>
      InDomain(a.shape, Indices(a.shape)[p]) && InDomain(b.shape, Indices(a.shape)[p])
    requires forall p :: 0 <= p < Size(a.shape) ==> At(a, Indices(a.shape)[p]) == At(b, Indices(a.shape)[p])
    ensures forall i :: InDomain(a.shape, i) ==> InDomain(b.shape, i) && At(a, i) == At(b, i)
  {
    forall i | InDomain(a.shape, i)
      ensures InDomain(b.shape, i) && At(a, i) == At(b, i)
    {
      EqualAtRank(a, b, i);
    }
  }

  /** Every visited index lies in both domains. */
  lemma InOrderInDomain<T>(a: View<T>, b: View<T>)
    requires SameDomain(a.shape, b.shape)
    ensures forall p :: 0 <= p < Size(a.shape) ==>
      InDomain(a.shape, Indices(a.shape)[p]) && InDomain(b.shape, Indices(a.shape)[p])
  {
    forall p | 0 <= p < Size(a.shape)
      ensures InDomain(a.shape, Indices(a.shape)[p]) && InDomain(b.shape, Indices(a.shape)[p])
    {
      IndicesAt(a.shape, p);
      SameDomainInDomain(a.shape, b.shape, Indices(a.shape)[p]);
    }
  }

  /** Agreement at every index is agreement at every visited index. */
  lemma EqualEveryIndex<T>(a: View<T>, b: View<T>)
    requires Addressable(a) && Addressable(b) && SameDomain(a.shape, b.shape)
    requires forall i :: InDomain(a.shape, i) ==> InDomain(b.shape, i) && At(a, i) == At(b, i)
    ensures forall p :: 0 <= p < Size(a.shape) ==>
      InDomain(a.shape, Indices(a.shape)[p]) && At(a, Indices(a.shape)[p]) == At(b, Indices(a.shape)[p])
  {
    forall p | 0 <= p < Size(a.shape)
      ensures InDomain(a.shape, Indices(a.shape)[p]) && At(a, Indices(a.shape)[p]) == At(b, Indices(a.shape)[p])
    {
      IndicesAt(a.shape, p);
    }
  }

  lemma EqualAtRank<T>(a: View<T>, b: View<T>, i: Index)
    requires Addressable(a) && Addressable(b) && SameDomain(a.shape, b.shape) && InDomain(a.shape, i)
    requires forall p :: 0 <= p < Size(a.shape) ==>
      InDomain(a.shape, Indices(a.shape)[p]) && InDomain(b.shape, Indices(a.shape)[p])
    requires forall p :: 0 <= p < Size(a.shape) ==> At(a, Indices(a.shape)[p]) == At(b, Indices(a.shape)[p])
    ensures InDomain(b.shape, i) && At(a, i) == At(b, i)
  {
    SameDomainInDomain(a.shape, b.shape, i);
    RankIndices(a.shape, i);
    var p := Rank(a.shape, i);
    assert At(a, Indices(a.shape)[p]) == At(b, Indices(a.shape)[p]);
  }

  /** `equal(a, b)`: the same domain, and the same element at every index. */
  function Equal<T(==)>(a: View<T>, b: View<T>): (r: bool)
    requires Addressable(a) && Addressable(b)
    ensures r <==> (SameDomain(a.shape, b.shape) &&
      forall i :: InDomain(a.shape, i) ==> InDomain(b.shape, i) && At(a, i) == At(b, i))
  {
    if !SameDomain(a.shape, b.shape) then false
    else
      EqualInOrder(a, b);
      AgreeInOrder(a, b)
  }

  /** An array is equal to itself, whatever its strides. */
  lemma EqualReflexive<T>(a: View<T>)
    requires Addressable(a)
    ensures Equal(a, a)
  {
  }

  /** test/algorithm.cpp:42-64: after a successful copy into a non-empty,
      one-to-one destination, the source cropped to the destination's ranges
      is equal to the destination. */
  lemma CopyThenEqual<T>(src: View<T>, dst: View<T>)
    requires |src.shape| == |dst.shape| && Addressable(src) && Addressable(dst)
    requires Copy(src, dst).Success? && Injective(dst.shape) && Size(dst.shape) > 0
    ensures Crop(src, Ranges(dst.shape)).Success?
    ensures var c := Crop(src, Ranges(dst.shape)).value;
      Addressable(c) && Equal(c, Copy(src, dst).value)
  {
    var c := Crop(src, Ranges(dst.shape));
    CropAddressable(src, Ranges(dst.shape));
    var d := Copy(src, dst).value;
    forall i | InDomain(c.value.shape, i)
      ensures InDomain(d.shape, i) && At(c.value, i) == At(d, i)
    {
      CropAt(src, Ranges(dst.shape), i);
      SameDomainInDomain(c.value.shape, d.shape, i);
      CopyAt(src, dst, i);
    }
  }

  /** test/algorithm.cpp:20-28: after fill(b, 0), every element of b is 0, so
      b is not equal to an array holding a non-zero element. */
  lemma FillThenUnequal(a: View<int>, b: View<int>, i: Index)
    requires Addressable(a) && Addressable(b) && b.mem.Some?
    requires InDomain(a.shape, i) && At(a, i) != 0
    ensures Addressable(Fill(b, 0)) && !Equal(a, Fill(b, 0))
  {
    var f := Fill(b, 0);
    StoreAddressable(b, seq(Size(b.shape), p => 0));
    if SameDomain(a.shape, f.shape) {
      SameDomainInDomain(a.shape, f.shape, i);
      FillAt(b, 0, i);
    }
  }

  /** Domains with the same mins and extents are visited in the same order. */
  lemma {:induction false} SameDomainIndices(s: Shape, t: Shape)
    requires SameDomain(s, t)
    ensures Size(s) == Size(t) && Indices(s) == Indices(t)
  {
    if |s| > 0 {
      SameDomainIndices(Front(s), Front(t));
    }
  }

  /** A sub-domain with the same strides is one-to-one when the whole is. */
  lemma CropInjective<T>(v: View<T>, ivs: seq<Interval>)
    requires |ivs| == |v.shape| && Crop(v, ivs).Success? && Injective(v.shape)
    ensures Injective(Crop(v, ivs).value.shape)
  {
    var c := Crop(v, ivs).value.shape;
    forall i, j | InDomain(c, i) && InDomain(c, j) && Offset(c, i) == Offset(c, j)
      ensures i == j
    {
      OffsetSameStrides(c, v.shape, i);
      OffsetSameStrides(c, v.shape, j);
      assert forall d :: 0 <= d < |c| ==> IntervalInRange(v.shape[d], ivs[d]);
      assert InDomain(v.shape, i) && InDomain(v.shape, j);
    }
  }

  /** The source after a move: each element at an index of the destination's
      domain is replaced by its moved-from state. */
  function Drain<T>(src: View<T>, dst: Shape, leftover: T -> T): (r: View<T>)
    requires |src.shape| == |dst| && Addressable(src) && Size(dst) > 0 && CopyInRange(src.shape, dst)
    ensures r.base == src.base && r.shape == src.shape
  {
    CopyInRangeIff(src.shape, dst);
    var moved := Crop(src, Ranges(dst)).value;
    SameDomainIndices(moved.shape, dst);
    SizePositive(dst);
    assert InDomain(dst, Mins(dst));
    var vals := Gather(src, dst);
    View(Store(moved, seq(Size(dst), p requires 0 <= p < Size(dst) => leftover(vals[p]))).mem, src.base, src.shape)
  }

  /** In a one-to-one source, the moved elements are in their moved-from state. */
  lemma DrainAt<T>(src: View<T>, dst: Shape, leftover: T -> T, i: Index)
    requires |src.shape| == |dst| && Addressable(src) && Size(dst) > 0 && CopyInRange(src.shape, dst)
    requires Injective(src.shape) && InDomain(dst, i)
    ensures InDomain(src.shape, i)
    ensures Readable(Drain(src, dst, leftover), i) && At(Drain(src, dst, leftover), i) == leftover(At(src, i))
  {
    CopyInRangeIff(src.shape, dst);
    var ivs := Ranges(dst);
    var moved := Crop(src, ivs).value;
    SameDomainIndices(moved.shape, dst);
    SameDomainInDomain(moved.shape, dst, i);
    SizePositive(dst);
    assert InDomain(dst, Mins(dst));
    var vals := Gather(src, dst);
    var husks := seq(Size(dst), p requires 0 <= p < Size(dst) => leftover(vals[p]));
    CropInjective(src, ivs);
    StoreAt(moved, husks, i);
    RankIndices(dst, i);
    OffsetSameStrides(moved.shape, src.shape, i);
  }

  /** Moving values whose moved-from state is their own value (plain
      integers) leaves the source as it was. */
  lemma DrainKeepsValues<T>(src: View<T>, dst: Shape)
    requires |src.shape| == |dst| && Addressable(src) && Size(dst) > 0 && CopyInRange(src.shape, dst)
    ensures Drain(src, dst, x => x) == src
  {
    CopyInRangeIff(src.shape, dst);
    var ivs := Ranges(dst);
    var moved := Crop(src, ivs).value;
    SameDomainIndices(moved.shape, dst);
    SizePositive(dst);
    assert InDomain(dst, Mins(dst));
    var vals := Gather(src, dst);
    var husks := seq(Size(dst), p requires 0 <= p < Size(dst) => (x => x)(vals[p]));
    var w := Writes(moved, husks);
    forall p | 0 <= p < |w|
      ensures w[p].0 in src.mem.value && src.mem.value[w[p].0] == w[p].1
    {
      WriteAddress(moved, p);
      IndicesAt(dst, p);
      OffsetSameStrides(moved.shape, src.shape, Indices(dst)[p]);
    }
    ScatterSame(src.mem.value, w);
  }

  /** The source and the destination after `move(src, dst)`. */
  datatype Moved<T> = Moved(src: View<T>, dst: View<T>)

  /** `move(src, dst)`: the destination gets what copy would give it; each
      source element that was moved is left in the moved-from state
      `leftover` maps it to. Out of range exactly when copy is. */
  function Move<T>(src: View<T>, dst: View<T>, leftover: T -> T): (r: Result<Moved<T>>)
    requires |src.shape| == |dst.shape| && Addressable(src) && Addressable(dst)
    ensures r.Failure? <==> Copy(src, dst).Failure?
    ensures r.Failure? ==> r.error == OutOfRange
    ensures r.Success? ==> r.value.dst == Copy(src, dst).value
    ensures r.Success? ==> r.value.src.base == src.base && r.value.src.shape == src.shape
  {
    if Size(dst.shape) == 0 then Success(Moved(src, dst))
    else
      CopyInRangeIff(src.shape, dst.shape);
      if !CopyInRange(src.shape, dst.shape) then Failure(OutOfRange)
      else Success(Moved(Drain(src, dst.shape, leftover), Copy(src, dst).value))
  }

  /** Moving plain values is copying: the source is left as it was. */
  lemma MoveKeepsValues<T>(src: View<T>, dst: View<T>)
    requires |src.shape| == |dst.shape| && Addressable(src) && Addressable(dst)
    requires Move(src, dst, x => x).Success?
    ensures Move(src, dst, x => x).value == Moved(src, Copy(src, dst).value)
  {
    if Size(dst.shape) > 0 {
      CopyInRangeIff(src.shape, dst.shape);
      DrainKeepsValues(src, dst.shape);
    }
  }

  /** The nine destinations of test/algorithm.cpp:42-64: the (10, 20) source
      with each min moved by cmin and each max moved back by cmax. */
  function CroppedDst(cmin: int, cmax: int, strides: seq<int>): (s: Shape)
    requires |strides| == 2 && cmin + cmax <= 10
  {
    [Dim(cmin, 10 - cmin - cmax, strides[0]), Dim(cmin, 20 - cmin - cmax, strides[1])]
  }

  /** The copy range check succeeds exactly when neither end of the
      destination is moved outward. */
  lemma CroppedDstInRange(cmin: int, cmax: int, strides: seq<int>, a: Shape)
    requires |strides| == 2 && -1 <= cmin <= 1 && -1 <= cmax <= 1
    requires a == [Dim(0, 10, 1), Dim(0, 20, 10)]
    ensures CopyInRange(a, CroppedDst(cmin, cmax, strides)) <==> cmin >= 0 && cmax >= 0
  {
    var d := CroppedDst(cmin, cmax, strides);
    SizePositive(d);
    CopyInRangeIff(a, d);
    if cmin < 0 {
      assert !IntervalInRange(a[0], d[0].Range());
    }
    if cmax < 0 {
      assert !IntervalInRange(a[0], d[0].Range());
    }
  }

  /** How many of the flags are set. */
  function CountTrue(bs: seq<bool>): nat {
    multiset(bs)[true]
  }

  /** test/algorithm.cpp:33-63: of the nine combinations of crop_min and
      crop_max in {0, 1, -1}, exactly four pass the range check, those with no
      negative crop. */
  lemma CopyCropCases(strides: seq<int>)
    requires |strides| == 2
    ensures var cases := [(0, 0), (0, 1), (0, -1), (1, 0), (1, 1), (1, -1), (-1, 0), (-1, 1), (-1, -1)];
      CountTrue(seq(9, c requires 0 <= c < 9 =>
        CopyInRange([Dim(0, 10, 1), Dim(0, 20, 10)], CroppedDst(cases[c].0, cases[c].1, strides)))) == 4
  {
    var a := [Dim(0, 10, 1), Dim(0, 20, 10)];
    var cases := [(0, 0), (0, 1), (0, -1), (1, 0), (1, 1), (1, -1), (-1, 0), (-1, 1), (-1, -1)];
    var ok := seq(9, c requires 0 <= c < 9 => CopyInRange(a, CroppedDst(cases[c].0, cases[c].1, strides)));
    forall c | 0 <= c < 9
      ensures ok[c] == (cases[c].0 >= 0 && cases[c].1 >= 0)
    {
      CroppedDstInRange(cases[c].0, cases[c].1, strides, a);
    }
    assert ok == [true, true, false, true, true, false, false, false, false];
  }
}
