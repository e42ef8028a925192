/** Non-owning views, `array_ref`: a buffer owned elsewhere, a base address in
    it, and a shape that maps each index of the domain to an address. */
module Views {
  import opened Wrappers
  import opened Dims
  import opened Shapes
  import opened Perms
  import opened Transforms
  import opened Resolution

  /** `array_ref<T, Shape>`: element i lives at buffer address
      base + Offset(shape, i). A view whose buffer is None is a null view. */
  datatype View<T> = View(mem: Option<map<int, T>>, base: int, shape: Shape)

  function Address<T>(v: View<T>, i: Index): (a: int)
    requires |i| == |v.shape|
  {
    v.base + Offset(v.shape, i)
  }

  /** Index i names a live slot of the view's buffer. */
  predicate Readable<T>(v: View<T>, i: Index) {
    |i| == |v.shape| && v.mem.Some? && Address(v, i) in v.mem.value
  }

  /** Every index of the domain names a live slot. */
  ghost predicate Addressable<T>(v: View<T>) {
    forall i :: InDomain(v.shape, i) ==> Readable(v, i)
  }

  /** `ref(i...)`: unchecked element access through the offset map. */
  function At<T>(v: View<T>, i: Index): (x: T)
    requires Readable(v, i)
  {
    v.mem.value[Address(v, i)]
  }

  /** `empty()`: a null view is empty whatever its shape; otherwise a view is
      empty when its domain is. */
  predicate IsEmpty<T>(v: View<T>) {
    v.mem.None? || Size(v.shape) == 0
  }

  /** `set_shape(shape, offset)`: rebinds the buffer to a new shape, moving the
      base by `offset`. The buffer itself is kept, so a null view stays null. */
  function SetShape<T>(v: View<T>, s: Shape, offset: int): (r: View<T>)
    ensures r.mem == v.mem && r.shape == s
    ensures forall i :: |i| == |s| ==> Address(r, i) == v.base + offset + Offset(s, i)
    ensures v.mem.None? ==> IsEmpty(r)
    ensures v.mem.Some? ==> (IsEmpty(r) <==> exists k :: 0 <= k < |s| && s[k].extent == 0)
  {
    SizePositive(s);
    View(v.mem, v.base + offset, s)
  }

  /** The sequence without its entry k. */
  function Remove<T>(xs: seq<T>, k: nat): (r: seq<T>)
    requires k < |xs|
    ensures |r| == |xs| - 1
    ensures forall d :: 0 <= d < k ==> r[d] == xs[d]
    ensures forall d :: k <= d < |r| ==> r[d] == xs[d + 1]
  {
    xs[..k] + xs[k + 1..]
  }

  /** The sequence with `x` placed at position k. */
  function Insert<T>(xs: seq<T>, k: nat, x: T): (r: seq<T>)
    requires k <= |xs|
    ensures |r| == |xs| + 1 && r[k] == x
    ensures forall d :: 0 <= d < k ==> r[d] == xs[d]
    ensures forall d :: k < d < |r| ==> r[d] == xs[d - 1]
  {
    xs[..k] + [x] + xs[k..]
  }

  lemma InsertRemove<T>(xs: seq<T>, k: nat, x: T)
    requires k <= |xs|
    ensures Remove(Insert(xs, k, x), k) == xs
  {
  }

  lemma RemoveInsert<T>(xs: seq<T>, k: nat)
    requires k < |xs|
    ensures Insert(Remove(xs, k), k, xs[k]) == xs
  {
  }

  /** Fixing coordinate k to x contributes x * stride to the offset; the other
      coordinates contribute what they contribute in the shape without k. */
  lemma OffsetInsert(s: Shape, k: nat, j: Index, x: int)
    requires k < |s| && |j| == |s| - 1
    ensures Offset(s, Insert(j, k, x)) == Offset(Remove(s, k), j) + x * s[k].stride
  {
    var t := Terms(s, Insert(j, k, x));
    var u := Terms(Remove(s, k), j);
    OffsetIsSum(s, Insert(j, k, x));
    OffsetIsSum(Remove(s, k), j);
    assert t == u[..k] + [x * s[k].stride] + u[k..];
    assert u == u[..k] + u[k..];
    SumConcat(u[..k] + [x * s[k].stride], u[k..]);
    SumConcat(u[..k], [x * s[k].stride]);
    SumConcat(u[..k], u[k..]);
  }

  lemma DomainInsert(s: Shape, k: nat, j: Index, x: int)
    requires k < |s| && |j| == |s| - 1
    ensures InDomain(s, Insert(j, k, x)) <==> InDomain(Remove(s, k), j) && s[k].Contains(x)
  {
    var i := Insert(j, k, x);
    if InDomain(Remove(s, k), j) && s[k].Contains(x) {
      forall d | 0 <= d < |s|
        ensures s[d].Contains(i[d])
      {
        if d > k {
          assert Remove(s, k)[d - 1] == s[d];
        }
      }
    }
    if InDomain(s, i) {
      forall d | 0 <= d < |s| - 1
        ensures Remove(s, k)[d].Contains(j[d])
      {
        if d >= k {
          assert i[d + 1] == j[d];
        }
      }
    }
  }

  /** Slicing, `ref(x, _)` and its kin: dimension k is fixed to coordinate x
      and dropped; the base moves to where coordinate x starts and the other
      dimensions are kept as they are. */
  function Slice<T>(v: View<T>, k: nat, x: int): (r: View<T>)
    requires k < |v.shape|
    ensures r.mem == v.mem && |r.shape| == |v.shape| - 1
    ensures forall d :: 0 <= d < k ==> r.shape[d] == v.shape[d]
    ensures forall d :: k < d < |v.shape| ==> r.shape[d - 1] == v.shape[d]
  {
    View(v.mem, v.base + x * v.shape[k].stride, Remove(v.shape, k))
  }

  /** An index j of the slice names the element of the original at j with x
      inserted at position k. */
  lemma SliceAddress<T>(v: View<T>, k: nat, x: int, j: Index)
    requires k < |v.shape| && |j| == |v.shape| - 1
    ensures Address(Slice(v, k, x), j) == Address(v, Insert(j, k, x))
    ensures InDomain(Slice(v, k, x).shape, j) && v.shape[k].Contains(x) <==> InDomain(v.shape, Insert(j, k, x))
  {
    OffsetInsert(v.shape, k, j, x);
    DomainInsert(v.shape, k, j, x);
  }

  /** Every element of a slice at an in-range coordinate is the original's
      element at the completed index. */
  lemma SliceAt<T>(v: View<T>, k: nat, x: int, j: Index)
    requires k < |v.shape| && Addressable(v) && v.shape[k].Contains(x)
    requires InDomain(Slice(v, k, x).shape, j)
    ensures InDomain(v.shape, Insert(j, k, x))
    ensures Readable(Slice(v, k, x), j) && At(Slice(v, k, x), j) == At(v, Insert(j, k, x))
  {
    SliceAddress(v, k, x, j);
  }

  lemma SliceAddressable<T>(v: View<T>, k: nat, x: int)
    requires k < |v.shape| && Addressable(v) && v.shape[k].Contains(x)
    ensures Addressable(Slice(v, k, x))
  {
    forall j | InDomain(Slice(v, k, x).shape, j)
      ensures Readable(Slice(v, k, x), j)
    {
      SliceAt(v, k, x, j);
    }
  }

  /** The shape with dimension d narrowed to the interval ivs[d], strides kept. */
  function Narrow(s: Shape, ivs: seq<Interval>): (r: Shape)
    requires |ivs| == |s|
    ensures |r| == |s|
    ensures forall d :: 0 <= d < |s| ==> r[d] == Dim(ivs[d].min, ivs[d].extent, s[d].stride)
  {
    seq(|s|, d requires 0 <= d < |s| => Dim(ivs[d].min, ivs[d].extent, s[d].stride))
  }

  /** The full range of every dimension, the interval the `_` argument stands for. */
  function Ranges(s: Shape): (ivs: seq<Interval>)
    ensures |ivs| == |s| && forall d :: 0 <= d < |s| ==> ivs[d] == s[d].Range()
  {
    seq(|s|, d requires 0 <= d < |s| => s[d].Range())
  }

  /** Cropping, `ref(range, range, ...)`: each dimension takes the given
      interval as its min and extent and keeps its stride; the base is kept,
      so the cropped view addresses the same elements by the same
      coordinates. Out of range when an interval is not inside its dimension. */
  function Crop<T>(v: View<T>, ivs: seq<Interval>): (r: Result<View<T>>)
    requires |ivs| == |v.shape|
    ensures r.Failure? <==> exists d :: 0 <= d < |ivs| && !IntervalInRange(v.shape[d], ivs[d])
    ensures r.Failure? ==> r.error == OutOfRange
    ensures r.Success? ==> r.value.mem == v.mem && r.value.base == v.base && |r.value.shape| == |v.shape|
    ensures r.Success? ==> forall d :: 0 <= d < |ivs| ==>
      r.value.shape[d].Range() == ivs[d] && r.value.shape[d].stride == v.shape[d].stride
  {
    if IntervalsInRange(v.shape, ivs) then Success(View(v.mem, v.base, Narrow(v.shape, ivs)))
    else Failure(OutOfRange)
  }

  /** The offset depends on the strides only, not on the mins or extents. */
  lemma {:induction false} OffsetSameStrides(s: Shape, t: Shape, i: Index)
    requires |s| == |t| == |i|
    requires forall d :: 0 <= d < |s| ==> s[d].stride == t[d].stride
    ensures Offset(s, i) == Offset(t, i)
  {
    if |s| > 0 {
      OffsetSameStrides(Front(s), Front(t), Front(i));
    }
  }

  /** The domain of a successful crop lies inside the original domain, and the
      crop holds the original's elements at the same indices. */
  lemma CropAt<T>(v: View<T>, ivs: seq<Interval>, i: Index)
    requires |ivs| == |v.shape| && Addressable(v) && Crop(v, ivs).Success?
    requires InDomain(Crop(v, ivs).value.shape, i)
    ensures InDomain(v.shape, i)
    ensures Readable(Crop(v, ivs).value, i) && At(Crop(v, ivs).value, i) == At(v, i)
  {
    var c := Crop(v, ivs).value;
    OffsetSameStrides(c.shape, v.shape, i);
    forall d | 0 <= d < |i|
      ensures v.shape[d].Contains(i[d])
    {
      assert c.shape[d].Contains(i[d]);
      assert IntervalInRange(v.shape[d], ivs[d]);
    }
  }

  lemma CropAddressable<T>(v: View<T>, ivs: seq<Interval>)
    requires |ivs| == |v.shape| && Addressable(v) && Crop(v, ivs).Success?
    ensures Addressable(Crop(v, ivs).value)
  {
    forall i | InDomain(Crop(v, ivs).value.shape, i)
      ensures Readable(Crop(v, ivs).value, i)
    {
      CropAt(v, ivs, i);
    }
  }

  /** Cropping every dimension to its own range, `ref(_, _, ...)`, gives the
      view back. */
  lemma CropFull<T>(v: View<T>)
    ensures Crop(v, Ranges(v.shape)) == Success(v)
  {
    var c := Crop(v, Ranges(v.shape));
    assert c.value.shape == v.shape;
  }

  /** `check_pattern` after a crop: if every element of the view equals
      pattern(i), so does every element of the crop. */
  lemma CropKeepsPattern<T>(v: View<T>, ivs: seq<Interval>, pattern: Index -> T)
    requires |ivs| == |v.shape| && Addressable(v) && Crop(v, ivs).Success?
    requires forall i :: InDomain(v.shape, i) ==> Readable(v, i) && At(v, i) == pattern(i)
    ensures forall i :: InDomain(Crop(v, ivs).value.shape, i) ==>
      Readable(Crop(v, ivs).value, i) && At(Crop(v, ivs).value, i) == pattern(i)
  {
    forall i | InDomain(Crop(v, ivs).value.shape, i)
      ensures Readable(Crop(v, ivs).value, i) && At(Crop(v, ivs).value, i) == pattern(i)
    {
      CropAt(v, ivs, i);
    }
  }

  /** The buffer with every live value converted by `f`. */
  function MapValues<T, U>(m: map<int, T>, f: T -> U): (r: map<int, U>)
    ensures r.Keys == m.Keys
    ensures forall a :: a in m ==> r[a] == f(m[a])
  {
    map a | a in m :: f(m[a])
  }

  /** `reinterpret<U>(ref)` between element types of the same size: the same
      buffer, base and shape, each slot read as a U. The bit-level conversion
      is the parameter `f`. */
  function Reinterpret<T, U>(v: View<T>, f: T -> U): (r: View<U>)
    ensures r.base == v.base && r.shape == v.shape
    ensures v.mem.None? <==> r.mem.None?
  {
    View(if v.mem.Some? then Some(MapValues(v.mem.value, f)) else None, v.base, v.shape)
  }

  /** The reinterpreted view reads, at every index, the converted element. */
  lemma ReinterpretAt<T, U>(v: View<T>, f: T -> U, i: Index)
    requires Readable(v, i)
    ensures Readable(Reinterpret(v, f), i) && At(Reinterpret(v, f), i) == f(At(v, i))
  {
  }

  /** Reinterpreting back with the inverse conversion restores the view. */
  lemma ReinterpretRoundTrip<T, U>(v: View<T>, f: T -> U, g: U -> T)
    requires forall x :: g(f(x)) == x
    ensures Reinterpret(Reinterpret(v, f), g) == v
  {
    if v.mem.Some? {
      assert MapValues(MapValues(v.mem.value, f), g) == v.mem.value;
    }
  }

  /** The buffer `int data[n]` with data[a] == a. */
  function Iota(n: nat): (m: map<int, int>)
    ensures forall a :: a in m <==> 0 <= a < n
    ensures forall a :: a in m ==> m[a] == a
  {
    if n == 0 then map[] else Iota(n - 1)[n - 1 := n - 1]
  }

  /** test/array_ref.cpp:22-41: a dense 2-D view of extents (20, 5) resolves
      to strides (1, 20). */
  lemma DenseRefShape()
    ensures Resolve([DimSpec(0, 20, Some(1)), DimSpec(0, 5, None)]) == [Dim(0, 20, 1), Dim(0, 5, 20)]
  {
    var spec := [DimSpec(0, 20, Some(1)), DimSpec(0, 5, None)];
    OneKnownPacks(spec, 0);
    var order := MoveToFront(0, 2);
    assert order == [0, 1];
    assert Inverse(order) == [0, 1];
    assert Pick(SpecExtents(spec), order) == [20, 5];
    assert Pitch([20, 5], 1) == 20;
    assert Packed(spec, order) == [Dim(0, 20, 1), Dim(0, 5, 20)];
  }

  /** test/array_ref.cpp:22-41: that view of data[100] reads data[y * 20 + x]
      at (x, y); its width (rows) is 20 and its height (columns) 5. */
  lemma DenseRefExample()
    ensures var r := View(Some(Iota(100)), 0, [Dim(0, 20, 1), Dim(0, 5, 20)]);
      && r.shape[0].extent == 20 && r.shape[1].extent == 5
      && forall x, y :: 0 <= x < 20 && 0 <= y < 5 ==> Readable(r, [x, y]) && At(r, [x, y]) == y * 20 + x
  {
    var r := View(Some(Iota(100)), 0, [Dim(0, 20, 1), Dim(0, 5, 20)]);
    forall x, y | 0 <= x < 20 && 0 <= y < 5
      ensures Readable(r, [x, y]) && At(r, [x, y]) == y * 20 + x
    {
      assert Front([x, y]) == [x] && Front(r.shape) == [Dim(0, 20, 1)];
      assert Front([x]) == [] && Front([Dim(0, 20, 1)]) == [];
      assert Offset([Dim(0, 20, 1)], [x]) == x;
      assert Offset(r.shape, [x, y]) == x + y * 20;
    }
  }

  /** test/array_ref.cpp:62-74: the view dim(0, 50, 2) of data[100] reads
      data[2 * i] at i. */
  lemma EvensExample()
    ensures var evens := View(Some(Iota(100)), 0, [Dim(0, 50, 2)]);
      forall i :: 0 <= i < 50 ==> Readable(evens, [i]) && At(evens, [i]) == 2 * i
  {
    var evens := View(Some(Iota(100)), 0, [Dim(0, 50, 2)]);
    forall i | 0 <= i < 50
      ensures Readable(evens, [i]) && At(evens, [i]) == 2 * i
    {
      assert Offset(evens.shape, [i]) == i * 2;
    }
  }

  /** test/array_ref.cpp:76-81: a null view of extent 10 is empty, and stays
      empty after set_shape({{3, 3}}, 3). */
  lemma NullViewExample()
    ensures var nothing: View<int> := View(None, 0, [Dim(0, 10, 1)]);
      IsEmpty(nothing) && IsEmpty(SetShape(nothing, [Dim(3, 3, 1)], 3))
  {
  }

  /** The array of test/array_ref.cpp:158-195: dimension x is dense with
      extent 8, dimension y has extent 9 and an unknown stride, which resolves
      to 8. */
  lemma CropSliceShape()
    ensures Resolve([DimSpec(0, 8, Some(1)), DimSpec(0, 9, None)]) == [Dim(0, 8, 1), Dim(0, 9, 8)]
  {
    var spec := [DimSpec(0, 8, Some(1)), DimSpec(0, 9, None)];
    OneKnownPacks(spec, 0);
    var order := MoveToFront(0, 2);
    assert order == [0, 1];
    assert Inverse(order) == [0, 1];
    assert Pick(SpecExtents(spec), order) == [8, 9];
    assert Pitch([8, 9], 1) == 8;
    assert Packed(spec, order) == [Dim(0, 8, 1), Dim(0, 9, 8)];
  }

  /** The slices and crops of test/array_ref.cpp:158-194 on that array:
      a(3, _) has a.y() as its dimension, a(_, 2) has a.x(); a(range(4, 3), 5)
      has (4, 3, 1); a(6, range(4, 3)) has (4, 3, 8); a(range(2, 6), range(3, 4))
      has (2, 6, 1) and (3, 4, 8); a(_, range(3, 4)) keeps x and has (3, 4, 8). */
  lemma CropSliceExamples<T>(a: View<T>)
    requires a.shape == [Dim(0, 8, 1), Dim(0, 9, 8)]
    ensures Slice(a, 0, 3).shape == [a.shape[1]]
    ensures Slice(a, 1, 2).shape == [a.shape[0]]
    ensures var c := Crop(a, [Interval(4, 3), Interval(0, 9)]);
      c.Success? && Slice(c.value, 1, 5).shape == [Dim(4, 3, 1)]
    ensures var c := Crop(a, [Interval(0, 8), Interval(4, 3)]);
      c.Success? && Slice(c.value, 0, 6).shape == [Dim(4, 3, 8)]
    ensures var c := Crop(a, [Interval(2, 6), Interval(3, 4)]);
      c.Success? && c.value.shape == [Dim(2, 6, 1), Dim(3, 4, 8)]
    ensures var c := Crop(a, Ranges(a.shape)[1 := Interval(3, 4)]);
      c.Success? && c.value.shape == [a.shape[0], Dim(3, 4, 8)]
  {
    assert Ranges(a.shape) == [Interval(0, 8), Interval(0, 9)];
  }
}
