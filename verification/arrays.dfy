/** The owning array: a buffer of flat_extent slots for its shape, where the
    element at index i lives in slot Offset(shape, i) - flat_min, together
    with the element lifetime events each operation causes. */
module Arrays {
  import opened Wrappers
  import opened Dims
  import opened Shapes
  import opened Domains
  import opened Layout
  import opened Resolution
  import opened Views
  import opened Algorithms

  /** The lifetime events of the elements, as the `lifetime_counter` element
      type of test/array.cpp counts them. */
  datatype Tally = Tally(defaults: nat, copies: nat, moves: nat, copyAssigns: nat, moveAssigns: nat, destructs: nat) {
    function Constructs(): nat {
      defaults + copies + moves
    }
  }

  /** The counters right after `lifetime_counter::reset()`. */
  const Reset := Tally(0, 0, 0, 0, 0, 0)

  /** `array<T, Shape>`: a shape and, unless the array owns no buffer, the
      slots of the buffer that hold a value, keyed by slot number. */
  datatype Array<T> = Array(shape: Shape, slots: Option<map<int, T>>)

  /** An operation's resulting array and counters. */
  datatype Step<T> = Step(arr: Array<T>, tally: Tally)

  /** A move's destination, emptied source, and counters. */
  datatype Transfer<T> = Transfer(dst: Array<T>, src: Array<T>, tally: Tally)

  /** The view of an array's elements: slot 0 is the element at flat_min. */
  function AsView<T>(a: Array<T>): (v: View<T>) {
    View(a.slots, -FlatMin(a.shape), a.shape)
  }

  /** An array that owns a buffer holds a value for every element of its
      domain, and every value lies in the flat_extent slots of the buffer. */
  ghost predicate Valid<T>(a: Array<T>) {
    a.slots.Some? ==>
      && Addressable(AsView(a))
      && forall k :: k in a.slots.value ==> 0 <= k < FlatExtent(a.shape)
  }

  /** `empty()`: the array owns no buffer, or its domain is empty. */
  predicate IsEmpty<T>(a: Array<T>) {
    a.slots.None? || Size(a.shape) == 0
  }

  /** The shape of a default-constructed or cleared array: every dimension
      has extent 0. */
  function EmptyShape(rank: nat): (s: Shape)
    ensures |s| == rank && forall k :: 0 <= k < rank ==> s[k].extent == 0
  {
    seq(rank, k => Dim(0, 0, 1))
  }

  /** A default-constructed array, `array<T, Shape>()`. */
  function Empty<T>(rank: nat): (a: Array<T>)
    ensures IsEmpty(a) && Valid(a)
    ensures |a.shape| == rank && Live(a) == 0
  {
    Array(EmptyShape(rank), None)
  }

  /** The elements an array destroys when it goes away: one per index of its
      domain, none when it owns no buffer. */
  function Live<T>(a: Array<T>): (n: nat) {
    if a.slots.None? then 0 else Size(a.shape)
  }

  /** A fresh buffer for `s` with vals[p] constructed at the p-th index. */
  function Placed<T>(s: Shape, vals: seq<T>): (m: map<int, T>)
    requires |vals| == Size(s)
  {
    Store(View(Some(map[]), -FlatMin(s), s), vals).mem.value
  }

  /** A fresh buffer holds values exactly at the slots of the domain. */
  lemma PlacedKeys<T>(s: Shape, vals: seq<T>, k: int)
    requires |vals| == Size(s)
    ensures k in Placed(s, vals) <==> exists i :: InDomain(s, i) && Offset(s, i) - FlatMin(s) == k
  {
    var v := View(Some(map[]), -FlatMin(s), s);
    StoreKeys(v, vals, k);
    assert forall i :: |i| == |s| ==> Address(v, i) == Offset(s, i) - FlatMin(s);
  }

  lemma PlacedValid<T>(s: Shape, vals: seq<T>)
    requires |vals| == Size(s)
    ensures Valid(Array(s, Some(Placed(s, vals))))
  {
    var a := Array(s, Some(Placed(s, vals)));
    forall i | InDomain(s, i)
      ensures Readable(AsView(a), i)
    {
      PlacedKeys(s, vals, Offset(s, i) - FlatMin(s));
    }
    forall k | k in Placed(s, vals)
      ensures 0 <= k < FlatExtent(s)
    {
      PlacedKeys(s, vals, k);
      var i :| InDomain(s, i) && Offset(s, i) - FlatMin(s) == k;
      HitInSlots(s, i);
    }
  }

  /** A fresh buffer filled with one value holds it at every index. */
  lemma PlacedConstant<T>(s: Shape, x: T, i: Index)
    requires InDomain(s, i)
    ensures var a := Array(s, Some(Placed(s, seq(Size(s), p => x))));
      Readable(AsView(a), i) && At(AsView(a), i) == x
  {
    var q := StoreWritten(View(Some(map[]), -FlatMin(s), s), seq(Size(s), p => x), i);
  }

  /** Construction from a shape, `array<T, Shape>(shape)`: each index of the
      domain gets a value-initialised element `init` (0 for numbers), and only
      the slots of the domain are touched. */
  function Construct<T>(s: Shape, init: T, t: Tally): (r: Step<T>)
    ensures r.arr.shape == s && r.arr.slots.Some?
    ensures r.tally == t.(defaults := t.defaults + Size(s))
  {
    Step(Array(s, Some(Placed(s, seq(Size(s), p => init)))), t.(defaults := t.defaults + Size(s)))
  }

  /** The fill constructor, `array<T, Shape>(shape, x)`: one copy of x per
      index of the domain. */
  function FillConstruct<T>(s: Shape, x: T, t: Tally): (r: Step<T>)
    ensures r.arr.shape == s && r.arr.slots.Some?
    ensures r.tally == t.(copies := t.copies + Size(s))
  {
    Step(Array(s, Some(Placed(s, seq(Size(s), p => x)))), t.(copies := t.copies + Size(s)))
  }

  /** test/array.cpp:17-116: a constructed array holds `init` (or the fill
      value) at every index of its domain, sparse shapes included, and holds
      values nowhere else. */
  lemma ConstructAt<T>(s: Shape, init: T, t: Tally, i: Index)
    requires InDomain(s, i)
    ensures Valid(Construct(s, init, t).arr) && Valid(FillConstruct(s, init, t).arr)
    ensures Readable(AsView(Construct(s, init, t).arr), i) && At(AsView(Construct(s, init, t).arr), i) == init
    ensures Readable(AsView(FillConstruct(s, init, t).arr), i) && At(AsView(FillConstruct(s, init, t).arr), i) == init
  {
    PlacedValid(s, seq(Size(s), p => init));
    PlacedConstant(s, init, i);
  }

  lemma ConstructOnlyDomain<T>(s: Shape, init: T, t: Tally, k: int)
    ensures k in Construct(s, init, t).arr.slots.value <==> exists i :: InDomain(s, i) && Offset(s, i) - FlatMin(s) == k
  {
    PlacedKeys(s, seq(Size(s), p => init), k);
  }

  /** Destroying the array, at the end of its scope. */
  function Destroy<T>(a: Array<T>, t: Tally): (r: Tally)
    ensures r.destructs == t.destructs + Live(a)
    ensures r.(destructs := t.destructs) == t
  {
    t.(destructs := t.destructs + Live(a))
  }

  /** `clear()`: destroys the elements and releases the buffer. */
  function Clear<T>(a: Array<T>, t: Tally): (r: Step<T>)
    ensures IsEmpty(r.arr) && Valid(r.arr) && |r.arr.shape| == |a.shape| && Live(r.arr) == 0
    ensures r.tally == Destroy(a, t)
  {
    Step(Empty(|a.shape|), Destroy(a, t))
  }

  /** Clearing twice is clearing once: the second clear destroys nothing. */
  lemma ClearIdempotent<T>(a: Array<T>, t: Tally)
    ensures var c := Clear(a, t); Clear(c.arr, c.tally) == c
  {
  }

  /** The copy constructor: a new buffer with a copy of each element. */
  function CopyConstruct<T>(a: Array<T>, t: Tally): (r: Step<T>)
    requires Valid(a)
    ensures r.arr.shape == a.shape && (r.arr.slots.Some? <==> a.slots.Some?)
    ensures r.tally == t.(copies := t.copies + Live(a))
  {
    if a.slots.None? then Step(a, t)
    else Step(Array(a.shape, Some(Placed(a.shape, Gather(AsView(a), a.shape)))), t.(copies := t.copies + Size(a.shape)))
  }

  /** test/algorithm.cpp:20-27: a copy of an array is equal to it. */
  lemma CopyConstructEqual<T>(a: Array<T>, t: Tally)
    requires Valid(a) && a.slots.Some?
    ensures Valid(CopyConstruct(a, t).arr)
    ensures Equal(AsView(CopyConstruct(a, t).arr), AsView(a))
  {
    var c := CopyConstruct(a, t).arr;
    assert c == Array(a.shape, Some(Placed(a.shape, Gather(AsView(a), a.shape))));
    PlacedValid(a.shape, Gather(AsView(a), a.shape));
    forall i | InDomain(a.shape, i)
      ensures At(AsView(c), i) == At(AsView(a), i)
    {
      PlacedCopyAt(a, i);
    }
  }

  /** A fresh buffer holding the elements gathered from a holds, at each
      index, a's element there: where indices share a slot, they share the
      element too. */
  lemma PlacedCopyAt<T>(a: Array<T>, i: Index)
    requires Valid(a) && a.slots.Some? && InDomain(a.shape, i)
    ensures var c := Array(a.shape, Some(Placed(a.shape, Gather(AsView(a), a.shape))));
      Readable(AsView(c), i) && At(AsView(c), i) == At(AsView(a), i)
  {
    var s := a.shape;
    var vals := Gather(AsView(a), s);
    var empty := View(Some(map[]), -FlatMin(s), s);
    assert AsView(Array(s, Some(Placed(s, vals)))) == Store(empty, vals);
    var q := StoreWritten(empty, vals, i);
    var j := Indices(s)[q];
    assert Address(AsView(a), j) == Address(AsView(a), i);
  }

  /** The move constructor: the buffer changes hands and no element is
      constructed, copied or destroyed; the source is left empty. */
  function MoveConstruct<T>(a: Array<T>, t: Tally): (r: Transfer<T>)
    ensures r.dst == a && IsEmpty(r.src) && Live(r.src) == 0 && r.tally == t
  {
    Transfer(a, Empty(|a.shape|), t)
  }

  /** Copy assignment `dst = src`: element-wise copy assignment when the
      shapes are the same; otherwise the old elements are destroyed and a
      copy of the source is constructed. */
  function CopyAssign<T>(dst: Array<T>, src: Array<T>, t: Tally): (r: Step<T>)
    requires Valid(dst) && Valid(src)
    ensures r.arr.shape == src.shape && (r.arr.slots.Some? <==> src.slots.Some?)
    ensures dst.shape == src.shape && dst.slots.Some? && src.slots.Some? ==>
      r.tally == t.(copyAssigns := t.copyAssigns + Size(src.shape))
    ensures !(dst.shape == src.shape && dst.slots.Some? && src.slots.Some?) ==>
      r.tally == t.(copies := t.copies + Live(src), destructs := t.destructs + Live(dst))
  {
    if dst.shape == src.shape && dst.slots.Some? && src.slots.Some? then
      var vals := Gather(AsView(src), src.shape);
      Step(Array(dst.shape, Store(AsView(dst), vals).mem), t.(copyAssigns := t.copyAssigns + Size(src.shape)))
    else
      CopyConstruct(src, Destroy(dst, t))
  }

  /** Move assignment `dst = std::move(src)`: the old elements are destroyed,
      the buffer changes hands, and the source is left empty. */
  function MoveAssign<T>(dst: Array<T>, src: Array<T>, t: Tally): (r: Transfer<T>)
    ensures r.dst == src && IsEmpty(r.src) && Live(r.src) == 0
    ensures r.tally == t.(destructs := t.destructs + Live(dst))
  {
    Transfer(src, Empty(|src.shape|), Destroy(dst, t))
  }

  /** `assign(shape, x)`: with the same shape, x is copy-assigned to every
      element in place and the rest of the buffer is left alone; otherwise
      the old elements are destroyed and the array is fill-constructed. */
  function Assign<T>(a: Array<T>, s: Shape, x: T, t: Tally): (r: Step<T>)
    ensures r.arr.shape == s && r.arr.slots.Some?
    ensures a.shape == s && a.slots.Some? ==> r.tally == t.(copyAssigns := t.copyAssigns + Size(s))
    ensures !(a.shape == s && a.slots.Some?) ==>
      r.tally == t.(copies := t.copies + Size(s), destructs := t.destructs + Live(a))
  {
    if a.shape == s && a.slots.Some? then
      Step(Array(s, Fill(AsView(a), x).mem), t.(copyAssigns := t.copyAssigns + Size(s)))
    else
      FillConstruct(s, x, Destroy(a, t))
  }

  /** An in-place assign is a fill of the array's own view. */
  lemma AssignInPlace<T>(a: Array<T>, x: T, t: Tally)
    requires a.slots.Some?
    ensures AsView(Assign(a, a.shape, x, t).arr) == Fill(AsView(a), x)
  {
  }

  /** test/array.cpp:79-116: after assign(s, x), every element of the domain is x. */
  lemma AssignAt<T>(a: Array<T>, s: Shape, x: T, t: Tally, i: Index)
    requires InDomain(s, i)
    ensures Readable(AsView(Assign(a, s, x, t).arr), i) && At(AsView(Assign(a, s, x, t).arr), i) == x
  {
    if a.shape == s && a.slots.Some? {
      AssignInPlace(a, x, t);
      FillAt(AsView(a), x, i);
    } else {
      assert Assign(a, s, x, t).arr == Array(s, Some(Placed(s, seq(Size(s), p => x))));
      PlacedConstant(s, x, i);
    }
  }

  /** After an in-place assign, a slot holds x when an index of the domain
      lies there and keeps its old value otherwise. */
  lemma InPlaceSlot<T>(a: Array<T>, x: T, k: int)
    requires a.slots.Some? && k in a.slots.value
    ensures var m := Assign(a, a.shape, x, Reset).arr.slots.value;
      k in m && m[k] == (if Hit(a.shape, FlatMin(a.shape) + k) then x else a.slots.value[k])
  {
    assert Assign(a, a.shape, x, Reset).arr.slots == Fill(AsView(a), x).mem by {
      AssignInPlace(a, x, Reset);
    }
    FillSlot(AsView(a), x, k, FlatMin(a.shape) + k);
  }

  /** A fill writes x to exactly the addresses some index of the domain
      reaches; `off` is address k's offset from the view's base. */
  lemma FillSlot<T>(v: View<T>, x: T, k: int, off: int)
    requires v.mem.Some? && k in v.mem.value && off == k - v.base
    ensures var m := Fill(v, x).mem.value;
      k in m && m[k] == (if Hit(v.shape, off) then x else v.mem.value[k])
  {
    if Hit(v.shape, off) {
      var i :| InDomain(v.shape, i) && Offset(v.shape, i) == off;
      FillHitSlot(v, x, i, k);
    } else {
      assert forall i :: InDomain(v.shape, i) ==> Address(v, i) != k;
      FillElsewhere(v, x, k);
    }
  }

  /** An in-place assign leaves every slot outside the domain as it was. */
  lemma AssignElsewhere<T>(a: Array<T>, x: T, t: Tally, k: int)
    requires a.slots.Some? && k in a.slots.value
    requires forall i :: InDomain(a.shape, i) ==> Offset(a.shape, i) - FlatMin(a.shape) != k
    ensures var r := Assign(a, a.shape, x, t).arr;
      k in r.slots.value && r.slots.value[k] == a.slots.value[k]
  {
    FillElsewhere(AsView(a), x, k);
  }

  /** `data()[k] = x` for every slot k of the buffer, in or out of the domain. */
  function FillSlots(n: nat, x: int): (m: map<int, int>)
    ensures forall k :: k in m <==> 0 <= k < n
    ensures forall k :: k in m ==> m[k] == x
  {
    if n == 0 then map[] else FillSlots(n - 1, x)[n - 1 := x]
  }

  /** How many of the slots 0 .. n - 1 hold x. */
  function CountSlots(m: map<int, int>, n: nat, x: int): (c: nat) {
    if n == 0 then 0 else CountSlots(m, n - 1, x) + (if n - 1 in m && m[n - 1] == x then 1 else 0)
  }

  /** Sum of the multiplicities of lo .. lo + n - 1. */
  function SlotSum(m: multiset<int>, lo: int, n: nat): (c: nat) {
    if n == 0 then 0 else SlotSum(m, lo, n - 1) + m[lo + n - 1]
  }

  /** How many of lo .. lo + n - 1 occur at all. */
  function HitCount(m: multiset<int>, lo: int, n: nat): (c: nat) {
    if n == 0 then 0 else HitCount(m, lo, n - 1) + (if m[lo + n - 1] >= 1 then 1 else 0)
  }

  lemma {:induction false} SlotSumAdd(m: multiset<int>, x: int, lo: int, n: nat)
    ensures SlotSum(m + multiset{x}, lo, n) == SlotSum(m, lo, n) + (if lo <= x < lo + n then 1 else 0)
  {
    if n > 0 {
      SlotSumAdd(m, x, lo, n - 1);
    }
  }

  /** Values that all lie in lo .. lo + n - 1 are all counted by the slots. */
  lemma {:induction false} SlotSumAll(os: seq<int>, lo: int, n: nat)
    requires forall p :: 0 <= p < |os| ==> lo <= os[p] < lo + n
    ensures SlotSum(multiset(os), lo, n) == |os|
  {
    if |os| == 0 {
      assert SlotSum(multiset{}, lo, n) == 0 by {
        SlotSumEmpty(lo, n);
      }
    } else {
      SlotSumAll(Front(os), lo, n);
      assert os == Front(os) + [Last(os)];
      assert multiset(os) == multiset(Front(os)) + multiset{Last(os)};
      SlotSumAdd(multiset(Front(os)), Last(os), lo, n);
    }
  }

  lemma {:induction false} SlotSumEmpty(lo: int, n: nat)
    ensures SlotSum(multiset{}, lo, n) == 0
  {
    if n > 0 {
      SlotSumEmpty(lo, n - 1);
    }
  }

  /** With multiplicities at most 1, occurring and counting agree. */
  lemma {:induction false} HitCountIsSum(m: multiset<int>, lo: int, n: nat)
    requires forall a :: lo <= a < lo + n ==> m[a] <= 1
    ensures HitCount(m, lo, n) == SlotSum(m, lo, n)
  {
    if n > 0 {
      HitCountIsSum(m, lo, n - 1);
      assert m[lo + n - 1] <= 1;
    }
  }

  /** When exactly the unoccupied slots hold w, those slots and the
      occupied ones share out the first n slots. */
  lemma {:induction false} CountUnhit(m: map<int, int>, s: Shape, n: nat, w: int)
    requires forall k :: 0 <= k < n ==> KeepsUnhit(m, s, w, k)
    ensures CountSlots(m, n, w) + HitCount(multiset(Offsets(s)), FlatMin(s), n) == n
  {
    if n > 0 {
      CountUnhit(m, s, n - 1, w);
      assert KeepsUnhit(m, s, w, n - 1);
    }
  }

  /** In a one-to-one shape, the domain occupies `size` of the slots. */
  lemma OccupiedSlots(s: Shape)
    requires IsOneToOne(s)
    ensures HitCount(multiset(Offsets(s)), FlatMin(s), FlatExtent(s)) == Size(s)
  {
    var os, lo, n := Offsets(s), FlatMin(s), FlatExtent(s);
    forall p | 0 <= p < |os|
      ensures lo <= os[p] < lo + n
    {
      OffsetsInSlots(s, p);
    }
    SlotSumAll(os, lo, n);
    assert forall a :: lo <= a < lo + n ==> multiset(os)[a] <= 1 by {
      forall a | lo <= a < lo + n
        ensures multiset(os)[a] <= 1
      {
        assert Hits(s, a) <= 1;
      }
    }
    HitCountIsSum(multiset(os), lo, n);
  }

  /** The slot of an index of the domain holds the filled value. */
  lemma FillHitSlot<T>(v: View<T>, x: T, i: Index, k: int)
    requires v.mem.Some? && InDomain(v.shape, i) && Address(v, i) == k
    ensures k in Fill(v, x).mem.value && Fill(v, x).mem.value[k] == x
  {
    FillAt(v, x, i);
  }

  /** The contents of every slot after the storage of a shape-constructed
      array is overwritten with w and then assign(shape, v) is called: v
      where the domain lies, w elsewhere. */
  lemma SparseSlot(s: Shape, v: int, w: int, k: int)
    requires v != w && 0 <= k < FlatExtent(s)
    ensures var a := Array(s, Some(FillSlots(FlatExtent(s), w)));
      var m := Assign(a, s, v, Reset).arr.slots.value;
      k in m && (m[k] == w <==> Hits(s, FlatMin(s) + k) == 0)
  {
    var a := Array(s, Some(FillSlots(FlatExtent(s), w)));
    assert k in a.slots.value && a.slots.value[k] == w;
    KeptSlot(a, s, v, w, k);
  }

  /** A slot holding w after an in-place assign of v != w is one no index reaches. */
  lemma KeptSlot(a: Array<int>, s: Shape, v: int, w: int, k: int)
    requires a.shape == s && v != w && a.slots.Some? && k in a.slots.value && a.slots.value[k] == w
    ensures var m := Assign(a, s, v, Reset).arr.slots.value;
      k in m && (m[k] == w <==> Hits(s, FlatMin(s) + k) == 0)
  {
    InPlaceSlot(a, v, k);
    HitsPositive(s, FlatMin(s) + k);
  }

  /** test/array.cpp:118-143 for every one-to-one shape: an in-place assign
      writes only the slots of the domain, so exactly flat_extent - size
      slots keep the value written into the raw storage. */
  lemma SparseAssignUntouched(s: Shape, v: int, w: int)
    requires IsOneToOne(s) && v != w
    ensures CountSlots(Reassigned(s, v, w), FlatExtent(s), w) == FlatExtent(s) - Size(s)
  {
    UntouchedSlots(s, v, w);
    OccupiedSlots(s);
  }

  /** The slots of an array of shape s after its raw storage is overwritten
      with w and assign(s, v) is called. */
  function Reassigned(s: Shape, v: int, w: int): (m: map<int, int>)
    ensures forall k :: 0 <= k < FlatExtent(s) ==> k in m
  {
    var a := Array(s, Some(FillSlots(FlatExtent(s), w)));
    var r := Assign(a, s, v, Reset).arr.slots.value;
    assert forall k :: 0 <= k < FlatExtent(s) ==> k in r by {
      forall k | 0 <= k < FlatExtent(s)
        ensures k in r
      {
        StoreKeys(AsView(a), seq(Size(s), p => v), k);
      }
    }
    r
  }

  lemma ReassignedSlot(s: Shape, v: int, w: int, k: int)
    requires v != w && 0 <= k < FlatExtent(s)
    ensures Reassigned(s, v, w)[k] == w <==> Hits(s, FlatMin(s) + k) == 0
  {
    SparseSlot(s, v, w, k);
  }

  /** The slots keeping w and the slots the domain occupies share out the
      flat extent. */
  lemma UntouchedSlots(s: Shape, v: int, w: int)
    requires v != w
    ensures CountSlots(Reassigned(s, v, w), FlatExtent(s), w)
      + HitCount(multiset(Offsets(s)), FlatMin(s), FlatExtent(s)) == FlatExtent(s)
  {
    forall k | 0 <= k < FlatExtent(s)
      ensures KeepsUnhit(Reassigned(s, v, w), s, w, k)
    {
      ReassignedSlot(s, v, w, k);
    }
    CountUnhit(Reassigned(s, v, w), s, FlatExtent(s), w);
  }

  /** Slot k holds w exactly when no index of the domain lies there. */
  predicate KeepsUnhit(m: map<int, int>, s: Shape, w: int, k: int) {
    k in m && (m[k] == w <==> Hits(s, FlatMin(s) + k) == 0)
  }

  /** The sparse shape of test/array.cpp: dim(-2, 5, 2) by dim(4, 10, 20). */
  const Sparse: Shape := [Dim(-2, 5, 2), Dim(4, 10, 20)]

  lemma SparseOffset(i: Index)
    requires |i| == 2
    ensures Offset(Sparse, i) == 2 * i[0] + 20 * i[1]
  {
    assert Front(i) == [i[0]] && Front(Sparse) == [Dim(-2, 5, 2)];
    assert Offset([Dim(-2, 5, 2)], [i[0]]) == i[0] * 2;
  }

  /** The sparse shape has 50 elements spread over 189 slots, no two
      elements sharing a slot. */
  lemma SparseLayout()
    ensures Size(Sparse) == 50 && FlatMin(Sparse) == 76 && FlatExtent(Sparse) == 189
    ensures IsOneToOne(Sparse)
  {
    assert Front(Sparse) == [Dim(-2, 5, 2)];
    forall i, j | InDomain(Sparse, i) && InDomain(Sparse, j) && Offset(Sparse, i) == Offset(Sparse, j)
      ensures i == j
    {
      SparseSameOffset(i, j);
    }
  }

  lemma SparseSameOffset(i: Index, j: Index)
    requires InDomain(Sparse, i) && InDomain(Sparse, j) && Offset(Sparse, i) == Offset(Sparse, j)
    ensures i == j
  {
    SparseOffset(i);
    SparseOffset(j);
    assert Sparse[0].Contains(i[0]) && Sparse[0].Contains(j[0]);
    assert -20 < 20 * (i[1] - j[1]) < 20;
    assert i == [i[0], i[1]] && j == [j[0], j[1]];
  }

  /** test/array.cpp:118-143: of the 189 slots of the sparse array, the 139
      outside its domain keep the 7 written into the raw storage after
      assign(shape, 3). */
  lemma SparseArrayExample()
    ensures CountSlots(Reassigned(Sparse, 3, 7), FlatExtent(Sparse), 7) == 139
  {
    SparseLayout();
    SparseAssignUntouched(Sparse, 3, 7);
  }

  /** test/array.cpp:186-193: shape construction and destruction. */
  lemma DefaultInitLifetime<T>(s: Shape, init: T)
    ensures var c := Construct(s, init, Reset);
      var t := Destroy(c.arr, c.tally);
      t.defaults == Size(s) && t.destructs == Size(s)
  {
  }

  /** test/array.cpp:195-202: fill construction from a temporary, which is
      itself default-constructed before and destroyed after. */
  lemma CopyInitLifetime<T>(s: Shape, x: T)
    ensures var c := FillConstruct(s, x, Reset.(defaults := 1));
      var t := Destroy(c.arr, c.tally.(destructs := c.tally.destructs + 1));
      t.copies == Size(s) && t.destructs == Size(s) + 1
  {
  }

  /** test/array.cpp:204-212: copy construction, then both arrays destroyed. */
  lemma CopyLifetime<T>(s: Shape, init: T)
    ensures Valid(Construct(s, init, Reset).arr)
    ensures var source := Construct(s, init, Reset).arr;
      var c := CopyConstruct(source, Reset);
      var t := Destroy(source, Destroy(c.arr, c.tally));
      t.copies == Size(s) && t.destructs == 2 * Size(s)
  {
    ConstructEmptyValid(s, init);
    CopyTally(Construct(s, init, Reset).arr, Reset);
  }

  /** Copy construction followed by the destruction of both arrays: one copy
      and two destructions per element of the source. */
  lemma CopyTally<T>(source: Array<T>, t: Tally)
    requires Valid(source) && source.slots.Some?
    ensures var c := CopyConstruct(source, t);
      Destroy(source, Destroy(c.arr, c.tally))
        == t.(copies := t.copies + Size(source.shape), destructs := t.destructs + 2 * Size(source.shape))
  {
  }

  /** A constructed array is valid even when its domain is empty. */
  lemma ConstructEmptyValid<T>(s: Shape, init: T)
    ensures Valid(Construct(s, init, Reset).arr)
  {
    PlacedValid(s, seq(Size(s), p => init));
  }

  /** test/array.cpp:214-222: move construction constructs nothing, and only
      the destination's elements are destroyed. */
  lemma MoveLifetime<T>(s: Shape, init: T)
    ensures var source := Construct(s, init, Reset).arr;
      var m := MoveConstruct(source, Reset);
      var t := Destroy(m.src, Destroy(m.dst, m.tally));
      t.Constructs() == 0 && t.destructs == Size(s)
  {
  }

  /** test/array.cpp:224-233: copy assignment into a default-constructed array. */
  lemma CopyAssignLifetime<T>(s: Shape, init: T)
    ensures var source := Construct(s, init, Reset).arr;
      Valid(source) && Valid(Empty<T>(|s|)) &&
      var c := CopyAssign(Empty<T>(|s|), source, Reset);
      var t := Destroy(source, Destroy(c.arr, c.tally));
      t.copies == Size(s) && t.destructs == 2 * Size(s)
  {
    var source := Construct(s, init, Reset).arr;
    ConstructEmptyValid(s, init);
    CopyAssignInto(source, Empty<T>(|s|), s);
  }

  /** Copy-assigning a constructed array into one that holds nothing, then
      destroying both: one copy and two destructions per element. */
  lemma CopyAssignInto<T>(source: Array<T>, none: Array<T>, s: Shape)
    requires Valid(source) && source.slots.Some? && source.shape == s && none.slots.None?
    ensures Valid(none) &&
      var c := CopyAssign(none, source, Reset);
      var t := Destroy(source, Destroy(c.arr, c.tally));
      t.copies == Size(s) && t.destructs == 2 * Size(s)
  {
  }

  /** test/array.cpp:235-244: move assignment into a default-constructed array. */
  lemma MoveAssignLifetime<T>(s: Shape, init: T)
    ensures var m := MoveAssign(Empty<T>(|s|), Construct(s, init, Reset).arr, Reset);
      var t := Destroy(m.src, Destroy(m.dst, m.tally));
      t.copies == 0 && t.destructs == Size(s)
  {
    var source := Construct(s, init, Reset).arr;
    MoveAssignInto(source, Empty<T>(|s|), s);
  }

  /** Moving a constructed array into one that holds nothing. */
  lemma MoveAssignInto<T>(source: Array<T>, none: Array<T>, s: Shape)
    requires source.slots.Some? && source.shape == s && none.slots.None?
    ensures var m := MoveAssign(none, source, Reset);
      var t := Destroy(m.src, Destroy(m.dst, m.tally));
      t.copies == 0 && t.destructs == Size(s)
  {
  }

  /** Move assignment destroys the old elements and then those it took over. */
  lemma MoveAssignTally<T>(dst: Array<T>, src: Array<T>, t: Tally)
    ensures var m := MoveAssign(dst, src, t);
      Destroy(m.src, Destroy(m.dst, m.tally)) == t.(destructs := t.destructs + Live(dst) + Live(src))
  {
  }

  /** test/array.cpp:246-252: clear destroys every element once. */
  lemma ClearLifetime<T>(s: Shape, init: T)
    ensures var c := Construct(s, init, Reset);
      var t := Clear(c.arr, c.tally).tally;
      t.defaults == Size(s) && t.destructs == Size(s)
  {
  }

  /** The shape `make_dense_copy` allocates: the same domain, with every
      stride resolved so the elements are packed in dimension order. */
  function DenseShape(s: Shape): (d: Shape)
    ensures SameDomain(d, s)
  {
    MakeCompact(s, seq(|s|, k => false))
  }

  lemma DenseShapeLayout(s: Shape)
    ensures IsCompact(DenseShape(s)) && IsOneToOne(DenseShape(s)) && Injective(DenseShape(s))
    ensures forall i :: InDomain(DenseShape(s), i) ==> InDomain(s, i)
  {
    var d := DenseShape(s);
    MakeCompactLayout(s, seq(|s|, k => false));
    forall i | InDomain(d, i)
      ensures InDomain(s, i)
    {
      SameDomainInDomain(d, s, i);
    }
  }

  /** `make_dense_copy(ref)`: a new array over the same domain, packed densely
      in dimension order, holding a copy of each element. */
  function MakeDenseCopy<T>(v: View<T>, t: Tally): (r: Step<T>)
    requires Addressable(v)
    ensures SameDomain(r.arr.shape, v.shape) && r.arr.slots.Some?
    ensures r.tally == t.(copies := t.copies + Size(v.shape))
  {
    var d := DenseShape(v.shape);
    SameDomainIndices(d, v.shape);
    DenseShapeLayout(v.shape);
    Step(Array(d, Some(Placed(d, Gather(v, d)))), t.(copies := t.copies + Size(v.shape)))
  }

  /** A fresh buffer for a one-to-one d holding the elements gathered from v
      has, at each index of d, the element v holds there. */
  lemma PlacedGatherAt<T>(v: View<T>, d: Shape, i: Index)
    requires |v.shape| == |d| && Addressable(v) && forall j :: InDomain(d, j) ==> InDomain(v.shape, j)
    requires Injective(d) && InDomain(d, i)
    ensures var c := Array(d, Some(Placed(d, Gather(v, d))));
      Readable(AsView(c), i) && At(AsView(c), i) == At(v, i)
  {
    var vals := Gather(v, d);
    var empty := View(Some(map[]), -FlatMin(d), d);
    assert AsView(Array(d, Some(Placed(d, vals)))) == Store(empty, vals);
    StoreAt(empty, vals, i);
    RankIndices(d, i);
  }

  /** The dense copy is compact and one-to-one and holds the view's element
      at every index. */
  lemma MakeDenseCopyAt<T>(v: View<T>, t: Tally, i: Index)
    requires Addressable(v) && InDomain(v.shape, i)
    ensures var c := MakeDenseCopy(v, t).arr;
      IsCompact(c.shape) && IsOneToOne(c.shape) && Valid(c) && InDomain(c.shape, i)
      && Readable(AsView(c), i) && At(AsView(c), i) == At(v, i)
  {
    var d := DenseShape(v.shape);
    DenseShapeLayout(v.shape);
    SameDomainInDomain(d, v.shape, i);
    var vals := Gather(v, d);
    assert MakeDenseCopy(v, t).arr == Array(d, Some(Placed(d, vals)));
    PlacedValid(d, vals);
    PlacedGatherAt(v, d, i);
  }

  /** The evens view of data[100]: every other element, from 0. */
  const Evens: View<int> := View(Some(Iota(100)), 0, [Dim(0, 50, 2)])

  lemma EvensAddressable()
    ensures Addressable(Evens)
    ensures forall i :: 0 <= i < 50 ==> Readable(Evens, [i]) && At(Evens, [i]) == 2 * i
  {
    EvensExample();
    forall i | InDomain(Evens.shape, i)
      ensures Readable(Evens, i)
    {
      assert i == [i[0]];
    }
  }

  /** test/array_ref.cpp:62-74: the dense copy of the evens view of data[100]
      holds 2 * i at every i. */
  lemma EvensCopyExample()
    ensures Addressable(Evens)
    ensures var c := MakeDenseCopy(Evens, Reset).arr;
      forall i :: 0 <= i < 50 ==> InDomain(c.shape, [i]) && Readable(AsView(c), [i]) && At(AsView(c), [i]) == 2 * i
  {
    EvensAddressable();
    var c := MakeDenseCopy(Evens, Reset).arr;
    forall i | 0 <= i < 50
      ensures InDomain(c.shape, [i]) && Readable(AsView(c), [i]) && At(AsView(c), [i]) == 2 * i
    {
      assert InDomain(Evens.shape, [i]);
      MakeDenseCopyAt(Evens, Reset, [i]);
    }
  }
}
