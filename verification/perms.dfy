/** Permutations of dimension positions and sums of integer sequences. */
module Perms {

  /** `order` lists each of 0 .. n-1 exactly once. */
  predicate IsPermutation(order: seq<nat>, n: nat) {
    && |order| == n
    && (forall k :: 0 <= k < n ==> order[k] < n)
    && (forall k, l :: 0 <= k < l < n ==> order[k] != order[l])
    && (forall d :: 0 <= d < n ==> d in order)
  }

  /** The permutation that leaves every position where it is. */
  function Identity(n: nat): (order: seq<nat>)
    ensures IsPermutation(order, n)
    ensures forall k :: 0 <= k < n ==> order[k] == k
  {
    var order := seq(n, k requires 0 <= k < n => k);
    assert forall d :: 0 <= d < n ==> order[d] == d && d in order;
    order
  }

  /** The entries of `xs` at the positions `order` names, in that order. */
  function Pick<T>(xs: seq<T>, order: seq<nat>): (r: seq<T>)
    requires forall k :: 0 <= k < |order| ==> order[k] < |xs|
    ensures |r| == |order|
    ensures forall k :: 0 <= k < |order| ==> r[k] == xs[order[k]]
  {
    seq(|order|, k requires 0 <= k < |order| => xs[order[k]])
  }

  /** The position at which `order` holds `d`. */
  function Position(order: seq<nat>, d: nat): (k: nat)
    requires d in order
    ensures k < |order| && order[k] == d
  {
    if order[0] == d then 0 else 1 + Position(order[1..], d)
  }

  /** The inverse permutation: Inverse(order)[order[k]] == k. */
  function Inverse(order: seq<nat>): (inv: seq<nat>)
    requires IsPermutation(order, |order|)
    ensures |inv| == |order|
    ensures forall d :: 0 <= d < |order| ==> inv[d] < |order| && order[inv[d]] == d
  {
    seq(|order|, d requires 0 <= d < |order| => Position(order, d))
  }

  lemma IdentityInverse(n: nat)
    ensures Inverse(Identity(n)) == Identity(n)
  {
    var inv := Inverse(Identity(n));
    assert forall d :: 0 <= d < n ==> inv[d] == d;
  }

  lemma InverseIsPermutation(order: seq<nat>)
    requires IsPermutation(order, |order|)
    ensures IsPermutation(Inverse(order), |order|)
    ensures forall k :: 0 <= k < |order| ==> Inverse(order)[order[k]] == k
  {
    var inv := Inverse(order);
    var n := |order|;
    forall k | 0 <= k < n
      ensures inv[order[k]] == k
    {
      var j := inv[order[k]];
      assert order[j] == order[k];
    }
    forall d | 0 <= d < n
      ensures d in inv
    {
      assert inv[order[d]] == d;
    }
  }

  /** Picking by a permutation and then by its inverse gives the sequence back. */
  lemma PickInverse<T>(xs: seq<T>, order: seq<nat>)
    requires IsPermutation(order, |xs|)
    ensures Pick(Pick(xs, order), Inverse(order)) == xs
    ensures Pick(Pick(xs, Inverse(order)), order) == xs
  {
    InverseIsPermutation(order);
  }

  function Sum(xs: seq<int>): int {
    if |xs| == 0 then 0 else Sum(xs[..|xs| - 1]) + xs[|xs| - 1]
  }

  lemma {:induction false} SumConcat(a: seq<int>, b: seq<int>)
    ensures Sum(a + b) == Sum(a) + Sum(b)
  {
    if |b| == 0 {
      assert a + b == a;
    } else {
      SumConcat(a, b[..|b| - 1]);
      assert (a + b)[..|a + b| - 1] == a + b[..|b| - 1];
    }
  }

  /** Removing one entry of a permutation of n + 1, the entry n, leaves a
      permutation of n. */
  lemma RemoveTop(order: seq<nat>, n: nat, k0: nat)
    requires IsPermutation(order, n + 1) && k0 < |order| && order[k0] == n
    ensures IsPermutation(order[..k0] + order[k0 + 1..], n)
  {
    var o := order[..k0] + order[k0 + 1..];
    assert forall k :: 0 <= k < k0 ==> o[k] == order[k];
    assert forall k :: k0 <= k < n ==> o[k] == order[k + 1];
    forall k | 0 <= k < n
      ensures o[k] < n
    {
      if k < k0 {
        assert order[k] != order[k0];
      } else {
        assert order[k0] != order[k + 1];
      }
    }
    forall k, l | 0 <= k < l < n
      ensures o[k] != o[l]
    {
      var k' := if k < k0 then k else k + 1;
      var l' := if l < k0 then l else l + 1;
      assert order[k'] != order[l'];
    }
    forall d | 0 <= d < n
      ensures d in o
    {
      var q := Position(order, d);
      if q < k0 {
        assert o[q] == d;
      } else {
        assert q != k0;
        assert o[q - 1] == d;
      }
    }
  }

  lemma PickSplit<T>(v: seq<T>, front: seq<nat>, back: seq<nat>, n: nat)
    requires n < |v|
    requires forall k :: 0 <= k < |front| ==> front[k] < |v|
    requires forall k :: 0 <= k < |back| ==> back[k] < |v|
    ensures Pick(v, front + [n] + back) == Pick(v, front) + [v[n]] + Pick(v, back)
    ensures Pick(v, front + back) == Pick(v, front) + Pick(v, back)
  {
  }

  /** A permutation of n + 1 is a permutation of n with n inserted somewhere. */
  lemma SplitTop(order: seq<nat>, n: nat) returns (front: seq<nat>, back: seq<nat>)
    requires IsPermutation(order, n + 1)
    ensures order == front + [n] + back && IsPermutation(front + back, n)
    ensures forall k :: 0 <= k < |front| ==> front[k] < n
    ensures forall k :: 0 <= k < |back| ==> back[k] < n
  {
    var k0 := Position(order, n);
    front, back := order[..k0], order[k0 + 1..];
    assert order == front + [n] + back;
    RemoveTop(order, n, k0);
    assert forall k :: 0 <= k < |front| ==> front[k] == (front + back)[k];
    assert forall k :: 0 <= k < |back| ==> back[k] == (front + back)[|front| + k];
  }

  /** A sum does not depend on the order of its summands. */
  lemma {:induction false} SumPick(v: seq<int>, order: seq<nat>)
    requires IsPermutation(order, |v|)
    ensures Sum(Pick(v, order)) == Sum(v)
    decreases |v|
  {
    if |v| > 0 {
      var front, back := SplitTop(order, |v| - 1);
      SumPick(v[..|v| - 1], front + back);
      SumPickStep(v, front, back);
    }
  }

  lemma SumPickStep(v: seq<int>, front: seq<nat>, back: seq<nat>)
    requires |v| > 0
    requires forall k :: 0 <= k < |front| ==> front[k] < |v| - 1
    requires forall k :: 0 <= k < |back| ==> back[k] < |v| - 1
    requires Sum(Pick(v[..|v| - 1], front + back)) == Sum(v[..|v| - 1])
    ensures Sum(Pick(v, front + [|v| - 1] + back)) == Sum(v)
  {
    var n := |v| - 1;
    var v' := v[..n];
    PickSplit(v, front, back, n);
    var a, b := Pick(v, front), Pick(v, back);
    assert Pick(v', front + back) == a + b;
    calc {
      Sum(Pick(v, front + [n] + back));
      Sum(a + [v[n]] + b);
      { SumConcat(a + [v[n]], b); SumConcat(a, [v[n]]); }
      Sum(a) + Sum([v[n]]) + Sum(b);
      { assert Sum([v[n]]) == v[n]; SumConcat(a, b); }
      Sum(v') + v[n];
    }
  }

  function Product(xs: seq<nat>): nat {
    if |xs| == 0 then 1 else Product(xs[..|xs| - 1]) * xs[|xs| - 1]
  }

  lemma {:induction false} ProductConcat(a: seq<nat>, b: seq<nat>)
    ensures Product(a + b) == Product(a) * Product(b)
  {
    if |b| == 0 {
      assert a + b == a;
    } else {
      ProductConcat(a, b[..|b| - 1]);
      assert (a + b)[..|a + b| - 1] == a + b[..|b| - 1];
      assert Product(a + b) == Product(a) * Product(b[..|b| - 1]) * b[|b| - 1];
    }
  }

  /** A product does not depend on the order of its factors. */
  lemma {:induction false} ProductPick(v: seq<nat>, order: seq<nat>)
    requires IsPermutation(order, |v|)
    ensures Product(Pick(v, order)) == Product(v)
    decreases |v|
  {
    if |v| > 0 {
      var front, back := SplitTop(order, |v| - 1);
      ProductPick(v[..|v| - 1], front + back);
      ProductPickStep(v, front, back);
    }
  }

  lemma ProductPickStep(v: seq<nat>, front: seq<nat>, back: seq<nat>)
    requires |v| > 0
    requires forall k :: 0 <= k < |front| ==> front[k] < |v| - 1
    requires forall k :: 0 <= k < |back| ==> back[k] < |v| - 1
    requires Product(Pick(v[..|v| - 1], front + back)) == Product(v[..|v| - 1])
    ensures Product(Pick(v, front + [|v| - 1] + back)) == Product(v)
  {
    var n := |v| - 1;
    var a, b, x := Pick(v, front), Pick(v, back), v[n];
    PickSplit(v, front, back, n);
    assert Product(Pick(v, front + [n] + back)) == Product(a) * x * Product(b) by {
      ProductConcat(a + [x], b);
      ProductConcat(a, [x]);
      assert Product([x]) == x;
    }
    assert Product(v) == Product(a) * Product(b) * x by {
      assert Pick(v[..n], front + back) == a + b;
      ProductConcat(a, b);
    }
    MulSwap(Product(a), x, Product(b));
  }

  lemma MulSwap(a: int, b: int, c: int)
    ensures a * b * c == a * c * b
  {
  }
}
