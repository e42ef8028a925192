/** Enumeration of a shape's domain in natural order: dimension 0 varies
    fastest and the last dimension slowest, each from min upwards. */
module Domains {
  import opened Dims
  import opened Shapes

  /** Every index of `inner` extended by one more coordinate, for the
      coordinates lo, lo + 1, ..., lo + n - 1 in turn (the outer loop). */
  function Extend(inner: seq<Index>, lo: int, n: nat): (r: seq<Index>)
    ensures |r| == n * |inner|
  {
    seq(n * |inner|, p requires 0 <= p < n * |inner| => inner[p % |inner|] + [lo + p / |inner|])
  }

  /** The multi-indices of the domain in visiting order. */
  function Indices(s: Shape): (r: seq<Index>)
    ensures |r| == Size(s)
  {
    if |s| == 0 then [[]] else Extend(Indices(Front(s)), Last(s).min, Last(s).extent)
  }

  /** The mixed-radix position of an index among the domain's indices. */
  function Rank(s: Shape, i: Index): int
    requires |i| == |s|
  {
    if |s| == 0 then 0 else Rank(Front(s), Front(i)) + (Last(i) - Last(s).min) * Size(Front(s))
  }

  lemma DivMod(p: int, m: int, q: int, r: int)
    requires m > 0 && 0 <= r < m && p == q * m + r
    ensures p / m == q && p % m == r
  {
    var q', r' := p / m, p % m;
    assert p == q' * m + r' && 0 <= r' < m;
    assert (q' - q) * m == r - r' by {
      assert (q' - q) * m == q' * m - q * m;
    }
    if q' > q {
      MulMono(1, q' - q, m);
    } else if q' < q {
      MulMono(1, q - q', m);
    }
  }

  lemma MulBelow(a: int, b: int, n: int)
    requires 0 <= a < n && b > 0
    ensures a * b <= (n - 1) * b
  {
    MulMono(a, n - 1, b);
  }

  /** Position p of an extension splits into an inner position and an outer
      coordinate. */
  lemma ExtendAt(inner: seq<Index>, lo: int, n: nat, p: int)
    requires 0 <= p < n * |inner|
    ensures |inner| > 0 && 0 <= p / |inner| < n && 0 <= p % |inner| < |inner|
    ensures Extend(inner, lo, n)[p] == inner[p % |inner|] + [lo + p / |inner|]
  {
    var m := |inner|;
    var q := p / m;
    if q >= n {
      MulMono(n, q, m);
    }
  }

  /** The extension visits inner position r with outer coordinate lo + q at
      position q * |inner| + r. */
  lemma ExtendDigits(inner: seq<Index>, lo: int, n: nat, q: int, r: int)
    requires 0 <= q < n && 0 <= r < |inner|
    ensures 0 <= q * |inner| + r < |Extend(inner, lo, n)|
    ensures Extend(inner, lo, n)[q * |inner| + r] == inner[r] + [lo + q]
  {
    var p := q * |inner| + r;
    DigitsBelow(q, r, |inner|, n);
    DivMod(p, |inner|, q, r);
  }

  /** An inner index j at position r, extended by a coordinate x of the
      outer dimension d, is visited at position r + (x - min) * |inner|. */
  lemma ExtendVisits(inner: seq<Index>, m: nat, d: Dim, j: Index, x: int, r: int)
    requires m == |inner| && 0 <= r < m && inner[r] == j && d.Contains(x)
    ensures 0 <= r + (x - d.min) * m < m * d.extent
    ensures Extend(inner, d.min, d.extent)[r + (x - d.min) * m] == j + [x]
  {
    var q := x - d.min;
    assert r + q * |inner| == q * |inner| + r;
    ExtendDigits(inner, d.min, d.extent, q, r);
  }

  /** Mixed-radix digits q (below n) and r (below m) make a position below n * m. */
  lemma DigitsBelow(q: int, r: int, m: int, n: int)
    requires 0 <= q < n && 0 <= r < m
    ensures 0 <= q * m + r < n * m
  {
    MulBelow(q, m, n);
    assert (n - 1) * m + m == n * m;
  }

  /** An index is in the domain when its front is in the front's domain
      and its last coordinate in the last dimension. */
  lemma SnocInDomain(s: Shape, j: Index)
    requires |s| > 0 && |j| == |s|
    requires InDomain(Front(s), Front(j)) && Last(s).Contains(Last(j))
    ensures InDomain(s, j)
  {
    forall k | 0 <= k < |s|
      ensures s[k].Contains(j[k])
    {
      if k < |s| - 1 {
        assert Front(s)[k] == s[k] && Front(j)[k] == j[k];
      }
    }
  }

  /** The indices of a non-scalar shape extend those of its front. */
  lemma IndicesStep(s: Shape)
    requires |s| > 0
    ensures Indices(s) == Extend(Indices(Front(s)), Last(s).min, Last(s).extent)
    ensures |Indices(Front(s))| == Size(Front(s))
  {
  }

  /** The p-th visited index of a non-scalar shape: its front is visited at
      p % m in the front's domain, and its last coordinate is min + p / m,
      where m is the front's size. */
  lemma IndicesAtStep(s: Shape, p: int) returns (q: int, r: int)
    requires |s| > 0 && 0 <= p < Size(s)
    ensures 0 <= q < Last(s).extent && 0 <= r < Size(Front(s)) && p == q * Size(Front(s)) + r
    ensures Indices(s)[p] == Indices(Front(s))[r] + [Last(s).min + q]
  {
    var inner := Indices(Front(s));
    IndicesStep(s);
    ExtendAt(inner, Last(s).min, Last(s).extent, p);
    q, r := p / |inner|, p % |inner|;
    DivModParts(p, |inner|);
  }

  lemma DivModParts(p: int, m: int)
    requires m > 0
    ensures p == (p / m) * m + p % m
  {
  }

  /** The rank of an index extended by one coordinate. */
  lemma RankSnoc(s: Shape, j: Index, q: int, r: int)
    requires |s| > 0 && |j| == |s| && Rank(Front(s), Front(j)) == r && Last(j) == Last(s).min + q
    ensures Rank(s, j) == q * Size(Front(s)) + r
  {
    MulEqual(Last(j) - Last(s).min, q, Size(Front(s)));
  }

  lemma MulEqual(a: int, b: int, m: int)
    requires a == b
    ensures a * m == b * m
  {
  }

  /** The p-th visited index is in the domain and its rank is p. */
  lemma {:induction false} IndicesAt(s: Shape, p: int)
    requires 0 <= p < Size(s)
    ensures InDomain(s, Indices(s)[p]) && Rank(s, Indices(s)[p]) == p
  {
    if |s| > 0 {
      var q, r := IndicesAtStep(s, p);
      var j := Indices(s)[p];
      IndicesAt(Front(s), r);
      assert Front(j) == Indices(Front(s))[r] && Last(j) == Last(s).min + q;
      RankSnoc(s, j, q, r);
      SnocInDomain(s, j);
    }
  }

  /** Every in-domain index is visited, at the position given by its rank. */
  lemma {:induction false} RankIndices(s: Shape, i: Index)
    requires InDomain(s, i)
    ensures 0 <= Rank(s, i) < Size(s) && Indices(s)[Rank(s, i)] == i
  {
    if |s| > 0 {
      FrontInDomain(s, i);
      RankIndices(Front(s), Front(i));
      assert s == Front(s) + [Last(s)] && i == Front(i) + [Last(i)];
      SnocVisited(Front(s), Last(s), Front(i), Last(i));
    }
  }

  /** One induction step of RankIndices: an index visited in the front's
      domain, extended by a coordinate of the last dimension, is visited at
      its rank. */
  lemma SnocVisited(front: Shape, d: Dim, j: Index, x: int)
    requires |j| == |front| && d.Contains(x)
    requires 0 <= Rank(front, j) < Size(front) && Indices(front)[Rank(front, j)] == j
    ensures 0 <= Rank(front + [d], j + [x]) < Size(front + [d])
    ensures Indices(front + [d])[Rank(front + [d], j + [x])] == j + [x]
  {
    SnocRankBelow(front, d, j, x);
    SnocAt(front, d, j, x);
  }

  lemma SnocRankBelow(front: Shape, d: Dim, j: Index, x: int)
    requires |j| == |front| && d.Contains(x)
    requires 0 <= Rank(front, j) < Size(front) && Indices(front)[Rank(front, j)] == j
    ensures 0 <= Rank(front + [d], j + [x]) < Size(front + [d])
  {
    SnocUnfold(front, d, j, x);
    ExtendVisits(Indices(front), Size(front), d, j, x, Rank(front, j));
  }

  lemma SnocAt(front: Shape, d: Dim, j: Index, x: int)
    requires |j| == |front| && d.Contains(x)
    requires 0 <= Rank(front, j) < Size(front) && Indices(front)[Rank(front, j)] == j
    requires 0 <= Rank(front + [d], j + [x]) < Size(front + [d])
    ensures Indices(front + [d])[Rank(front + [d], j + [x])] == j + [x]
  {
    SnocUnfold(front, d, j, x);
    ExtendVisits(Indices(front), Size(front), d, j, x, Rank(front, j));
  }

  /** Rank, size and visiting order of a shape extended by one dimension. */
  lemma SnocUnfold(front: Shape, d: Dim, j: Index, x: int)
    requires |j| == |front|
    ensures Rank(front + [d], j + [x]) == Rank(front, j) + (x - d.min) * Size(front)
    ensures Size(front + [d]) == Size(front) * d.extent
    ensures Indices(front + [d]) == Extend(Indices(front), d.min, d.extent)
  {
    var s, i := front + [d], j + [x];
    assert Front(s) == front && Last(s) == d && Front(i) == j && Last(i) == x;
  }

  /** Different indices of the domain have different ranks. */
  lemma RankInjective(s: Shape, i: Index, j: Index)
    requires InDomain(s, i) && InDomain(s, j) && Rank(s, i) == Rank(s, j)
    ensures i == j
  {
    RankIndices(s, i);
    RankIndices(s, j);
  }

  /** for_all_indices / for_each_index in natural order visit exactly the
      domain, each index exactly once. */
  lemma VisitsDomainExactlyOnce(s: Shape)
    ensures forall p :: 0 <= p < |Indices(s)| ==> InDomain(s, Indices(s)[p])
    ensures forall p, q :: 0 <= p < q < |Indices(s)| ==> Indices(s)[p] != Indices(s)[q]
    ensures forall i :: InDomain(s, i) ==> i in Indices(s)
  {
    forall p | 0 <= p < |Indices(s)|
      ensures InDomain(s, Indices(s)[p])
    {
      IndicesAt(s, p);
    }
    forall p, q | 0 <= p < q < |Indices(s)|
      ensures Indices(s)[p] != Indices(s)[q]
    {
      IndicesAt(s, p);
      IndicesAt(s, q);
    }
    forall i | InDomain(s, i)
      ensures i in Indices(s)
    {
      RankIndices(s, i);
    }
  }

  /** A rank-0 shape is visited exactly once, with the empty index. */
  lemma ScalarVisitedOnce()
    ensures Indices([]) == [[]]
  {
  }
}
