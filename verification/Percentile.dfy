/** The percentile of benchmark-parent-io.ts: sort, and take the sample at the ceiling of `n * p`. */
module Percentile {
  import opened Text

  function Insert(x: real, s: seq<real>): seq<real> {
    if s == [] || x <= s[0] then [x] + s else [s[0]] + Insert(x, s[1..])
  }

  /** `toSorted((a, b) => a - b)` */
  function ToSorted(s: seq<real>): (t: seq<real>)
    ensures |t| == |s|
  {
    if s == [] then [] else
      InsertLength(s[0], ToSorted(s[1..]));
      Insert(s[0], ToSorted(s[1..]))
  }

  lemma {:induction false} InsertLength(x: real, s: seq<real>)
    ensures |Insert(x, s)| == |s| + 1
  {
    if s != [] {
      InsertLength(x, s[1..]);
    }
  }

  function Ceil(x: real): int {
    -((-x).Floor)
  }

  /** How many samples the share `p` of `n` samples amounts to. */
  function Share(n: nat, p: real): real {
    n as real * p
  }

  /** `Math.max(0, Math.ceil(product) - 1)` */
  function Index(product: real): nat {
    var rank := Ceil(product) - 1;
    if rank > 0 then rank else 0
  }

  /** The sample picked when `sorted.length * p` comes out as `product`, however it was rounded; None where the script
      reads beyond the end of the sorted samples and fails. */
  function Picked(numbers: seq<real>, product: real): Option<real> {
    var sorted := ToSorted(numbers);
    var index := Index(product);
    if index < |sorted| then Some(sorted[index]) else None
  }

  function Value(numbers: seq<real>, p: real): Option<real> {
    Picked(numbers, Share(|numbers|, p))
  }

  /** How many samples are at most `v`, and how many are below it. */
  function AtMost(s: seq<real>, v: real): nat {
    if s == [] then 0 else (if s[0] <= v then 1 else 0) + AtMost(s[1..], v)
  }

  function Below(s: seq<real>, v: real): nat {
    if s == [] then 0 else (if s[0] < v then 1 else 0) + Below(s[1..], v)
  }

  ghost predicate Ascending(s: seq<real>) {
    forall i, j :: 0 <= i <= j < |s| ==> s[i] <= s[j]
  }

  // ---------------------------------------------------------------- sorting keeps the counts

  lemma {:induction false} InsertKeeps(x: real, s: seq<real>, v: real)
    requires Ascending(s)
    ensures Ascending(Insert(x, s))
    ensures AtMost(Insert(x, s), v) == AtMost(s, v) + (if x <= v then 1 else 0)
    ensures Below(Insert(x, s), v) == Below(s, v) + (if x < v then 1 else 0)
    ensures forall y :: y in Insert(x, s) <==> y == x || y in s
  {
    if s == [] || x <= s[0] {
      assert ([x] + s)[1..] == s;
    } else {
      InsertKeeps(x, s[1..], v);
      var t := Insert(x, s[1..]);
      assert Insert(x, s)[1..] == t;
      assert s == [s[0]] + s[1..];
      forall j | 0 <= j < |t|
        ensures s[0] <= t[j]
      {
        assert t[j] in t;
      }
    }
  }

  lemma {:induction false} SortKeeps(s: seq<real>, v: real)
    ensures Ascending(ToSorted(s))
    ensures AtMost(ToSorted(s), v) == AtMost(s, v) && Below(ToSorted(s), v) == Below(s, v)
    ensures forall y :: y in ToSorted(s) <==> y in s
  {
    if s != [] {
      SortKeeps(s[1..], v);
      InsertKeeps(s[0], ToSorted(s[1..]), v);
      assert s == [s[0]] + s[1..];
    }
  }

  /** In an ascending sequence the sample at `k` has more than `k` samples at most it and at most `k` below it. */
  lemma {:induction false} RankBounds(s: seq<real>, k: nat)
    requires Ascending(s) && k < |s|
    ensures AtMost(s, s[k]) >= k + 1 && Below(s, s[k]) <= k
  {
    if k == 0 {
      NoneBelow(s, s[0]);
    } else {
      RankBounds(s[1..], k - 1);
    }
  }

  lemma {:induction false} NoneBelow(s: seq<real>, v: real)
    requires forall i :: 0 <= i < |s| ==> v <= s[i]
    ensures Below(s, v) == 0
  {
    if s != [] {
      NoneBelow(s[1..], v);
    }
  }

  lemma {:induction false} AtMostBelow(s: seq<real>, v: real, w: real)
    requires v < w
    ensures AtMost(s, v) <= Below(s, w)
  {
    if s != [] {
      AtMostBelow(s[1..], v, w);
    }
  }

  // ---------------------------------------------------------------- the nearest rank

  /** `v` is a sample with at least `x` samples at most it, and fewer than `x` below it. */
  ghost predicate IsNearestRank(s: seq<real>, x: real, v: real) {
    v in s && AtMost(s, v) as real >= x > Below(s, v) as real
  }

  lemma NearestRankUnique(s: seq<real>, x: real, v: real, w: real)
    requires IsNearestRank(s, x, v) && IsNearestRank(s, x, w)
    ensures v == w
  {
    if v < w {
      AtMostBelow(s, v, w);
    } else if w < v {
      AtMostBelow(s, w, v);
    }
  }

  lemma CeilMeans(x: real)
    ensures (Ceil(x) - 1) as real < x <= Ceil(x) as real
  {
  }

  /** A sample is picked exactly when there are samples and the product is at most their number. */
  lemma PickedExactly(numbers: seq<real>, product: real)
    ensures Picked(numbers, product).Some? <==> numbers != [] && product <= |numbers| as real
  {
    hide ToSorted, Ceil;
    CeilMeans(product);
  }

  /** For any positive product up to the number of samples, rounded or not, the sample picked is the nearest rank of
      that very product, and the only one. */
  lemma PickedIsNearestRank(numbers: seq<real>, product: real, v: real)
    requires 0.0 < product <= |numbers| as real
    ensures Picked(numbers, product) == Some(v) <==> IsNearestRank(numbers, product, v)
  {
    hide ToSorted, Ceil, AtMost, Below;
    PickedExactly(numbers, product);
    CeilMeans(product);
    var sorted, k := ToSorted(numbers), Index(product);
    var u := sorted[k];
    SortKeeps(numbers, u);
    RankBounds(sorted, k);
    assert u in sorted;
    assert IsNearestRank(numbers, product, u);
    if IsNearestRank(numbers, product, v) {
      NearestRankUnique(numbers, product, u, v);
    }
  }

  lemma ShareMeans(n: nat, p: real)
    requires n > 0
    ensures Share(n, p) <= n as real <==> p <= 1.0
    ensures p > 0.0 ==> Share(n, p) > 0.0
  {
    var x := n as real;
    assert x * (1.0 - p) == x - Share(n, p);
    SignOfProduct(x, 1.0 - p);
    SignOfProduct(x, p);
  }

  lemma SignOfProduct(x: real, y: real)
    requires x > 0.0
    ensures x * y >= 0.0 <==> y >= 0.0
    ensures y > 0.0 ==> x * y > 0.0
  {
  }

  /** The script finds a value exactly when there are samples and `p` is at most one. */
  lemma DefinedExactly(numbers: seq<real>, p: real)
    ensures Value(numbers, p).Some? <==> numbers != [] && p <= 1.0
  {
    hide Share, Picked;
    PickedExactly(numbers, Share(|numbers|, p));
    if numbers != [] {
      ShareMeans(|numbers|, p);
    }
  }

  /** For a share in (0, 1] it is the nearest-rank percentile, and the only one. */
  lemma ValueIsNearestRank(numbers: seq<real>, p: real, v: real)
    requires numbers != [] && 0.0 < p <= 1.0
    ensures Value(numbers, p) == Some(v) <==> IsNearestRank(numbers, |numbers| as real * p, v)
  {
    hide Share, Picked, IsNearestRank;
    ShareMeans(|numbers|, p);
    PickedIsNearestRank(numbers, Share(|numbers|, p), v);
    ShareIs(|numbers|, p);
  }

  lemma ShareIs(n: nat, p: real)
    ensures Share(n, p) == n as real * p
  {
  }

  /** For a share of zero or less it is the smallest sample. */
  lemma ValueIsLeast(numbers: seq<real>, p: real, v: real)
    requires numbers != [] && p <= 0.0
    ensures Value(numbers, p) == Some(v) <==> v in numbers && forall x :: x in numbers ==> v <= x
  {
    hide ToSorted, Ceil, AtMost, Below;
    ProductNotPositive(|numbers|, p);
    CeilMeans(Share(|numbers|, p));
    var sorted := ToSorted(numbers);
    SortKeeps(numbers, v);
    assert sorted[0] in sorted;
  }

  lemma ProductNotPositive(n: nat, p: real)
    requires p <= 0.0
    ensures Share(n, p) <= 0.0
  {
  }
}
