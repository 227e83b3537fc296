/**
 * Nearest-centroid ranking (`euclidean`, `predictCluster`): one distance per centroid, sorted
 * ascending by a stable sort; the best cluster is the first of the ranking. Distances are kept
 * squared: the square root is monotone and does not change the order.
 */
module Ranking {
  import opened Types

  datatype Centroid = Centroid(cluster: int, vector: seq<real>)

  /** `{ cluster, dist }`, with `dist` the squared distance. */
  datatype Scored = Scored(cluster: int, dist: real)

  datatype Prediction = Prediction(best: Option<Scored>, ranking: seq<Scored>)

  /** `(a[i] ?? 0) - (b[i] ?? 0)` for a position `i` of `a`. */
  function Diff(a: seq<real>, b: seq<real>, i: nat): real
    requires i < |a|
  {
    a[i] - if i < |b| then b[i] else 0.0
  }

  /**
   * The identity. It is no part of the model: it only wraps the second factor of `Square`,
   * whose sign facts the verifier proves for `x * Same(x)` but not for a bare `x * x` bound
   * to a function result.
   */
  function Same(x: real): real {
    x
  }

  /** `d * d`, with its sign facts stated once. */
  function Square(x: real): (r: real)
    ensures r >= 0.0
    ensures x > 0.0 ==> r > 0.0
    ensures x < 0.0 ==> r > 0.0
  {
    x * Same(x)
  }

  /** The sum of squared differences over the first `n` positions of `a`. */
  function SquaredSum(a: seq<real>, b: seq<real>, n: nat): (r: real)
    requires n <= |a|
    ensures r >= 0.0
  {
    if n == 0 then 0.0
    else SquaredSum(a, b, n - 1) + Square(Diff(a, b, n - 1))
  }

  /** A position where the vectors differ adds a positive amount to the sum. */
  lemma SquaredSumGrows(a: seq<real>, b: seq<real>, n: nat)
    requires n < |a| == |b|
    requires a[n] != b[n]
    ensures SquaredSum(a, b, n + 1) > SquaredSum(a, b, n)
  {
    assert SquaredSum(a, b, n + 1) == SquaredSum(a, b, n) + Square(Diff(a, b, n));
  }

  function SqDist(a: seq<real>, b: seq<real>): real {
    SquaredSum(a, b, |a|)
  }

  /** `euclidean(a, b)` before its final `Math.sqrt`. */
  method SquaredEuclidean(a: seq<real>, b: seq<real>) returns (sum: real)
    ensures sum == SqDist(a, b)
    ensures sum >= 0.0
  {
    sum := 0.0;
    for i := 0 to |a|
      invariant sum == SquaredSum(a, b, i)
    {
      var d := a[i] - (if i < |b| then b[i] else 0.0);
      sum := sum + d * d;
    }
  }

  lemma {:induction false} SquaredSumSelf(a: seq<real>, n: nat)
    requires n <= |a|
    ensures SquaredSum(a, a, n) == 0.0
  {
    if n > 0 {
      SquaredSumSelf(a, n - 1);
    }
  }

  /** A centroid equal to the input is at distance 0. */
  lemma SqDistSelf(a: seq<real>)
    ensures SqDist(a, a) == 0.0
  {
    SquaredSumSelf(a, |a|);
  }

  lemma {:induction false} SquaredSumZero(a: seq<real>, b: seq<real>, n: nat)
    requires n <= |a| == |b|
    ensures SquaredSum(a, b, n) == 0.0 <==> forall i :: 0 <= i < n ==> a[i] == b[i]
  {
    if n > 0 {
      SquaredSumZero(a, b, n - 1);
      if a[n - 1] != b[n - 1] {
        SquaredSumGrows(a, b, n - 1);
        assert !(forall i :: 0 <= i < n ==> a[i] == b[i]);
      }
    }
  }

  /** Between vectors of equal length, distance 0 means equal vectors. */
  lemma SqDistZeroIffEqual(a: seq<real>, b: seq<real>)
    requires |a| == |b|
    ensures SqDist(a, b) == 0.0 <==> a == b
  {
    SquaredSumZero(a, b, |a|);
  }

  lemma {:induction false} SquaredSumSymmetric(a: seq<real>, b: seq<real>, n: nat)
    requires n <= |a| == |b|
    ensures SquaredSum(a, b, n) == SquaredSum(b, a, n)
  {
    if n > 0 {
      SquaredSumSymmetric(a, b, n - 1);
      assert Diff(b, a, n - 1) == -Diff(a, b, n - 1);
    }
  }

  /** Between vectors of equal length the distance is symmetric. */
  lemma SqDistSymmetric(a: seq<real>, b: seq<real>)
    requires |a| == |b|
    ensures SqDist(a, b) == SqDist(b, a)
  {
    SquaredSumSymmetric(a, b, |a|);
  }

  /** `centroids.map(c => ({ cluster: c.cluster, dist: euclidean(vec, c.vector) }))` */
  function Scores(vec: seq<real>, centroids: seq<Centroid>): (r: seq<Scored>)
    ensures |r| == |centroids|
    ensures forall i :: 0 <= i < |r| ==>
      r[i].cluster == centroids[i].cluster && r[i].dist == SqDist(vec, centroids[i].vector) && r[i].dist >= 0.0
  {
    seq(|centroids|, i requires 0 <= i < |centroids| => Scored(centroids[i].cluster, SqDist(vec, centroids[i].vector)))
  }

  predicate SortedByDist(s: seq<Scored>) {
    forall i, j :: 0 <= i < j < |s| ==> s[i].dist <= s[j].dist
  }

  /** The entries of `s` at distance `d`, in their order in `s`. */
  function WithDist(s: seq<Scored>, d: real): seq<Scored> {
    if s == [] then []
    else (if s[0].dist == d then [s[0]] else []) + WithDist(s[1..], d)
  }

  /**
   * `t` rearranges `s` keeping the relative order of the entries of every equal distance, as a
   * stable sort does.
   */
  ghost predicate StablePermutation(s: seq<Scored>, t: seq<Scored>) {
    forall d :: WithDist(s, d) == WithDist(t, d)
  }

  /** `ranking` is the stable ascending sort of `scores`. */
  ghost predicate Ranks(scores: seq<Scored>, ranking: seq<Scored>) {
    SortedByDist(ranking) && StablePermutation(scores, ranking)
  }

  lemma {:induction false} WithDistAppend(x: seq<Scored>, y: seq<Scored>, d: real)
    ensures WithDist(x + y, d) == WithDist(x, d) + WithDist(y, d)
  {
    if x == [] {
      assert x + y == y;
    } else {
      var h := if x[0].dist == d then [x[0]] else [];
      assert (x + y)[0] == x[0];
      assert (x + y)[1..] == x[1..] + y;
      WithDistAppend(x[1..], y, d);
      calc {
        WithDist(x + y, d);
        h + WithDist(x[1..] + y, d);
        h + (WithDist(x[1..], d) + WithDist(y, d));
        (h + WithDist(x[1..], d)) + WithDist(y, d);
        WithDist(x, d) + WithDist(y, d);
      }
    }
  }

  lemma WithDistPair(a: Scored, b: Scored, d: real)
    ensures WithDist([a, b], d) == (if a.dist == d then [a] else []) + (if b.dist == d then [b] else [])
  {
    assert [a, b][1..] == [b];
    assert [b][1..] == [];
    assert WithDist([b], d) == (if b.dist == d then [b] else []) + WithDist([], d);
  }

  /** Swapping neighbours of different distance keeps every distance's entries in order. */
  lemma SwapKeepsTies(s: seq<Scored>, j: nat)
    requires 0 < j < |s| && s[j - 1].dist != s[j].dist
    ensures StablePermutation(s, s[j - 1 := s[j]][j := s[j - 1]])
  {
    var t := s[j - 1 := s[j]][j := s[j - 1]];
    var p, q := s[..j - 1], s[j + 1..];
    assert s == p + [s[j - 1], s[j]] + q;
    assert t == p + [s[j], s[j - 1]] + q;
    forall d
      ensures WithDist(s, d) == WithDist(t, d)
    {
      WithDistAppend(p + [s[j - 1], s[j]], q, d);
      WithDistAppend(p, [s[j - 1], s[j]], d);
      WithDistAppend(p + [s[j], s[j - 1]], q, d);
      WithDistAppend(p, [s[j], s[j - 1]], d);
      WithDistPair(s[j - 1], s[j], d);
      WithDistPair(s[j], s[j - 1], d);
    }
  }

  /** `dists.sort((a, b) => a.dist - b.dist)`, a stable sort, here by insertion. */
  method SortByDist(a: array<Scored>)
    modifies a
    ensures SortedByDist(a[..])
    ensures StablePermutation(old(a[..]), a[..])
  {
    for i := 0 to a.Length
      invariant forall p, q :: 0 <= p < q < i ==> a[p].dist <= a[q].dist
      invariant StablePermutation(old(a[..]), a[..])
    {
      var j := i;
      while j > 0 && a[j - 1].dist > a[j].dist
        invariant 0 <= j <= i
        invariant forall p, q :: 0 <= p < q <= i && p != j && q != j ==> a[p].dist <= a[q].dist
        invariant forall q :: j < q <= i ==> a[j].dist < a[q].dist
        invariant StablePermutation(old(a[..]), a[..])
        decreases j
      {
        ghost var before := a[..];
        a[j - 1], a[j] := a[j], a[j - 1];
        assert a[..] == before[j - 1 := before[j]][j := before[j - 1]];
        SwapKeepsTies(before, j);
        j := j - 1;
      }
    }
  }

  /** `predictCluster(vec, centroids)`: the ranking and its first entry (none without centroids). */
  method PredictCluster(vec: seq<real>, centroids: seq<Centroid>) returns (p: Prediction)
    ensures |p.ranking| == |centroids|
    ensures Ranks(Scores(vec, centroids), p.ranking)
    ensures p.best == if |centroids| == 0 then None else Some(p.ranking[0])
  {
    var dists := new Scored[|centroids|];
    for i := 0 to |centroids|
      invariant dists[..i] == Scores(vec, centroids)[..i]
    {
      var d := SquaredEuclidean(vec, centroids[i].vector);
      dists[i] := Scored(centroids[i].cluster, d);
    }
    assert dists[..] == Scores(vec, centroids);
    SortByDist(dists);
    var ranking := dists[..];
    p := Prediction(if |centroids| == 0 then None else Some(ranking[0]), ranking);
  }

  lemma {:induction false} WithDistCount(s: seq<Scored>, d: real, e: Scored)
    ensures multiset(WithDist(s, d))[e] == if e.dist == d then multiset(s)[e] else 0
  {
    if s != [] {
      WithDistCount(s[1..], d, e);
      assert s == [s[0]] + s[1..];
    }
  }

  /** A stable permutation is a permutation. */
  lemma StableIsPermutation(s: seq<Scored>, t: seq<Scored>)
    requires StablePermutation(s, t)
    ensures multiset(s) == multiset(t)
    ensures |s| == |t|
  {
    forall e
      ensures multiset(s)[e] == multiset(t)[e]
    {
      WithDistCount(s, e.dist, e);
      WithDistCount(t, e.dist, e);
    }
    assert multiset(s) == multiset(t);
    assert |multiset(s)| == |s| && |multiset(t)| == |t|;
  }

  /**
   * A sorted stable permutation is unique: whatever sort produced the ranking, it is the
   * same sequence.
   */
  lemma {:induction false} RankingUnique(x: seq<Scored>, y: seq<Scored>)
    requires SortedByDist(x) && SortedByDist(y) && StablePermutation(x, y)
    ensures x == y
  {
    StableIsPermutation(x, y);
    if x != [] {
      assert x[0] in multiset(y);
      var i :| 0 <= i < |y| && y[i] == x[0];
      assert y[0].dist <= y[i].dist;
      assert y[0] in multiset(x);
      var j :| 0 <= j < |x| && x[j] == y[0];
      assert x[0].dist <= x[j].dist;
      var m := x[0].dist;
      var tx, ty := WithDist(x[1..], m), WithDist(y[1..], m);
      assert WithDist(x, m) == [x[0]] + tx;
      assert WithDist(y, m) == [y[0]] + ty;
      assert WithDist(x, m) == WithDist(y, m);
      assert x[0] == WithDist(x, m)[0] == WithDist(y, m)[0] == y[0];
      forall d
        ensures WithDist(x[1..], d) == WithDist(y[1..], d)
      {
        assert WithDist(x, d) == WithDist(y, d);
        if d == m {
          assert tx == WithDist(x, m)[1..];
          assert ty == WithDist(y, m)[1..];
          assert tx == ty;
        } else {
          assert WithDist(x, d) == [] + WithDist(x[1..], d);
          assert WithDist(y, d) == [] + WithDist(y[1..], d);
          assert WithDist(x[1..], d) == WithDist(x, d);
          assert WithDist(y[1..], d) == WithDist(y, d);
        }
      }
      RankingUnique(x[1..], y[1..]);
      assert x == [x[0]] + x[1..];
      assert y == [y[0]] + y[1..];
    }
  }

  /** The best entry is a centroid's score and no centroid is closer. */
  lemma BestIsNearest(scores: seq<Scored>, ranking: seq<Scored>)
    requires Ranks(scores, ranking) && |scores| > 0
    ensures |ranking| == |scores|
    ensures ranking[0] in scores
    ensures forall i :: 0 <= i < |scores| ==> ranking[0].dist <= scores[i].dist
  {
    StableIsPermutation(scores, ranking);
    assert ranking[0] in multiset(scores);
    forall i | 0 <= i < |scores|
      ensures ranking[0].dist <= scores[i].dist
    {
      assert scores[i] in multiset(ranking);
    }
  }

  lemma {:induction false} WithDistFirst(s: seq<Scored>, d: real, k: nat)
    requires k < |s| && s[k].dist == d
    requires forall j :: 0 <= j < k ==> s[j].dist != d
    ensures WithDist(s, d) != [] && WithDist(s, d)[0] == s[k]
  {
    if k > 0 {
      WithDistFirst(s[1..], d, k - 1);
    }
  }

  /**
   * A centroid equal to the input vector wins, unless an earlier centroid is also at distance 0:
   * the best entry is that centroid at distance 0.
   */
  lemma ExactMatchIsBest(vec: seq<real>, centroids: seq<Centroid>, ranking: seq<Scored>, k: nat)
    requires Ranks(Scores(vec, centroids), ranking)
    requires k < |centroids| && centroids[k].vector == vec
    requires forall j :: 0 <= j < k ==> SqDist(vec, centroids[j].vector) != 0.0
    ensures |ranking| > 0 && ranking[0] == Scored(centroids[k].cluster, 0.0)
  {
    var scores := Scores(vec, centroids);
    SqDistSelf(vec);
    BestIsNearest(scores, ranking);
    WithDistFirst(scores, 0.0, k);
    var i :| 0 <= i < |scores| && scores[i] == ranking[0];
    assert ranking[0].dist == 0.0;
    WithDistFirst(ranking, 0.0, 0);
    assert WithDist(scores, 0.0) == WithDist(ranking, 0.0);
  }
}
