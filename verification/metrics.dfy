/** The rank-similarity metrics used to compare a ranking `evl` against a
    reference ranking `ref`.  Only the ids of the `(score, id)` pairs
    matter to them; all arithmetic is exact rational arithmetic. */
module Metrics {
  import opened Prelude
  import opened ScoredOrder
  import opened Ranking

  // ---------------------------------------------------------------------
  // Set facts
  // ---------------------------------------------------------------------

  /** A proper subset is strictly smaller. */
  lemma StrictSubsetCard<T>(a: set<T>, b: set<T>)
    requires a <= b && a != b
    ensures |a| < |b|
  {
    var x :| x in b && x !in a;
    SubsetCard(a, b - {x});
  }

  /** A ranking mentions at most as many ids as it has entries. */
  lemma {:induction false} IdSetSize(s: seq<Scored>)
    ensures |IdSet(s)| <= |s|
    decreases |s|
  {
    if |s| > 0 {
      var p := s[..|s| - 1];
      IdSetSize(p);
      assert s == p + [s[|s| - 1]];
      assert IdSet(s) == IdSet(p) + {s[|s| - 1].id};
    }
  }

  // ---------------------------------------------------------------------
  // Precision@K
  // ---------------------------------------------------------------------

  /** `precision_at_k`: the share of the ids of `evl` that `ref` also holds. */
  function PrecisionAtK(ref: seq<Scored>, evl: seq<Scored>): (p: real)
    ensures IdSet(evl) == {} ==> p == 0.0
    ensures 0.0 <= p <= 1.0
    ensures IdSet(evl) != {} ==> (p == 1.0 <==> IdSet(evl) <= IdSet(ref))
    ensures IdSet(evl) != {} ==> (p == 0.0 <==> IdSet(evl) !! IdSet(ref))
  {
    var setRef := IdSet(ref);
    var setEvl := IdSet(evl);
    if setEvl == {} then 0.0
    else
      Fraction(setEvl, setRef);
      |setRef * setEvl| as real / |setEvl| as real
  }

  /** The share of `b` that lies in `a` is 1 exactly when `b` is inside `a`
      and 0 exactly when they are disjoint. */
  lemma Fraction<T>(b: set<T>, a: set<T>)
    requires b != {}
    ensures var q := |a * b| as real / |b| as real;
      && 0.0 <= q <= 1.0
      && (q == 1.0 <==> b <= a)
      && (q == 0.0 <==> b !! a)
  {
    SubsetCard(a * b, b);
    if !(b <= a) {
      StrictSubsetCard(a * b, b);
    } else {
      assert a * b == b;
    }
    if !(b !! a) {
      var x :| x in b && x in a;
      assert x in a * b;
    }
    CountRatio(|a * b|, |b|);
  }

  /** The ratio of two counts `x <= y` lies in [0, 1], and hits either end
      only when `x` does. */
  lemma CountRatio(x: nat, y: nat)
    requires 0 < y && x <= y
    ensures 0.0 <= x as real / y as real <= 1.0
    ensures x as real / y as real == 1.0 <==> x == y
    ensures x as real / y as real == 0.0 <==> x == 0
  {
    var q := x as real / y as real;
    assert q * y as real == x as real;
  }

  // ---------------------------------------------------------------------
  // Jaccard@K
  // ---------------------------------------------------------------------

  /** `jaccard_at_k`: the overlap of the two id sets relative to their union. */
  function JaccardAtK(a: seq<Scored>, b: seq<Scored>): (j: real)
    ensures IdSet(a) == {} && IdSet(b) == {} ==> j == 0.0
    ensures 0.0 <= j <= 1.0
    ensures j == 1.0 <==> IdSet(a) == IdSet(b) != {}
    ensures j == 0.0 <==> IdSet(a) !! IdSet(b)
  {
    var setA := IdSet(a);
    var setB := IdSet(b);
    var union := setA + setB;
    if union == {} then 0.0
    else
      Fraction(union, setA * setB);
      assert (setA * setB) * union == setA * setB;
      assert setA * setB == union ==> setA == setB;
      |setA * setB| as real / |union| as real
  }

  /** Jaccard does not care which ranking is the reference. */
  lemma JaccardSymmetric(a: seq<Scored>, b: seq<Scored>)
    ensures JaccardAtK(a, b) == JaccardAtK(b, a)
  {
    assert IdSet(a) * IdSet(b) == IdSet(b) * IdSet(a);
    assert IdSet(a) + IdSet(b) == IdSet(b) + IdSet(a);
  }

  // ---------------------------------------------------------------------
  // AP@K
  // ---------------------------------------------------------------------

  /** `hits` after the loop has seen the pairs of `evl`: how many of them
      name an id of `refIds`. */
  function Hits(refIds: set<string>, evl: seq<Scored>): (h: nat)
    ensures h <= |evl|
    ensures h == |HitPositions(refIds, evl)|
    decreases |evl|
  {
    if |evl| == 0 then 0
    else
      HitPositionsSnoc(refIds, evl);
      Hits(refIds, evl[..|evl| - 1]) + (if evl[|evl| - 1].id in refIds then 1 else 0)
  }

  /** The positions of `evl` whose id is relevant. */
  function HitPositions(refIds: set<string>, evl: seq<Scored>): set<nat>
  {
    set i: nat | i < |evl| && evl[i].id in refIds
  }

  /** The hit positions of a non-empty ranking are those of its prefix, plus
      the last position when that one is a hit. */
  lemma HitPositionsSnoc(refIds: set<string>, evl: seq<Scored>)
    requires |evl| > 0
    ensures |HitPositions(refIds, evl)| ==
      |HitPositions(refIds, evl[..|evl| - 1])| + (if evl[|evl| - 1].id in refIds then 1 else 0)
  {
    var n := |evl| - 1;
    var a := HitPositions(refIds, evl[..n]);
    assert n !in a;
    if evl[n].id in refIds {
      assert HitPositions(refIds, evl) == a + {n};
    } else {
      assert HitPositions(refIds, evl) == a;
    }
  }

  /** `sum_precision` after the loop has seen the pairs of `evl`: each hit at
      1-based position `i` adds the precision `hits / i` of the prefix. */
  function PrecisionSum(refIds: set<string>, evl: seq<Scored>): (s: real)
    ensures 0.0 <= s <= Hits(refIds, evl) as real
    decreases |evl|
  {
    if |evl| == 0 then 0.0
    else
      var prev := PrecisionSum(refIds, evl[..|evl| - 1]);
      if evl[|evl| - 1].id in refIds then
        CountRatio(Hits(refIds, evl), |evl|);
        prev + Hits(refIds, evl) as real / |evl| as real
      else prev
  }

  /** `average_precision_at_k`: 0 when `ref` names no id or `evl` is empty,
      otherwise the precision sum over `min(len(ref), len(evl))`. */
  function AveragePrecisionAtK(ref: seq<Scored>, evl: seq<Scored>): (ap: real)
    ensures IdSet(ref) == {} || evl == [] ==> ap == 0.0
    ensures ap >= 0.0
  {
    var setRef := IdSet(ref);
    if setRef == {} then 0.0
    else if |evl| == 0 then 0.0
    else PrecisionSum(setRef, evl) / Min(|ref|, |evl|) as real
  }

  /** A hit can only be counted once per distinct id when `evl` has
      distinct ids, so there are exactly as many hits as common ids. */
  lemma {:induction false} HitsBound(refIds: set<string>, evl: seq<Scored>)
    requires DistinctIds(evl)
    ensures Hits(refIds, evl) == |refIds * IdSet(evl)|
    decreases |evl|
  {
    if |evl| > 0 {
      var p := evl[..|evl| - 1];
      var last := evl[|evl| - 1];
      LastIdFresh(evl);
      HitsBound(refIds, p);
      CardIntersectAdd(refIds, IdSet(p), last.id);
    }
  }

  /** The ids of a non-empty ranking are those of its prefix plus the last
      one, which the prefix lacks when ids are distinct. */
  lemma LastIdFresh(s: seq<Scored>)
    requires |s| > 0 && DistinctIds(s)
    ensures DistinctIds(s[..|s| - 1])
    ensures IdSet(s) == IdSet(s[..|s| - 1]) + {s[|s| - 1].id}
    ensures s[|s| - 1].id !in IdSet(s[..|s| - 1])
  {
    var p := s[..|s| - 1];
    assert s == p + [s[|s| - 1]];
  }

  lemma CardIntersectAdd<T>(r: set<T>, a: set<T>, y: T)
    requires y !in a
    ensures |r * (a + {y})| == |r * a| + (if y in r then 1 else 0)
  {
    if y in r {
      assert r * (a + {y}) == (r * a) + {y};
    } else {
      assert r * (a + {y}) == r * a;
    }
  }

  /** For a ranking with distinct ids, AP@K lies in [0, 1]. */
  lemma AveragePrecisionBounded(ref: seq<Scored>, evl: seq<Scored>)
    requires DistinctIds(evl)
    ensures 0.0 <= AveragePrecisionAtK(ref, evl) <= 1.0
  {
    var setRef := IdSet(ref);
    if setRef != {} && |evl| > 0 {
      var common := setRef * IdSet(evl);
      HitsBound(setRef, evl);
      SubsetCard(common, setRef);
      IdSetSize(ref);
      var m := Min(|ref|, |evl|);
      assert Hits(setRef, evl) <= m;
      RatioAtMostOne(PrecisionSum(setRef, evl), m as real);
    }
  }

  lemma RatioSelf(n: real)
    requires n > 0.0
    ensures n / n == 1.0
  {
  }

  lemma RatioAtMostOne(a: real, m: real)
    requires 0.0 <= a <= m && m > 0.0
    ensures 0.0 <= a / m <= 1.0
  {
  }

  /** When every pair of `evl` is a hit, the hit count is the prefix length
      and every position contributes precision 1. */
  lemma {:induction false} AllHits(refIds: set<string>, evl: seq<Scored>)
    requires forall i :: 0 <= i < |evl| ==> evl[i].id in refIds
    ensures Hits(refIds, evl) == |evl|
    ensures PrecisionSum(refIds, evl) == |evl| as real
    decreases |evl|
  {
    if |evl| > 0 {
      var p := evl[..|evl| - 1];
      AllHits(refIds, p);
      assert Hits(refIds, evl) == Hits(refIds, p) + 1 == |evl|;
      RatioSelf(|evl| as real);
    }
  }

  /** A non-empty ranking compared with itself has AP@K exactly 1. */
  lemma AveragePrecisionOfSelf(r: seq<Scored>)
    requires |r| > 0
    ensures AveragePrecisionAtK(r, r) == 1.0
  {
    assert r[0] in r;
    forall i | 0 <= i < |r| ensures r[i].id in IdSet(r) {
      assert r[i] in r;
    }
    AllHits(IdSet(r), r);
    assert Min(|r|, |r|) == |r|;
    RatioSelf(|r| as real);
  }

  /** With a repeated id, AP@K can exceed 1: one relevant id listed twice
      scores 1/1 + 2/2 over a minimum length of 1. */
  lemma AveragePrecisionRepeatedId()
    ensures AveragePrecisionAtK([Scored(1.0, "a")], [Scored(1.0, "a"), Scored(1.0, "a")]) == 2.0
  {
    var ref := [Scored(1.0, "a")];
    var evl := [Scored(1.0, "a"), Scored(1.0, "a")];
    assert IdSet(ref) == {"a"};
    assert evl[..1] == [Scored(1.0, "a")];
    assert evl[..1][..0] == [];
  }

  // ---------------------------------------------------------------------
  // Spearman's rho
  // ---------------------------------------------------------------------

  /** The rank dict built by enumerating a ranking: each id is mapped to the
      position of its LAST occurrence, later entries overwriting earlier ones. */
  function RankMap(s: seq<Scored>): (m: map<string, nat>)
    ensures m.Keys == IdSet(s)
    ensures forall id :: id in m ==> m[id] < |s| && s[m[id]].id == id
    ensures forall id, i :: id in m && m[id] < i < |s| ==> s[i].id != id
    decreases |s|
  {
    if |s| == 0 then map[]
    else
      var p := s[..|s| - 1];
      assert s == p + [s[|s| - 1]];
      assert IdSet(s) == IdSet(p) + {s[|s| - 1].id};
      RankMap(p)[s[|s| - 1].id := |s| - 1]
  }

  /** A fixed but arbitrary element of a non-empty set: the order in which
      Python iterates a set does not matter to an integer sum. */
  ghost function Pick(s: set<string>): (x: string)
    requires s != {}
    ensures x in s
  {
    var x :| x in s; x
  }

  /** The sum of the squared rank differences over `common`. */
  ghost function SqDiffSum(common: set<string>, ra: map<string, nat>, rb: map<string, nat>): (d: int)
    requires common <= ra.Keys && common <= rb.Keys
    ensures d >= 0
    ensures d == 0 <==> forall id :: id in common ==> ra[id] == rb[id]
    decreases |common|
  {
    if common == {} then 0
    else
      var x := Pick(common);
      var rest := SqDiffSum(common - {x}, ra, rb);
      var dx := ra[x] as int - rb[x] as int;
      assert dx * dx >= 0;
      assert dx * dx == 0 <==> ra[x] == rb[x];
      dx * dx + rest
  }

  /** The squared differences do not depend on which map comes first. */
  lemma {:induction false} SqDiffSumSymmetric(common: set<string>, ra: map<string, nat>, rb: map<string, nat>)
    requires common <= ra.Keys && common <= rb.Keys
    ensures SqDiffSum(common, ra, rb) == SqDiffSum(common, rb, ra)
    decreases |common|
  {
    if common != {} {
      var x := Pick(common);
      SqDiffSumSymmetric(common - {x}, ra, rb);
      var dx := ra[x] as int - rb[x] as int;
      assert dx * dx == (rb[x] as int - ra[x] as int) * (rb[x] as int - ra[x] as int);
    }
  }

  /** `spearman_rho`: undefined (NaN, here `None`) when the rankings share
      fewer than two ids; otherwise `1 - 6 * sum(d^2) / (n * (n^2 - 1))`
      over the `n` shared ids. */
  ghost function SpearmanRho(a: seq<Scored>, b: seq<Scored>): (rho: Option<real>)
    ensures rho.None? <==> |IdSet(a) * IdSet(b)| < 2
    ensures rho.Some? ==> rho.value <= 1.0
    ensures rho.Some? ==> (rho.value == 1.0 <==>
      forall id :: id in IdSet(a) * IdSet(b) ==> RankMap(a)[id] == RankMap(b)[id])
  {
    RhoOf(RankMap(a), RankMap(b))
  }

  /** The formula over two rank maps, on the ids both maps hold. */
  ghost function RhoOf(ra: map<string, nat>, rb: map<string, nat>): (rho: Option<real>)
    ensures rho.None? <==> |ra.Keys * rb.Keys| < 2
    ensures rho.Some? ==> rho.value <= 1.0
    ensures rho.Some? ==> (rho.value == 1.0 <==>
      forall id :: id in ra.Keys * rb.Keys ==> ra[id] == rb[id])
  {
    var common := ra.Keys * rb.Keys;
    if |common| < 2 then None
    else Some(Rho(|common|, SqDiffSum(common, ra, rb)))
  }

  lemma RhoOfSymmetric(ra: map<string, nat>, rb: map<string, nat>)
    ensures RhoOf(ra, rb) == RhoOf(rb, ra)
  {
    var common := ra.Keys * rb.Keys;
    assert common == rb.Keys * ra.Keys;
    if |common| >= 2 {
      SqDiffSumSymmetric(common, ra, rb);
    }
  }

  /** `1 - 6 * d / (n * (n^2 - 1))`: at most 1, and 1 exactly when `d` is 0. */
  function Rho(n: int, d: int): (rho: real)
    requires n >= 2 && d >= 0
    ensures rho <= 1.0
    ensures rho == 1.0 <==> d == 0
  {
    assert n * n >= 4 by {
      assert n * n >= 2 * n;
    }
    var q := (n * (n * n - 1)) as real;
    RatioNonNegative((6 * d) as real, q);
    1.0 - (6 * d) as real / q
  }

  lemma RatioNonNegative(a: real, q: real)
    requires a >= 0.0 && q > 0.0
    ensures a / q >= 0.0
    ensures a / q == 0.0 <==> a == 0.0
  {
  }

  /** Over a two-id set the sum is the two squared differences, whichever
      id is picked first. */
  lemma SqDiffSumPair(u: string, v: string, ra: map<string, nat>, rb: map<string, nat>)
    requires u != v && u in ra && u in rb && v in ra && v in rb
    ensures SqDiffSum({u, v}, ra, rb) ==
      (ra[u] as int - rb[u] as int) * (ra[u] as int - rb[u] as int) +
      (ra[v] as int - rb[v] as int) * (ra[v] as int - rb[v] as int)
  {
    var x := Pick({u, v});
    var w := if x == u then v else u;
    assert {u, v} - {x} == {w};
    assert {w} - {Pick({w})} == {};
  }

  /** Ranks are positions in the whole rankings, not ranks among the shared
      ids, so rho can fall below -1: `[x, y]` against `[y, p, x]` shares
      two ids with rank gaps 2 and 1, and `1 - 6 * 5 / (2 * 3)` is -4. */
  lemma SpearmanBelowMinusOne()
    ensures SpearmanRho([Scored(0.0, "x"), Scored(0.0, "y")],
                        [Scored(0.0, "y"), Scored(0.0, "p"), Scored(0.0, "x")]) == Some(-4.0)
  {
    RankMapsXY();
    RhoOfXY(RankMap([Scored(0.0, "x"), Scored(0.0, "y")]),
            RankMap([Scored(0.0, "y"), Scored(0.0, "p"), Scored(0.0, "x")]));
  }

  /** The rank dicts of the example's two rankings. */
  lemma RankMapsXY()
    ensures RankMap([Scored(0.0, "x"), Scored(0.0, "y")]) == map["x" := 0, "y" := 1]
    ensures RankMap([Scored(0.0, "y"), Scored(0.0, "p"), Scored(0.0, "x")]) == map["y" := 0, "p" := 1, "x" := 2]
  {
    var a := [Scored(0.0, "x"), Scored(0.0, "y")];
    var b := [Scored(0.0, "y"), Scored(0.0, "p"), Scored(0.0, "x")];
    assert RankMap(a) == map["x" := 0, "y" := 1] by {
      assert a[..1] == [Scored(0.0, "x")] && a[..1][..0] == [];
    }
    assert RankMap(b) == map["y" := 0, "p" := 1, "x" := 2] by {
      assert b[..2] == [Scored(0.0, "y"), Scored(0.0, "p")];
      assert b[..2][..1] == [Scored(0.0, "y")] && b[..2][..1][..0] == [];
    }
  }

  /** The formula on the two rank maps of the example: two shared ids with
      rank gaps 2 and 1. */
  lemma RhoOfXY(ra: map<string, nat>, rb: map<string, nat>)
    requires ra == map["x" := 0, "y" := 1]
    requires rb == map["y" := 0, "p" := 1, "x" := 2]
    ensures RhoOf(ra, rb) == Some(-4.0)
  {
    assert ra.Keys * rb.Keys == {"x", "y"};
    SqDiffSumPair("x", "y", ra, rb);
    assert (2 * (2 * 2 - 1)) as real == 6.0;
    assert (6 * 5) as real / 6.0 == 5.0;
  }

  /** Spearman's rho does not care which ranking comes first. */
  lemma SpearmanSymmetric(a: seq<Scored>, b: seq<Scored>)
    ensures SpearmanRho(a, b) == SpearmanRho(b, a)
  {
    RhoOfSymmetric(RankMap(a), RankMap(b));
  }

  /** A ranking with at least two distinct ids has rho 1 against itself. */
  lemma SpearmanOfSelf(r: seq<Scored>)
    requires |IdSet(r)| >= 2
    ensures SpearmanRho(r, r) == Some(1.0)
  {
    assert IdSet(r) * IdSet(r) == IdSet(r);
  }
}
