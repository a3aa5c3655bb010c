/** The naive selector: score every item, sort all pairs in descending
    tuple order, and keep a prefix of length `k` by Python slicing. */
module NaiveSelector {
  import opened Prelude
  import opened ScoredOrder
  import opened Aggregation
  import opened Ranking

  /** Insert `x` into a descending sequence, before the first pair below it. */
  function InsertDesc(x: Scored, s: seq<Scored>): (r: seq<Scored>)
    requires SortedDesc(s)
    ensures |r| == |s| + 1
    ensures multiset(r) == multiset(s) + multiset{x}
    ensures SortedDesc(r)
    decreases |s|
  {
    if |s| == 0 then [x]
    else if Le(s[0], x) then
      PrependAbove(x, s);
      [x] + s
    else
      assert s == [s[0]] + s[1..];
      var rest := InsertDesc(x, s[1..]);
      SortedAfterHead(s[0], x, s[1..], rest);
      [s[0]] + rest
  }

  /** A pair at or above the head of a descending sequence can go in front. */
  lemma PrependAbove(x: Scored, s: seq<Scored>)
    requires SortedDesc(s) && |s| > 0 && Le(s[0], x)
    ensures SortedDesc([x] + s)
  {
    forall j | 0 < j < |s|
      ensures Le(s[j], x)
    {
      LeTransitive(s[j], s[0], x);
    }
  }

  /** Prepending a head that is above everything that follows keeps the
      sequence descending. */
  lemma SortedAfterHead(h: Scored, x: Scored, tail: seq<Scored>, rest: seq<Scored>)
    requires !Le(h, x)
    requires SortedDesc([h] + tail)
    requires SortedDesc(rest)
    requires multiset(rest) == multiset(tail) + multiset{x}
    ensures SortedDesc([h] + rest)
  {
    var r := [h] + rest;
    forall j | 0 < j < |r|
      ensures Le(r[j], h)
    {
      var y := rest[j - 1];
      assert y in multiset(rest);
      if y != x {
        assert y in multiset(tail);
        var t :| 0 <= t < |tail| && tail[t] == y;
        var ht := [h] + tail;
        assert ht[t + 1] == y && ht[0] == h;
        assert Le(ht[t + 1], ht[0]);
      } else {
        LeTotal(h, x);
      }
    }
  }

  /** `scored.sort(reverse=True)`: a descending permutation of the input. */
  function SortDesc(s: seq<Scored>): (r: seq<Scored>)
    ensures |r| == |s|
    ensures multiset(r) == multiset(s)
    ensures SortedDesc(r)
    decreases |s|
  {
    if |s| == 0 then []
    else
      assert s == [s[0]] + s[1..];
      InsertDesc(s[0], SortDesc(s[1..]))
  }

  /** Sorting has exactly one possible outcome: any descending permutation
      of `s` is `SortDesc(s)`, whatever algorithm produced it. */
  lemma SortIsCanonical(s: seq<Scored>, t: seq<Scored>)
    requires SortedDesc(t) && multiset(t) == multiset(s)
    ensures t == SortDesc(s)
  {
    SortedDescUnique(t, SortDesc(s));
  }

  /** Among pairs with equal scores, the sorted order puts the larger id first. */
  lemma TiesByLargerId(s: seq<Scored>, i: nat, j: nat)
    requires SortedDesc(s) && i < j < |s| && s[i].score == s[j].score && s[i] != s[j]
    ensures StrLt(s[j].id, s[i].id)
  {
  }

  /** Python's `s[:k]`: a negative `k` counts from the end. */
  function PySliceTo<T>(s: seq<T>, k: int): (r: seq<T>)
    ensures k >= 0 ==> |r| == Min(k, |s|)
    ensures k < 0 ==> |r| == Max(0, |s| + k)
    ensures r <= s
  {
    if k >= 0 then s[..Min(k, |s|)] else s[..Max(0, |s| + k)]
  }

  /** `rank_with_sort`, and the ranking step of `SistemaRecNaive.top_k`. */
  function RankWithSort(agg: seq<Entry>, k: int, score: Acc -> real): (r: seq<Scored>)
    requires IsDict(agg)
    ensures k >= 0 ==> |r| == Min(k, |agg|)
    ensures k < 0 ==> |r| == Max(0, |agg| + k)
    ensures k == 0 ==> r == []
    ensures r <= SortDesc(ScoreAll(agg, score))
    ensures IsTopK(ScoreAll(agg, score), |r|, r)
    ensures DistinctIds(r)
  {
    var items := ScoreAll(agg, score);
    var sorted := SortDesc(items);
    var r := PySliceTo(sorted, k);
    PrefixIsTop(items, sorted, |r|);
    r
  }

  /** Any prefix of the sorted pairs is a correct answer of its size, with
      pairwise distinct ids. */
  lemma PrefixIsTop(items: seq<Scored>, sorted: seq<Scored>, m: nat)
    requires DistinctIds(items) && Distinct(items)
    requires SortedDesc(sorted) && multiset(sorted) == multiset(items)
    requires m <= |sorted|
    ensures IsTopK(items, m, sorted[..m])
    ensures DistinctIds(sorted[..m])
  {
    var r := sorted[..m];
    assert sorted == r + sorted[m..];
    assert multiset(r) <= multiset(items);
    SubMultisetDistinctIds(r, items);
    SubMultisetDistinct(r, items);
    DescDistinctIsStrict(r);
    forall j | 0 <= j < |r|
      ensures r[j] in items
    {
      assert r[j] in multiset(items);
    }
    PrefixExcludesBelow(items, sorted, m);
  }

  /** A pair past the prefix is below every pair in it. */
  lemma PrefixExcludesBelow(items: seq<Scored>, sorted: seq<Scored>, m: nat)
    requires SortedDesc(sorted) && multiset(sorted) == multiset(items)
    requires m <= |sorted|
    ensures forall i :: 0 <= i < |items| && items[i] !in sorted[..m] ==>
      forall j :: 0 <= j < m ==> Lt(items[i], sorted[..m][j])
  {
    var r := sorted[..m];
    forall i | 0 <= i < |items| && items[i] !in r
      ensures forall j :: 0 <= j < m ==> Lt(items[i], r[j])
    {
      assert items[i] in multiset(sorted);
      var p :| 0 <= p < |sorted| && sorted[p] == items[i];
      assert p >= m;
      forall j | 0 <= j < m
        ensures Lt(items[i], r[j])
      {
        assert Le(sorted[p], sorted[j]);
        LeTotal(items[i], r[j]);
      }
    }
  }

  /** `SistemaRecNaive.top_k`: aggregate the events, score, sort, slice. */
  function NaiveTopK(events: seq<Event>, k: int, score: Acc -> real): (r: seq<Scored>)
    ensures k >= 0 ==> |r| == Min(k, |EventIds(events)|)
    ensures k < 0 ==> |r| == Max(0, |EventIds(events)| + k)
    ensures IdSet(r) <= EventIds(events)
    ensures DistinctIds(r) && SortedDesc(r)
    ensures forall x :: x in r ==> x.score == score(Acc(SumOf(events, x.id), CountOf(events, x.id)))
    ensures forall id :: id in EventIds(events) && id !in IdSet(r) ==>
      forall j :: 0 <= j < |r| ==> score(Acc(SumOf(events, id), CountOf(events, id))) <= r[j].score
  {
    var agg := Aggregate(events);
    var r := RankWithSort(agg, k, score);
    AggregateSize(events);
    TopKMultiset(ScoreAll(agg, score), r);
    AnswerOverEvents(events, agg, score, r);
    r
  }
}
