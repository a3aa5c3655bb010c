/** The benchmark's comparison of the two selectors: the naive answer is the
    reference, and the bounded selector's answer is scored against it. */
module Comparison {
  import opened Prelude
  import opened ScoredOrder
  import opened Aggregation
  import opened Ranking
  import opened Metrics
  import NaiveSelector
  import HeapSelector

  /** With pairwise distinct scores, `k >= 1` and a non-empty dict, any answer
      meeting the bounded selector's guarantees is the naive answer, so
      Precision@K, AP@K and Jaccard@K between the two are all 1. */
  lemma DistinctScoresScoreOne(agg: seq<Entry>, k: int, score: Acc -> real, out: seq<Scored>)
    requires IsDict(agg) && k >= 1 && |agg| >= 1
    requires DistinctScores(ScoreAll(agg, score))
    requires |out| == Min(k, |agg|)
    requires SortedDesc(out)
    requires multiset(out) <= multiset(ScoreAll(agg, score))
    requires var items := ScoreAll(agg, score);
      forall i :: 0 <= i < |items| && items[i] !in out ==>
        forall j :: 0 <= j < |out| ==> items[i].score <= out[j].score
    ensures var naive := NaiveSelector.RankWithSort(agg, k, score);
      && PrecisionAtK(naive, out) == 1.0
      && AveragePrecisionAtK(naive, out) == 1.0
      && JaccardAtK(out, naive) == 1.0
  {
    assert Max(k, 0) == k;
    HeapSelector.HeapAgreesWithSort(agg, k, score, out);
    assert out[0] in out;
    assert out[0].id in IdSet(out);
    AveragePrecisionOfSelf(out);
  }
}
