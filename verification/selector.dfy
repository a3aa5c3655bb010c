/** The bounded selector: stream the scored pairs through a min-heap capped
    at `k` items, evicting the minimum only for a strictly higher score,
    then drain the heap in ascending order and reverse it. */
module HeapSelector {
  import opened Prelude
  import opened ScoredOrder
  import opened MinHeap
  import opened Aggregation
  import opened Ranking
  import NaiveSelector
  import opened SelectionSpec

  /** One iteration of the selection loop: insert while the heap holds fewer
      than `k` pairs; otherwise compare with the minimum's score and, when
      `x` scores strictly higher, extract the minimum and insert `x`. */
  method Offer(h: seq<Scored>, k: int, x: Scored) returns (res: Result<seq<Scored>, HeapError>)
    requires IsHeap(h)
    requires |h| <= Max(k, 0)
    ensures res.Err? <==> k <= 0
    ensures res.Err? ==> res.error == EmptyHeap
    ensures res.Ok? ==> IsHeap(res.value) && |res.value| == Min(k, |h| + 1)
    ensures res.Ok? && |h| < k ==> multiset(res.value) == multiset(h) + multiset{x}
    ensures res.Ok? && 0 < k <= |h| && x.score <= h[0].score ==> res.value == h
    ensures res.Ok? && 0 < k <= |h| && x.score > h[0].score ==>
      multiset(res.value) == multiset(h) - multiset{h[0]} + multiset{x}
  {
    if |h| < k {
      var h' := MinHeapInsert(h, x);
      return Ok(h');
    }
    match HeapMinimum(h)
    case Err(e) =>
      return Err(e);
    case Ok(m) =>
      if x.score > m.score {
        var p := HeapExtractMin(h);
        match p
        case Err(_) =>
          assert false;
        case Ok(popped) =>
          var h' := MinHeapInsert(popped.rest, x);
          return Ok(h');
      }
      return Ok(h);
  }

  /** Which pairs one step of the account holds: `x` joins while there is
      room; when full, it displaces the minimum exactly when its score is
      strictly higher. */
  lemma KeepContents(prev: seq<Scored>, x: Scored, k: int)
    requires k >= 1 && SortedDesc(prev) && |prev| <= k
    ensures |prev| < k ==> multiset(Keep(prev, x, k)) == multiset(prev) + multiset{x}
    ensures |prev| == k && x.score <= prev[k - 1].score ==> Keep(prev, x, k) == prev
    ensures |prev| == k && x.score > prev[k - 1].score ==>
      multiset(Keep(prev, x, k)) == multiset(prev) - multiset{prev[k - 1]} + multiset{x}
  {
    if |prev| == k && x.score > prev[k - 1].score {
      var rest := prev[..k - 1];
      assert prev == rest + [prev[k - 1]];
    }
  }

  /** The root of a heap and the last pair of a descending arrangement of
      the same pairs are the same pair: the least one. */
  lemma LeastAgrees(h: seq<Scored>, d: seq<Scored>)
    requires IsHeap(h) && SortedDesc(d) && |h| > 0
    requires multiset(h) == multiset(d)
    ensures h[0] == d[|d| - 1]
  {
    RootIsLeast(h);
    var last := d[|d| - 1];
    assert last in multiset(h);
    assert Le(h[0], last);
    assert h[0] in multiset(d);
    var t :| 0 <= t < |d| && d[t] == h[0];
    if t < |d| - 1 {
      assert Le(d[|d| - 1], d[t]);
    }
    LeAntisymmetric(h[0], last);
  }

  /** `Kept` over one more pair, in terms of `Kept` over the pairs before it. */
  lemma KeptSnoc(seen: seq<Scored>, x: Scored, k: int)
    requires k >= 1
    ensures Kept(seen + [x], k) == Keep(Kept(seen, k), x, k)
  {
    var s := seen + [x];
    assert s[..|s| - 1] == seen;
  }

  /** One `Offer` step on the heap matches one step of the functional account. */
  lemma StepFollows(prev: seq<Scored>, h: seq<Scored>, k: int, x: Scored, h': seq<Scored>)
    requires k >= 1 && IsHeap(h) && |h| <= k && SortedDesc(prev)
    requires multiset(h) == multiset(prev)
    requires |h| < k ==> multiset(h') == multiset(h) + multiset{x}
    requires k <= |h| && x.score <= h[0].score ==> h' == h
    requires k <= |h| && x.score > h[0].score ==> multiset(h') == multiset(h) - multiset{h[0]} + multiset{x}
    ensures |prev| <= k && multiset(h') == multiset(Keep(prev, x, k))
  {
    assert |prev| == |h| by {
      assert |multiset(prev)| == |prev| && |multiset(h)| == |h|;
    }
    KeepContents(prev, x, k);
    if |h| == k {
      LeastAgrees(h, prev);
    }
  }

  /** One successful `Offer` follows the functional account. */
  lemma OfferFollowsKept(seen: seq<Scored>, h: seq<Scored>, k: int, x: Scored, h': seq<Scored>)
    requires k >= 1 && IsHeap(h) && |h| <= k
    requires Follows(seen, h, k)
    requires |h| < k ==> multiset(h') == multiset(h) + multiset{x}
    requires k <= |h| && x.score <= h[0].score ==> h' == h
    requires k <= |h| && x.score > h[0].score ==> multiset(h') == multiset(h) - multiset{h[0]} + multiset{x}
    ensures Follows(seen + [x], h', k)
  {
    KeptSnoc(seen, x, k);
    StepFollows(Kept(seen, k), h, k, x, h');
  }

  /** The pair was pushed without eviction: nothing has been dropped. */
  lemma SelectedPush(seen: seq<Scored>, h: seq<Scored>, x: Scored, h': seq<Scored>)
    requires multiset(h) == multiset(seen)
    requires multiset(h') == multiset(h) + multiset{x}
    ensures multiset(h') == multiset(seen + [x])
    ensures Selected(seen + [x], h')
  {
  }

  /** The pair was rejected: it scores no higher than the minimum. */
  lemma SelectedReject(seen: seq<Scored>, h: seq<Scored>, x: Scored)
    requires Selected(seen, h)
    requires IsHeap(h) && |h| > 0 && x.score <= h[0].score
    ensures Selected(seen + [x], h)
  {
    RootIsLeast(h);
    var s := seen + [x];
    forall i | 0 <= i < |s| && s[i] !in multiset(h)
      ensures forall j :: 0 <= j < |h| ==> s[i].score <= h[j].score
    {
      forall j | 0 <= j < |h| ensures s[i].score <= h[j].score {
        assert h[j] in h;
        LeScore(h[0], h[j]);
      }
    }
  }

  /** The minimum was evicted for a pair that scores strictly higher. */
  lemma SelectedReplace(seen: seq<Scored>, h: seq<Scored>, x: Scored, h': seq<Scored>)
    requires Selected(seen, h)
    requires IsHeap(h) && |h| > 0 && x.score > h[0].score
    requires multiset(h') == multiset(h) - multiset{h[0]} + multiset{x}
    ensures Selected(seen + [x], h')
  {
    RootIsLeast(h);
    var s := seen + [x];
    assert multiset(h') <= multiset(s);
    forall j | 0 <= j < |h'|
      ensures h[0].score <= h'[j].score
    {
      assert h'[j] in multiset(h');
      if h'[j] != x {
        assert h'[j] in multiset(h);
        assert h'[j] in h;
        LeScore(h[0], h'[j]);
      }
    }
    forall i | 0 <= i < |s| && s[i] !in multiset(h')
      ensures forall j :: 0 <= j < |h'| ==> s[i].score <= h'[j].score
    {
      assert i < |seen| && s[i] == seen[i];
      if seen[i] in multiset(h) {
        assert seen[i] == h[0];
      } else {
        forall j | 0 <= j < |h'| ensures s[i].score <= h'[j].score {
          assert seen[i].score <= h[0].score;
        }
      }
    }
  }

  /** Drain the heap by repeated extract-min: the pairs come out in
      ascending order (the heap-sort property). */
  method DrainAscending(h: seq<Scored>) returns (asc: seq<Scored>)
    requires IsHeap(h)
    ensures |asc| == |h|
    ensures multiset(asc) == multiset(h)
    ensures SortedAsc(asc)
  {
    asc := [];
    var rest := h;
    while |rest| > 0
      invariant IsHeap(rest)
      invariant multiset(asc) + multiset(rest) == multiset(h)
      invariant SortedAsc(asc)
      invariant forall i, j :: 0 <= i < |asc| && 0 <= j < |rest| ==> Le(asc[i], rest[j])
      decreases |rest|
    {
      var p := HeapExtractMin(rest);
      match p
      case Err(_) =>
        assert false;
      case Ok(popped) =>
        AppendMinimum(asc, rest, popped.min, popped.rest);
        asc := asc + [popped.min];
        rest := popped.rest;
    }
  }

  /** Appending the current minimum keeps the drained prefix ascending and
      below everything still in the heap. */
  lemma AppendMinimum(asc: seq<Scored>, rest: seq<Scored>, m: Scored, rest': seq<Scored>)
    requires SortedAsc(asc)
    requires forall i, j :: 0 <= i < |asc| && 0 <= j < |rest| ==> Le(asc[i], rest[j])
    requires m in rest && forall x :: x in rest ==> Le(m, x)
    requires multiset(rest') == multiset(rest) - multiset{m}
    ensures SortedAsc(asc + [m])
    ensures forall i, j :: 0 <= i < |asc| + 1 && 0 <= j < |rest'| ==> Le((asc + [m])[i], rest'[j])
  {
    var a := asc + [m];
    var jm :| 0 <= jm < |rest| && rest[jm] == m;
    forall i, j | 0 <= i < |a| && 0 <= j < |rest'|
      ensures Le(a[i], rest'[j])
    {
      assert rest'[j] in multiset(rest');
      assert rest'[j] in rest;
      var t :| 0 <= t < |rest| && rest[t] == rest'[j];
      if i < |asc| {
        assert Le(asc[i], rest[t]);
      }
    }
  }

  /** One successful `Offer` preserves the loop invariant. */
  lemma OfferKeepsInv(seen: seq<Scored>, h: seq<Scored>, k: int, x: Scored, h': seq<Scored>)
    requires LoopInv(seen, h, k) && k > 0
    requires IsHeap(h') && |h'| == Min(k, |h| + 1)
    requires |h| < k ==> multiset(h') == multiset(h) + multiset{x}
    requires k <= |h| && x.score <= h[0].score ==> h' == h
    requires k <= |h| && x.score > h[0].score ==> multiset(h') == multiset(h) - multiset{h[0]} + multiset{x}
    ensures LoopInv(seen + [x], h', k)
  {
    if |h| < k {
      SelectedPush(seen, h, x, h');
    } else if x.score <= h[0].score {
      SelectedReject(seen, h, x);
    } else {
      SelectedReplace(seen, h, x, h');
    }
    OfferFollowsKept(seen, h, k, x, h');
  }

  /** The selection loop over the scored pairs, in dict order: the heap it
      leaves never exceeds `k` pairs and keeps the best-scoring ones seen.
      With `k <= 0` the first pair already finds the heap full and asks an
      empty heap for its minimum. */
  method SelectLoop(items: seq<Scored>, k: int) returns (res: Result<seq<Scored>, HeapError>, peak: nat)
    ensures res.Err? <==> k <= 0 && |items| > 0
    ensures res.Err? ==> res.error == EmptyHeap
    ensures peak <= Max(k, 0)
    ensures res.Ok? ==> LoopInv(items, res.value, k)
  {
    res, peak := SelectFrom(items, 0, [], k, 0);
  }

  /** The selection loop from position `idx` on, with heap `h` and the
      largest size reached so far `peak`. */
  method SelectFrom(items: seq<Scored>, idx: nat, h: seq<Scored>, k: int, peak0: nat)
    returns (res: Result<seq<Scored>, HeapError>, peak: nat)
    requires idx <= |items| && (k <= 0 ==> idx == 0)
    requires LoopInv(items[..idx], h, k) && peak0 <= Max(k, 0)
    ensures res.Err? <==> k <= 0 && |items| > 0
    ensures res.Err? ==> res.error == EmptyHeap
    ensures peak <= Max(k, 0)
    ensures res.Ok? ==> LoopInv(items, res.value, k)
    decreases |items| - idx
  {
    if idx == |items| {
      WholePrefix(items, idx, h, k);
      return Ok(h), peak0;
    }
    var r := Step(items, idx, h, k);
    match r
    case Err(e) =>
      return Err(e), peak0;
    case Ok(h') =>
      res, peak := SelectFrom(items, idx + 1, h', k, Max(peak0, |h'|));
  }

  /** `Offer` of the next pair, seen from the loop: it keeps the invariant,
      or fails when `k <= 0`. */
  method Step(items: seq<Scored>, idx: nat, h: seq<Scored>, k: int) returns (r: Result<seq<Scored>, HeapError>)
    requires idx < |items|
    requires LoopInv(items[..idx], h, k)
    requires k <= 0 ==> idx == 0
    ensures r.Err? <==> k <= 0
    ensures r.Err? ==> r.error == EmptyHeap
    ensures r.Ok? ==> LoopInv(items[..idx + 1], r.value, k) && |r.value| <= k
  {
    r := Offer(h, k, items[idx]);
    if r.Ok? {
      OfferKeepsInv(items[..idx], h, k, items[idx], r.value);
      NextPrefix(items, idx, r.value, k);
    }
  }

  lemma NextPrefix(items: seq<Scored>, idx: nat, h: seq<Scored>, k: int)
    requires idx < |items|
    requires LoopInv(items[..idx] + [items[idx]], h, k)
    ensures LoopInv(items[..idx + 1], h, k)
  {
    PrefixSnoc(items, idx);
  }

  lemma WholePrefix(items: seq<Scored>, idx: nat, h: seq<Scored>, k: int)
    requires idx == |items|
    requires LoopInv(items[..idx], h, k)
    ensures LoopInv(items, h, k)
  {
    assert items[..idx] == items;
  }

  lemma PrefixSnoc(items: seq<Scored>, idx: nat)
    requires idx < |items|
    ensures items[..idx + 1] == items[..idx] + [items[idx]]
  {
  }

  /** `rank_with_heap`, and the ranking step of `SistemaRec1.top_k`.
      `peak` is the largest size the heap reached during the run. */
  method RankWithHeap(agg: seq<Entry>, k: int, score: Acc -> real)
    returns (res: Result<seq<Scored>, HeapError>, peak: nat)
    requires IsDict(agg)
    ensures res.Err? <==> k <= 0 && |agg| > 0
    ensures res.Err? ==> res.error == EmptyHeap
    ensures peak <= Max(k, 0)
    ensures res.Ok? ==> |res.value| == Min(Max(k, 0), |agg|)
    ensures res.Ok? ==> SortedDesc(res.value)
    ensures res.Ok? ==> multiset(res.value) <= multiset(ScoreAll(agg, score))
    ensures res.Ok? ==> DistinctIds(res.value)
    ensures res.Ok? ==> var items := ScoreAll(agg, score);
      forall i :: 0 <= i < |items| && items[i] !in res.value ==>
        forall j :: 0 <= j < |res.value| ==> items[i].score <= res.value[j].score
    ensures res.Ok? && k >= 1 ==> res.value == Kept(ScoreAll(agg, score), k)
    ensures res.Ok? && DistinctScores(ScoreAll(agg, score)) ==>
      res.value == NaiveSelector.RankWithSort(agg, k, score)
  {
    var items := ScoreAll(agg, score);
    var sel;
    sel, peak := SelectLoop(items, k);
    match sel
    case Err(e) =>
      return Err(e), peak;
    case Ok(h) =>
      var out := Drain(agg, k, score, h);
      return Ok(out), peak;
  }

  /** The end of `rank_with_heap`: pop the heap into ascending order and
      reverse it. */
  method Drain(agg: seq<Entry>, k: int, score: Acc -> real, h: seq<Scored>) returns (out: seq<Scored>)
    requires IsDict(agg) && (k >= 0 || |agg| == 0)
    requires LoopInv(ScoreAll(agg, score), h, k)
    ensures |out| == Min(Max(k, 0), |agg|)
    ensures SortedDesc(out)
    ensures multiset(out) <= multiset(ScoreAll(agg, score))
    ensures DistinctIds(out)
    ensures var items := ScoreAll(agg, score);
      forall i :: 0 <= i < |items| && items[i] !in out ==>
        forall j :: 0 <= j < |out| ==> items[i].score <= out[j].score
    ensures k >= 1 ==> out == Kept(ScoreAll(agg, score), k)
    ensures DistinctScores(ScoreAll(agg, score)) ==> out == NaiveSelector.RankWithSort(agg, k, score)
  {
    var items := ScoreAll(agg, score);
    var asc := DrainAscending(h);
    ReverseAscIsDesc(asc);
    out := Reverse(asc);
    SelectedResult(items, h, out);
    SubMultisetDistinctIds(out, items);
    if DistinctScores(items) {
      HeapAgreesWithSort(agg, k, score, out);
    }
    KeptResult(items, k, h, asc, out);
  }

  /** The drained, reversed heap is the functional account itself. */
  lemma KeptResult(items: seq<Scored>, k: int, h: seq<Scored>, asc: seq<Scored>, out: seq<Scored>)
    requires Follows(items, h, k)
    requires multiset(asc) == multiset(h) && out == Reverse(asc)
    requires SortedDesc(out)
    ensures k >= 1 ==> out == Kept(items, k)
  {
    if k >= 1 {
      SortedDescUnique(out, Kept(items, k));
    }
  }

  /** `SistemaRec1.top_k`: aggregate the events, then rank with the heap. */
  method HeapTopK(events: seq<Event>, k: int, score: Acc -> real)
    returns (res: Result<seq<Scored>, HeapError>, peak: nat)
    ensures res.Err? <==> k <= 0 && |events| > 0
    ensures res.Err? ==> res.error == EmptyHeap
    ensures peak <= Max(k, 0)
    ensures res.Ok? ==> |res.value| == Min(Max(k, 0), |EventIds(events)|)
    ensures res.Ok? ==> SortedDesc(res.value) && DistinctIds(res.value)
    ensures res.Ok? ==> IdSet(res.value) <= EventIds(events)
    ensures res.Ok? ==> forall x :: x in res.value ==>
      x.score == score(Acc(SumOf(events, x.id), CountOf(events, x.id)))
    ensures res.Ok? ==> forall id :: id in EventIds(events) && id !in IdSet(res.value) ==>
      forall j :: 0 <= j < |res.value| ==>
        score(Acc(SumOf(events, id), CountOf(events, id))) <= res.value[j].score
  {
    var agg := Aggregate(events);
    AggregateSize(events);
    res, peak := RankAggregate(events, agg, k, score);
  }

  /** The ranking half of `top_k`, over a dict that summarizes the events. */
  method RankAggregate(events: seq<Event>, agg: seq<Entry>, k: int, score: Acc -> real)
    returns (res: Result<seq<Scored>, HeapError>, peak: nat)
    requires IsDict(agg) && |agg| == |EventIds(events)|
    requires Keys(agg) == EventIds(events)
    requires forall e :: e in agg ==> e.acc.count == CountOf(events, e.id) >= 1
    requires forall e :: e in agg ==> e.acc.sum == SumOf(events, e.id)
    ensures res.Err? <==> k <= 0 && |events| > 0
    ensures res.Err? ==> res.error == EmptyHeap
    ensures peak <= Max(k, 0)
    ensures res.Ok? ==> |res.value| == Min(Max(k, 0), |EventIds(events)|)
    ensures res.Ok? ==> SortedDesc(res.value) && DistinctIds(res.value)
    ensures res.Ok? ==> AnswersEvents(events, score, res.value)
  {
    if |events| > 0 {
      assert events[0] in events;
      assert events[0].id in EventIds(events);
    }
    res, peak := RankWithHeap(agg, k, score);
    if res.Ok? {
      EventAnswer(events, agg, k, score, res.value);
    }
  }

  /** An answer over the dict, read as an answer over the events. */
  lemma EventAnswer(events: seq<Event>, agg: seq<Entry>, k: int, score: Acc -> real, out: seq<Scored>)
    requires |agg| == |EventIds(events)|
    requires Keys(agg) == EventIds(events)
    requires forall e :: e in agg ==> e.acc.count == CountOf(events, e.id) >= 1
    requires forall e :: e in agg ==> e.acc.sum == SumOf(events, e.id)
    requires |out| == Min(Max(k, 0), |agg|)
    requires multiset(out) <= multiset(ScoreAll(agg, score))
    requires var items := ScoreAll(agg, score);
      forall i :: 0 <= i < |items| && items[i] !in out ==>
        forall j :: 0 <= j < |out| ==> items[i].score <= out[j].score
    ensures |out| == Min(Max(k, 0), |EventIds(events)|)
    ensures AnswersEvents(events, score, out)
  {
    AnswerOverEvents(events, agg, score, out);
  }

  /** `out` names only event ids, pairs each with the score of its own
      `[sum, count]`, and leaves out no id that scores higher. */
  predicate AnswersEvents(events: seq<Event>, score: Acc -> real, out: seq<Scored>)
  {
    && IdSet(out) <= EventIds(events)
    && (forall x :: x in out ==>
      x.score == score(Acc(SumOf(events, x.id), CountOf(events, x.id))))
    && (forall id :: id in EventIds(events) && id !in IdSet(out) ==>
      forall j :: 0 <= j < |out| ==>
        score(Acc(SumOf(events, id), CountOf(events, id))) <= out[j].score)
  }

  /** With pairwise distinct scores no tie can arise, and the bounded
      selector's answer is exactly the naive selector's. */
  lemma HeapAgreesWithSort(agg: seq<Entry>, k: int, score: Acc -> real, out: seq<Scored>)
    requires IsDict(agg)
    requires k >= 0 || |agg| == 0
    requires DistinctScores(ScoreAll(agg, score))
    requires |out| == Min(Max(k, 0), |agg|)
    requires SortedDesc(out)
    requires multiset(out) <= multiset(ScoreAll(agg, score))
    requires var items := ScoreAll(agg, score);
      forall i :: 0 <= i < |items| && items[i] !in out ==>
        forall j :: 0 <= j < |out| ==> items[i].score <= out[j].score
    ensures out == NaiveSelector.RankWithSort(agg, k, score)
  {
    var items := ScoreAll(agg, score);
    SubMultisetDistinct(out, items);
    DescDistinctIsStrict(out);
    forall j | 0 <= j < |out|
      ensures out[j] in items
    {
      assert out[j] in multiset(items);
    }
    forall i | 0 <= i < |items| && items[i] !in out
      ensures forall j :: 0 <= j < |out| ==> Lt(items[i], out[j])
    {
      forall j | 0 <= j < |out|
        ensures Lt(items[i], out[j])
      {
        var i2 :| 0 <= i2 < |items| && items[i2] == out[j];
        assert i != i2;
        assert items[i].score != items[i2].score;
      }
    }
    var r := NaiveSelector.RankWithSort(agg, k, score);
    TopKUnique(items, |out|, out, r);
  }

  /** What the invariant says of the heap carries over to any ordering of
      its contents. */
  lemma SelectedResult(items: seq<Scored>, h: seq<Scored>, out: seq<Scored>)
    requires Selected(items, h)
    requires multiset(out) == multiset(h)
    ensures multiset(out) <= multiset(items)
    ensures forall i :: 0 <= i < |items| && items[i] !in out ==>
      forall j :: 0 <= j < |out| ==> items[i].score <= out[j].score
  {
    forall i | 0 <= i < |items| && items[i] !in out
      ensures forall j :: 0 <= j < |out| ==> items[i].score <= out[j].score
    {
      assert items[i] !in multiset(h);
      forall j | 0 <= j < |out|
        ensures items[i].score <= out[j].score
      {
        assert out[j] in multiset(h);
        var t :| 0 <= t < |h| && h[t] == out[j];
      }
    }
  }

  /** Ties at the cut-off: two items with equal scores and `k == 1`.  When
      full, the heap replaces its tuple-least pair only for a strictly higher
      score, so which tied pair survives depends on insertion order and on
      the tuple order; the sort keeps the larger id.  Here the two selectors
      differ. */
  lemma TieAtCutoff()
    ensures var agg := [Entry("a", Acc(1.0, 1)), Entry("b", Acc(1.0, 1))];
      var score := (acc: Acc) => acc.sum;
      && IsDict(agg)
      && Kept(ScoreAll(agg, score), 1) == [Scored(1.0, "a")]
      && NaiveSelector.RankWithSort(agg, 1, score) == [Scored(1.0, "b")]
  {
    var agg := [Entry("a", Acc(1.0, 1)), Entry("b", Acc(1.0, 1))];
    var score := (acc: Acc) => acc.sum;
    var a, b := Scored(1.0, "a"), Scored(1.0, "b");
    var items := ScoreAll(agg, score);
    assert items == [a, b];
    assert items[..1] == [a] && [a][..0] == [];
    assert Kept(items, 1) == [a];
    assert StrLt("a", "b") by {
      assert "a"[0] < "b"[0];
    }
    assert IsTopK(items, 1, [b]);
    TopKUnique(items, 1, [b], NaiveSelector.RankWithSort(agg, 1, score));
  }

  /** Of two tied pairs the heap may keep the one it saw second: once full,
      it evicts its tuple-least pair, which here is the tied `(1, "a")`. */
  lemma TiedSecondSurvives()
    ensures Kept([Scored(1.0, "a"), Scored(1.0, "b"), Scored(2.0, "c")], 2)
         == [Scored(2.0, "c"), Scored(1.0, "b")]
  {
    var a, b, c := Scored(1.0, "a"), Scored(1.0, "b"), Scored(2.0, "c");
    var items := [a, b, c];
    assert items[..2] == [a, b] && items[..2][..1] == [a] && items[..2][..1][..0] == [];
    assert StrLt("a", "b") by {
      assert "a"[0] < "b"[0];
    }
    assert Kept([a], 2) == [a];
    assert Kept([a, b], 2) == [b, a];
  }

  /** A tie can straddle the cut-off and the selectors still agree: with
      `b` seen first the heap keeps it, and so does the sort. */
  lemma TieAtCutoffAgreeing()
    ensures var agg := [Entry("b", Acc(1.0, 1)), Entry("a", Acc(1.0, 1))];
      var score := (acc: Acc) => acc.sum;
      && IsDict(agg)
      && Kept(ScoreAll(agg, score), 1) == [Scored(1.0, "b")]
      && NaiveSelector.RankWithSort(agg, 1, score) == [Scored(1.0, "b")]
  {
    var agg := [Entry("b", Acc(1.0, 1)), Entry("a", Acc(1.0, 1))];
    var score := (acc: Acc) => acc.sum;
    var a, b := Scored(1.0, "a"), Scored(1.0, "b");
    var items := ScoreAll(agg, score);
    assert items == [b, a];
    assert items[..1] == [b] && [b][..0] == [];
    assert Kept(items, 1) == [b];
    assert StrLt("a", "b") by {
      assert "a"[0] < "b"[0];
    }
    assert IsTopK(items, 1, [b]);
    TopKUnique(items, 1, [b], NaiveSelector.RankWithSort(agg, 1, score));
  }
}
