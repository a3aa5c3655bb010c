/** What the bounded selector keeps: the invariant of its loop, and a
    functional account of the heap's contents after each pair. */
module SelectionSpec {
  import opened Prelude
  import opened ScoredOrder
  import opened MinHeap
  import NaiveSelector

  /** One step of the functional account of the selection loop, on the
      pairs held so far in descending order (the minimum is the last one):
      `x` is added while fewer than `k` are held, and otherwise replaces the
      minimum only when its score is strictly higher. */
  function Keep(prev: seq<Scored>, x: Scored, k: int): (r: seq<Scored>)
    requires k >= 1 && SortedDesc(prev) && |prev| <= k
    ensures SortedDesc(r)
    ensures |r| == Min(k, |prev| + 1)
  {
    if |prev| < k then NaiveSelector.InsertDesc(x, prev)
    else if x.score > prev[|prev| - 1].score then NaiveSelector.InsertDesc(x, prev[..|prev| - 1])
    else prev
  }

  /** The pairs the heap holds after seeing `items`, in descending order. */
  function Kept(items: seq<Scored>, k: int): (r: seq<Scored>)
    requires k >= 1
    ensures SortedDesc(r)
    ensures |r| == Min(k, |items|)
    decreases |items|
  {
    if |items| == 0 then []
    else Keep(Kept(items[..|items| - 1], k), items[|items| - 1], k)
  }

  /** The loop invariant over the pairs seen so far: the heap holds some of
      them, and each one it no longer holds scores no higher than any pair
      it does hold. */
  predicate Selected(seen: seq<Scored>, h: seq<Scored>)
  {
    && multiset(h) <= multiset(seen)
    && forall i :: 0 <= i < |seen| && seen[i] !in multiset(h) ==>
         forall j :: 0 <= j < |h| ==> seen[i].score <= h[j].score
  }

  /** The invariant of the selection loop after the pairs `seen`. */
  predicate LoopInv(seen: seq<Scored>, h: seq<Scored>, k: int)
  {
    && IsHeap(h)
    && |h| == Min(Max(k, 0), |seen|)
    && (|seen| <= k ==> multiset(h) == multiset(seen))
    && Selected(seen, h)
    && Follows(seen, h, k)
  }

  /** The heap holds exactly the pairs of the functional account. */
  predicate Follows(seen: seq<Scored>, h: seq<Scored>, k: int)
  {
    k >= 1 ==> multiset(h) == multiset(Kept(seen, k))
  }
}
