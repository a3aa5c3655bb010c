# Top-K recommender core in Dafny

The project is a Dafny model of the ranking core of a small product recommender.
Review events `(parent_asin, rating)` are folded into a dict that maps each id to `[sum_ratings, count]`.
Each id gets a score, and the K best `(score, id)` pairs are returned in descending order.
There are two selectors, plus the metrics the benchmark uses to compare them:

- a bounded selector that streams the pairs through a hand-written binary min-heap capped at K;
- a naive selector that sorts everything and slices;
- Precision@K, AP@K, Jaccard@K and Spearman's rho.

Files and modules (one module per file):

- `prelude.dfy` (`Prelude`): `Option`, `Result`, `Min`, `Max`.
- `scored.dfy` (`ScoredOrder`):
  - the `(score, id)` pair and Python's tuple order on it: score first, then code-point order on the id string;
  - the order laws, and the sortedness predicates.
- `heap.dfy` (`MinHeap`):
  - the array heap: index arithmetic, MIN-HEAPIFY, BUILD-MIN-HEAP, HEAP-MINIMUM, HEAP-EXTRACT-MIN, HEAP-DECREASE-KEY and insert;
  - each operation works on a `seq` and returns a new `seq` or a `Result` carrying the exception kind.
- `aggregation.dfy` (`Aggregation`):
  - the aggregation fold;
  - reference definitions (`CountOf`, `SumOf`, `FirstIndex`) that the fold is proved against.
- `ranking.dfy` (`Ranking`):
  - scoring every entry;
  - `IsTopK`, an order-theoretic definition of a correct top-m answer, and the proof that it is unique.
- `naive.dfy` (`NaiveSelector`): the descending tuple sort, Python's `[:k]` slice, `rank_with_sort` and `SistemaRecNaive.top_k`.
- `selection.dfy` (`SelectionSpec`): the loop invariant of the bounded selector, plus `Kept`, a functional account of what its heap holds after each pair.
- `selector.dfy` (`HeapSelector`): one iteration of the bounded loop, the loop, the drain, `rank_with_heap`, `SistemaRec1.top_k`, and their relation to the naive selector.
- `metrics.dfy` (`Metrics`): `precision_at_k`, `average_precision_at_k`, `jaccard_at_k`, `spearman_rho`.
- `comparison.dfy` (`Comparison`): the benchmark's scoring of the bounded selector's answer against the naive one.

Modelling choices:

- `compute_score` is a parameter `score: Acc -> real`.
- The aggregated dict is a sequence of entries with pairwise distinct ids, in insertion order. Insertion order matters: it decides which of two tied pairs the heap keeps.
- Python integer division and negative list indexes are written out where the code can reach them:
  - `(i - 1) // 2` in `parent`;
  - `data[i]` with `i < 0` in `heap_decrease_key`;
  - `scored[:k]` with `k < 0`.
- With `k <= 0` and a non-empty dict, the bounded selector fails with `EmptyHeap`: the first pair finds the heap "full" and calls `heap_minimum` on an empty heap.

**Ties at the cut-off.** The two selectors may differ when a tie straddles position K.
When full, the heap replaces its tuple-least pair only for a strictly higher *score*.
So which tied pair survives depends on the insertion order and on the tuple order.
The sort orders ties by the larger id.

- `HeapSelector.TieAtCutoff` shows a case where they differ: a dict `a: 1.0`, `b: 1.0` with `k = 1`. The heap returns `[(1.0, "a")]` and the sort returns `[(1.0, "b")]`.
- `HeapSelector.TieAtCutoffAgreeing` shows that a straddling tie does not force a difference: with `b: 1.0` inserted before `a: 1.0`, both return `[(1.0, "b")]`.
- `HeapSelector.TiedSecondSurvives` shows that the heap does not simply keep the first-seen of two tied pairs: offering `(1, "a")`, `(1, "b")`, `(2, "c")` with `k = 2` keeps `(2, "c")` and `(1, "b")`.
- `HeapSelector.RankWithHeap` proves the two selectors agree whenever scores are pairwise distinct.
- Without that assumption, `RankWithHeap` pins down the heap answer exactly as `Kept`.
- So the expectation that the bounded selector always reproduces the exhaustive ranking does not hold for the code as written.
- `Comparison.DistinctScoresScoreOne` proves that with pairwise distinct scores, `k >= 1` and a non-empty dict, Precision@K, AP@K and Jaccard@K between the two answers are all 1. When both answers are empty, Precision@K and Jaccard@K are 0 instead, as their own contracts state.

## Model

| member | source | states |
|---|---|---|
| MinHeap.Parent | estructuras_datos/heap.py:16-18 | for every index `i >= 1` the parent lies below `i`, and `i` is its left or its right child |
| MinHeap.Left | estructuras_datos/heap.py:20-22 | `parent(left(i)) == i` |
| MinHeap.Right | estructuras_datos/heap.py:24-26 | `parent(right(i)) == i`, and the right child sits just after the left one |
| MinHeap.Smallest | estructuras_datos/heap.py:34-42 | selects the least of slot `i` and its existing children. The right child wins only when it is strictly below both the parent and the left child; otherwise the left child wins when strictly below the parent |
| MinHeap.MinHeapify | estructuras_datos/heap.py:31-49 | when both child subtrees are ordered, the subtree at `i` becomes a heap. Length and multiset are kept, and every slot outside that subtree is untouched. Slot `i` ends up with the least of it and its children, and a child subtree the tie-break does not enter is left untouched |
| MinHeap.BuildMinHeap | estructuras_datos/heap.py:54-58 | the result is a permutation of the input of the same length, and every slot is no smaller than its parent |
| MinHeap.RootIsMin | estructuras_datos/heap.py:63-67 | in a heap, slot 0 is `<=` every slot |
| MinHeap.HeapMinimum | estructuras_datos/heap.py:63-67 | an error exactly on the empty heap; otherwise slot 0, an element of the heap that is `<=` every element |
| MinHeap.HeapExtractMin | estructuras_datos/heap.py:69-78 | an error exactly on the empty heap; otherwise it returns the old root, which is `<=` every element. The rest is one shorter, holds the old multiset minus that element, and is a heap |
| MinHeap.SiftUp | estructuras_datos/heap.py:88-91 | from a heap in which only slot `i` may be below its parent, the loop yields a heap with the same length and multiset |
| MinHeap.PySlot | estructuras_datos/heap.py:85-87 | the slot `data[i]` names: `i` itself for `i >= 0`, `n + i` for negative `i`; it lies in `[0, n)` exactly when `i` lies in `[-n, n)` |
| MinHeap.HeapDecreaseKey | estructuras_datos/heap.py:80-91 | `IndexOutOfRange` exactly when `i` is outside `[-n, n)`. `KeyTooLarge` exactly when `key > data[i]`, read with Python's negative indexing; an in-range index with `key <= data[i]` always succeeds. On success, same length, and the multiset is the old one with that slot replaced by `key`. The heap order is restored for `i >= 0`; a negative `i` only overwrites slot `n + i` |
| MinHeap.NegativeIndexBreaksHeap | estructuras_datos/heap.py:80-91 | a legal decrease through a negative index can leave a non-heap: in the heap `[(1, "a"), (2, "b")]`, lowering slot -1 to `(0, "c")` puts it below its parent |
| MinHeap.MinHeapInsert | estructuras_datos/heap.py:93-96 | length grows by one, the multiset gains `key`, and the heap order is kept |
| ScoredOrder.LtTrichotomy | sistema_rec/sistema_rec_naive.py:94 | tuple order is total: two pairs are equal or one is below the other |
| ScoredOrder.LtTransitive | sistema_rec/sistema_rec_naive.py:94 | tuple order is transitive |
| ScoredOrder.LeAntisymmetric | sistema_rec/sistema_rec_naive.py:94 | two pairs each `<=` the other are equal |
| ScoredOrder.SortedDescUnique | sistema_rec/sistema_rec_naive.py:94 | two descending arrangements of the same multiset are equal, so the sort's outcome is fixed by the tuple order |
| ScoredOrder.Reverse | sistema_rec/sistema_rec1.py:106 | `list.reverse()`: same length and multiset, and slot `i` holds what slot `n - 1 - i` held |
| ScoredOrder.ReverseInvolutive | sistema_rec/sistema_rec1.py:106 | reversing twice gives the list back |
| ScoredOrder.ReverseAscIsDesc | sistema_rec/sistema_rec1.py:102-106 | reversing an ascending list yields a descending one |
| Aggregation.Find | sistema_rec/sistema_rec1.py:60 | the `in` test: absent exactly when the id is not a key; otherwise the position of that key |
| Aggregation.Accumulate | sistema_rec/sistema_rec1.py:60-64 | one event's update: the keys gain the event's id; a known id keeps its position and gets the rating added and its count bumped, while every other entry is unchanged; an unseen id is appended as `[rating, 1]`; a dict stays a dict |
| Aggregation.AccumulateStep | sistema_rec/sistema_rec_naive.py:58-62 | one event's update keeps the dict summarising the events seen so far (keys, counts, sums, first-seen order) |
| Aggregation.AccumulateKnown | tests/benchmark_completo.py:85-87 | adding the rating to an existing id and incrementing its count keeps the summary |
| Aggregation.AccumulateNew | tests/benchmark_completo.py:88-89 | a new id enters as `[rating, 1]` at the end, and the summary is kept |
| Aggregation.Aggregate | sistema_rec/sistema_rec1.py:54-64 | one entry per distinct event id. Each count is that id's number of events (at least 1), and each sum is the total of its ratings. Keys are in first-occurrence order |
| Aggregation.AggregateSize | tests/benchmark_completo.py:79-90 | the dict has exactly as many entries as there are distinct ids |
| Ranking.ScoreAll | sistema_rec/sistema_rec_naive.py:88-91 | one pair per key, carrying the score of that key's own `[sum, count]`; the pair ids are exactly the dict's keys, and on a dict neither ids nor pairs repeat |
| Ranking.TopKUnique | tests/benchmark_completo.py:46-70 | two correct top-m answers over the same candidates are the same list |
| Ranking.TopKMultiset | sistema_rec/sistema_rec_naive.py:94-96 | a correct top-m answer uses each candidate at most once, and no excluded candidate scores higher than a kept pair |
| Ranking.AnswerOverEvents | sistema_rec/sistema_rec1.py:93-100 | an answer drawn from the scored dict uses event ids, each paired with the score of its own `[sum, count]`. An id left out scores no higher than any returned pair |
| NaiveSelector.InsertDesc | sistema_rec/sistema_rec_naive.py:94 | inserting into a descending list yields a descending list one longer, whose multiset gains `x` |
| NaiveSelector.SortDesc | sistema_rec/sistema_rec_naive.py:94 | `sort(reverse=True)` yields a descending permutation of the same length |
| NaiveSelector.SortIsCanonical | sistema_rec/sistema_rec_naive.py:94 | any descending permutation of the input equals the sorted list |
| NaiveSelector.TiesByLargerId | sistema_rec/sistema_rec_naive.py:94 | in the sorted list, of two distinct pairs with equal scores the one with the larger id comes first |
| NaiveSelector.PySliceTo | sistema_rec/sistema_rec_naive.py:96 | `s[:k]` is a prefix of `s` of length `min(k, len)` for `k >= 0`, and of length `max(0, len + k)` for `k < 0` |
| NaiveSelector.PrefixIsTop | sistema_rec/sistema_rec_naive.py:94-96 | every prefix of the sorted list is a correct top-m answer: strictly descending, drawn from the candidates, and with each excluded pair below each kept one |
| NaiveSelector.RankWithSort | tests/benchmark_completo.py:63-70 | a prefix of the fully sorted list, of length `min(k, n)` for `k >= 0` (empty for `k == 0`). It is the correct top answer of its length, and its ids are distinct |
| NaiveSelector.NaiveTopK | sistema_rec/sistema_rec_naive.py:78-96 | `min(k, #ids)` pairs for `k >= 0` and `max(0, #ids + k)` for `k < 0` (Python's `[:k]`), descending, with distinct event ids. Each is paired with its own aggregate's score, and no omitted id scores higher than a returned pair |
| SelectionSpec.Keep | sistema_rec/sistema_rec1.py:96-100 | one step of the loop, as a descending list: stays descending and holds `min(k, held + 1)` pairs |
| SelectionSpec.Kept | sistema_rec/sistema_rec1.py:93-100 | after `n` pairs the account holds `min(k, n)` pairs in descending order |
| HeapSelector.KeepContents | sistema_rec/sistema_rec1.py:96-100 | below capacity the new pair joins. At capacity it replaces the minimum exactly when its score is strictly higher, and otherwise nothing changes |
| HeapSelector.Offer | sistema_rec/sistema_rec1.py:96-100 | fails with `EmptyHeap` exactly when `k <= 0`. Otherwise the heap stays a heap of `min(k, size + 1)` pairs: `x` is inserted below capacity; at capacity the root is swapped for `x` when `x` scores strictly higher, else the heap is returned unchanged |
| HeapSelector.OfferFollowsKept | sistema_rec/sistema_rec1.py:96-100 | after each `Offer` the heap holds exactly the pairs of the functional account |
| HeapSelector.OfferKeepsInv | sistema_rec/sistema_rec1.py:96-100 | each `Offer` keeps the loop invariant: the heap is a sub-multiset of what it has seen, sized `min(k, seen)`, and no dropped pair scores higher than a held one |
| HeapSelector.Step | tests/benchmark_completo.py:50-55 | one loop iteration fails exactly when `k <= 0`, and otherwise extends the invariant by one pair with the heap never above `k` |
| HeapSelector.SelectFrom | tests/benchmark_completo.py:49-55 | the rest of the loop. It fails exactly when `k <= 0` and pairs remain, the peak heap size never exceeds `max(k, 0)`, and on success the invariant holds for all pairs |
| HeapSelector.SelectLoop | sistema_rec/sistema_rec1.py:93-100 | the whole selection loop, with the same guarantees from an empty heap |
| HeapSelector.DrainAscending | sistema_rec/sistema_rec1.py:103-105 | extracting until empty yields all the heap's pairs in non-decreasing order (heap sort) |
| HeapSelector.Drain | tests/benchmark_completo.py:56-60 | the drained, reversed heap has `min(k, n)` pairs and is descending, a sub-multiset of the scored pairs, with distinct ids. No excluded pair scores higher than a kept one. It equals `Kept` for `k >= 1`, and equals `rank_with_sort` when scores are distinct |
| HeapSelector.RankWithHeap | tests/benchmark_completo.py:46-60 | `EmptyHeap` exactly when `k <= 0` and the dict is non-empty, and the heap never exceeds `max(k, 0)` pairs. Otherwise the answer has `min(k, n)` descending pairs with distinct ids drawn from the scored dict, and no excluded pair scores higher than a kept one. It is `Kept` for `k >= 1`, and equals `rank_with_sort` when all scores are distinct |
| HeapSelector.HeapTopK | sistema_rec/sistema_rec1.py:80-107 | fails, with `EmptyHeap`, exactly when `k <= 0` and there are events; otherwise the same guarantees stated over the review events: `min(k, #ids)` descending pairs with distinct event ids, each carrying its own aggregate's score, and no omitted id scores higher |
| HeapSelector.HeapAgreesWithSort | tests/benchmark_completo.py:46-70 | with pairwise distinct scores, any descending answer of the right length that keeps the best scores equals `rank_with_sort` |
| HeapSelector.TieAtCutoff | tests/benchmark_completo.py:46-70 | with two tied pairs and `k = 1`, the heap keeps the first-seen id and the sort keeps the larger id, so the answers differ |
| HeapSelector.TieAtCutoffAgreeing | tests/benchmark_completo.py:46-70 | with the larger id seen first, a tie at the cut-off leaves both selectors returning the same pair |
| HeapSelector.TiedSecondSurvives | sistema_rec/sistema_rec1.py:96-100 | once full, the heap evicts its tuple-least pair, so of two tied pairs the one seen second can survive |
| Comparison.DistinctScoresScoreOne | tests/benchmark.py:184-187 | with pairwise distinct scores, `k >= 1` and a non-empty dict, any answer meeting the bounded selector's guarantees scores 1 on Precision@K, AP@K and Jaccard@K against the naive answer |
| Metrics.PrecisionAtK | tests/benchmark.py:64-74 | 0 for an empty evaluated list; always in [0, 1]. Otherwise 1 exactly when the evaluated ids are all reference ids, and 0 exactly when none is |
| Metrics.JaccardAtK | tests/benchmark.py:124-135 | 0 when both id sets are empty; in [0, 1]. 1 exactly when the id sets are equal and non-empty, and 0 exactly when they are disjoint |
| Metrics.JaccardSymmetric | tests/benchmark.py:124-135 | Jaccard is symmetric in its arguments |
| Metrics.Hits | tests/benchmark.py:89-93 | the hit counter equals the number of positions of the evaluated list whose id is a reference id, so it never exceeds the list's length |
| Metrics.PrecisionSum | tests/benchmark.py:89-94 | the running sum of `hits / i` lies between 0 and the number of hits |
| Metrics.HitsBound | tests/benchmark.py:89-93 | with distinct ids, the hit counter ends at the size of the intersection of the id sets |
| Metrics.AveragePrecisionAtK | tests/benchmark.py:77-96 | 0 when the reference or the evaluated list is empty, and never negative |
| Metrics.AveragePrecisionBounded | tests/benchmark.py:89-96 | with distinct evaluated ids, AP@K lies in [0, 1] |
| Metrics.AveragePrecisionOfSelf | tests/benchmark.py:89-96 | AP@K of a non-empty ranking against itself is 1 |
| Metrics.AveragePrecisionRepeatedId | tests/benchmark.py:89-96 | with a repeated id in the evaluated list AP@K can exceed 1: reference `[a]` against `[a, a]` gives 2 |
| Metrics.RankMap | tests/benchmark.py:144-145 | the rank dict has exactly the ranking's ids as keys, and maps each id to the last position holding it |
| Metrics.SqDiffSum | tests/benchmark.py:152 | the sum of squared rank differences is non-negative, and 0 exactly when every common id has equal ranks |
| Metrics.Rho | tests/benchmark.py:153 | `1 - 6d / (n(n^2 - 1))` is at most 1, and equals 1 exactly when `d == 0` |
| Metrics.SpearmanRho | tests/benchmark.py:138-153 | undefined (`None`) exactly when fewer than 2 ids are common. Otherwise at most 1, and 1 exactly when every common id has the same rank in both |
| Metrics.SpearmanBelowMinusOne | tests/benchmark.py:138-153 | rho is not bounded below by -1: `[x, y]` against `[y, p, x]` gives -4, because ranks are positions in the whole rankings |
| Metrics.SpearmanSymmetric | tests/benchmark.py:138-153 | rho is symmetric in its arguments |
| Metrics.SpearmanOfSelf | tests/benchmark.py:138-153 | a ranking with at least two distinct ids has rho 1 against itself |

## Left out

- Reading the JSONL file, building its path, checking that it exists (`FileNotFoundError`) and `json.loads`: the fold runs over an in-memory sequence of `(id, rating)` events.
- `compute_score`: it uses the natural logarithm on floats, so it is a parameter of every ranking member. Its monotonicity is not modelled.
- `_dcg` and `ndcg_at_k`: they use `log2` on floats.
- Timing, speed-up, rounding, CSV output, plots, command-line parsing, `run()` printing and `__repr__`: presentation only.
- The dataset download script: network I/O.
- Floating-point rounding: scores and metrics are exact reals.
- MinHeap.MinHeapInsert: the `(inf, "")` sentinel is not modelled; insert is an append followed by sift-up. With the sentinel, inserting `(inf, id)` with `id > ""` would raise `ValueError`, and the model does not reproduce that.
- `__len__` is the length of the sequence. "Does not mutate its input" holds trivially, because every operation takes and returns values.
- The heap operations require the heap order on their input. Every public operation keeps that order except `heap_decrease_key` with a negative index; `min_heapify` requires both child subtrees to be ordered. Calls that break the invariant are outside the model.
- MinHeap.HeapDecreaseKey: a negative index overwrites slot `n + i` without sifting it up, so it can break the heap order (see `NegativeIndexBreaksHeap`). The model returns that sequence, but later heap operations on it fall outside the model, since they require the heap order.
- HeapSelector.SelectLoop: the peak size counts the heap between iterations. Inside one replacement it briefly holds `k - 1` pairs, which is within the bound anyway.
- Metrics.AveragePrecisionAtK: the [0, 1] bound is proved only for evaluated lists with distinct ids, because with repeated ids it does not hold (see `AveragePrecisionRepeatedId`).
- Metrics.SpearmanRho: no lower bound is stated, because the code has none. Ranks are positions in the whole rankings, not ranks among the shared ids, so rho can fall below -1 (see `SpearmanBelowMinusOne`). The function is ghost because it sums over a set.
- Metrics.Rho: it states only the upper bound and the equality case, not a lower bound.
