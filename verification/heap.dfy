/** The array-backed binary min-heap of `(score, item_id)` tuples.

    The heap is a value: every operation takes the current contents and
    returns the new contents (or the exception the operation raises).  The
    representation invariant `IsHeap` holds of the empty heap, is
    established by `BuildMinHeap`, and is preserved by every operation
    except `HeapDecreaseKey` given a negative (Python-style, from the end)
    index, which writes the slot without sifting. */
module MinHeap {
  import opened Prelude
  import opened ScoredOrder

  /** The exceptions the heap raises. */
  datatype HeapError =
    | EmptyHeap        // IndexError: minimum or extract-min on an empty heap
    | IndexOutOfRange  // IndexError: decrease-key past either end of the list
    | KeyTooLarge      // ValueError: decrease-key to a larger key

  /** Result of a successful extract-min: the minimum and the remaining heap. */
  datatype Popped = Popped(min: Scored, rest: seq<Scored>)

  // ---------------------------------------------------------------------
  // Index arithmetic (Python's `//` floors, as does `/` on int here for a
  // positive divisor, so `Parent(0) == -1` in both)
  // ---------------------------------------------------------------------

  function Parent(i: int): (p: int)
    ensures i >= 1 ==> 0 <= p < i && (i == 2 * p + 1 || i == 2 * p + 2)
  {
    (i - 1) / 2
  }

  function Left(i: int): (l: int)
    ensures Parent(l) == i
  {
    2 * i + 1
  }

  function Right(i: int): (r: int)
    ensures Parent(r) == i
    ensures r == Left(i) + 1
  {
    2 * i + 2
  }

  // ---------------------------------------------------------------------
  // Heap order
  // ---------------------------------------------------------------------

  /** The min-heap invariant: no slot is smaller than its parent. */
  predicate IsHeap(a: seq<Scored>)
  {
    forall j :: 0 < j < |a| ==> Le(a[Parent(j)], a[j])
  }

  /** Slot `k` lies in the subtree rooted at slot `i`. */
  predicate InSubtree(i: nat, k: nat)
    decreases k
  {
    k == i || (k > i && InSubtree(i, Parent(k)))
  }

  /** Every parent/child edge inside the subtree rooted at `i` is ordered. */
  predicate OrderedAt(a: seq<Scored>, i: nat)
  {
    forall j :: 0 < j < |a| && InSubtree(i, Parent(j)) ==> Le(a[Parent(j)], a[j])
  }

  /** Both child subtrees of `i` are heaps: the edges leaving `i` may be out of order. */
  predicate OrderedBelow(a: seq<Scored>, i: nat)
  {
    forall j :: 0 < j < |a| && Parent(j) != i && InSubtree(i, Parent(j)) ==> Le(a[Parent(j)], a[j])
  }

  lemma InSubtreeGe(i: nat, k: nat)
    requires InSubtree(i, k)
    ensures k >= i
  {
  }

  lemma {:induction false} InSubtreeOfChild(i: nat, c: nat, k: nat)
    requires c == Left(i) || c == Right(i)
    requires InSubtree(c, k)
    ensures InSubtree(i, k)
    decreases k
  {
    if k != c {
      InSubtreeOfChild(i, c, Parent(k));
    }
  }

  /** Every slot descends from the root. */
  lemma {:induction false} InSubtreeOfRoot(k: nat)
    ensures InSubtree(0, k)
    decreases k
  {
    if k > 0 {
      InSubtreeOfRoot(Parent(k));
    }
  }

  /** The ancestors of a slot form a chain. */
  lemma {:induction false} InSubtreeChain(x: nat, y: nat, k: nat)
    requires InSubtree(x, k) && InSubtree(y, k)
    ensures InSubtree(x, y) || InSubtree(y, x)
    decreases k
  {
    if k != x && k != y {
      InSubtreeChain(x, y, Parent(k));
    }
  }

  /** The two child subtrees of a slot are disjoint. */
  lemma SiblingSubtreesDisjoint(i: nat, k: nat)
    ensures !(InSubtree(Left(i), k) && InSubtree(Right(i), k))
  {
    if InSubtree(Left(i), k) && InSubtree(Right(i), k) {
      InSubtreeChain(Left(i), Right(i), k);
    }
  }

  lemma OrderedAtRootIsHeap(a: seq<Scored>)
    requires OrderedAt(a, 0)
    ensures IsHeap(a)
  {
    forall j | 0 < j < |a|
      ensures Le(a[Parent(j)], a[j])
    {
      InSubtreeOfRoot(Parent(j));
    }
  }

  /** The root of a heap is no larger than any slot. */
  lemma {:induction false} RootIsMin(a: seq<Scored>, j: nat)
    requires IsHeap(a)
    requires j < |a|
    ensures Le(a[0], a[j])
    decreases j
  {
    if j > 0 {
      RootIsMin(a, Parent(j));
      LeTransitive(a[0], a[Parent(j)], a[j]);
    }
  }

  // ---------------------------------------------------------------------
  // MIN-HEAPIFY
  // ---------------------------------------------------------------------

  /** `r` agrees with `a` on every slot outside the subtree rooted at `i`. */
  predicate UnchangedOutside(a: seq<Scored>, r: seq<Scored>, i: nat)
    requires |r| == |a|
  {
    forall k :: 0 <= k < |a| && !InSubtree(i, k) ==> r[k] == a[k]
  }

  /** `r` agrees with `a` on every slot of the subtree rooted at `i`. */
  predicate UnchangedWithin(a: seq<Scored>, r: seq<Scored>, i: nat)
    requires |r| == |a|
  {
    forall k :: 0 <= k < |a| && InSubtree(i, k) ==> r[k] == a[k]
  }

  /** The slot MIN-HEAPIFY swaps `i` with: the least of `i` and its children
      under strict `<`, looking at the left child first, so the parent wins
      ties with a child and the left child wins ties with the right. */
  function Smallest(a: seq<Scored>, i: nat): (s: nat)
    requires i < |a|
    ensures s == i || (s == Left(i) && s < |a|) || (s == Right(i) && s < |a|)
    ensures s < |a|
    ensures Le(a[s], a[i])
    ensures Left(i) < |a| ==> Le(a[s], a[Left(i)])
    ensures Right(i) < |a| ==> Le(a[s], a[Right(i)])
    ensures s != i ==> Lt(a[s], a[i])
    ensures s == Right(i) <==> Right(i) < |a| && Lt(a[Right(i)], a[i]) && Lt(a[Right(i)], a[Left(i)])
    ensures s == Left(i) <==> Left(i) < |a| && Lt(a[Left(i)], a[i]) && (Right(i) < |a| ==> Le(a[Left(i)], a[Right(i)]))
  {
    var l := Left(i);
    var rt := Right(i);
    var s1 := if l < |a| && Lt(a[l], a[i]) then l else i;
    var s2 := if rt < |a| && Lt(a[rt], a[s1]) then rt else s1;
    if l < |a| && rt < |a| then
      LeTotal(a[i], a[l]); LeTotal(a[i], a[rt]); LeTotal(a[l], a[rt]);
      LtChain(a[rt], a[l], a[i]);
      LtChain(a[rt], a[i], a[l]);
      LtChain(a[l], a[i], a[rt]);
      s2
    else if l < |a| then
      LeTotal(a[i], a[l]);
      s2
    else
      s2
  }

  /** Swapping `i` with a child `s` keeps both subtrees below `s` ordered. */
  lemma SwapKeepsOrderBelow(a: seq<Scored>, i: nat, s: nat)
    requires s < |a|
    requires s == Left(i) || s == Right(i)
    requires OrderedBelow(a, i)
    ensures OrderedBelow(a[i := a[s]][s := a[i]], s)
  {
    var b := a[i := a[s]][s := a[i]];
    forall j | 0 < j < |a| && Parent(j) != s && InSubtree(s, Parent(j))
      ensures Le(b[Parent(j)], b[j])
    {
      InSubtreeGe(s, Parent(j));
      InSubtreeOfChild(i, s, Parent(j));
    }
  }

  /** After swapping `i` with its smallest child `s` and re-heapifying at `s`,
      the whole subtree at `i` is ordered. */
  lemma SwapThenHeapifyOrdered(a: seq<Scored>, i: nat, r: seq<Scored>)
    requires i < |a| == |r|
    requires OrderedBelow(a, i)
    requires Smallest(a, i) != i
    requires var s := Smallest(a, i);
             var b := a[i := a[s]][s := a[i]];
             && OrderedAt(r, s)
             && UnchangedOutside(b, r, s)
             && (r[s] == b[s] || (Left(s) < |b| && r[s] == b[Left(s)]) || (Right(s) < |b| && r[s] == b[Right(s)]))
    ensures OrderedAt(r, i)
  {
    var s := Smallest(a, i);
    var b := a[i := a[s]][s := a[i]];
    var n := |a|;
    assert InSubtree(i, s);
    assert !InSubtree(s, i);
    assert r[i] == a[s];
    assert Le(a[s], r[s]) by {
      if Left(s) < n && r[s] == b[Left(s)] {
        assert Le(a[Parent(Left(s))], a[Left(s)]);
      } else if Right(s) < n && r[s] == b[Right(s)] {
        assert Le(a[Parent(Right(s))], a[Right(s)]);
      } else {
        assert r[s] == a[i];
      }
    }
    forall j | 0 < j < n && InSubtree(i, Parent(j))
      ensures Le(r[Parent(j)], r[j])
    {
      var p := Parent(j);
      if p == i {
        if j != s {
          assert !InSubtree(s, j);
          assert r[j] == a[j];
        }
      } else if !InSubtree(s, p) {
        InSubtreeGe(i, p);
        assert !InSubtree(s, j);
        assert r[p] == a[p] && r[j] == a[j];
      }
    }
  }

  /** Sift the element at `i` down until the subtree rooted at `i` is a heap. */
  method MinHeapify(a: seq<Scored>, i: nat) returns (r: seq<Scored>)
    requires i < |a|
    requires OrderedBelow(a, i)
    ensures |r| == |a|
    ensures multiset(r) == multiset(a)
    ensures OrderedAt(r, i)
    ensures UnchangedOutside(a, r, i)
    // the root of the subtree ends up holding the least of a[i] and its children
    ensures r[i] == a[i] || (Left(i) < |a| && r[i] == a[Left(i)]) || (Right(i) < |a| && r[i] == a[Right(i)])
    ensures Le(r[i], a[i])
    ensures Left(i) < |a| ==> Le(r[i], a[Left(i)])
    ensures Right(i) < |a| ==> Le(r[i], a[Right(i)])
    // the tie-break: the right subtree is entered only when the right child is
    // strictly smaller than both the parent and the left child
    ensures Right(i) < |a| && !(Lt(a[Right(i)], a[i]) && Lt(a[Right(i)], a[Left(i)])) ==>
              UnchangedWithin(a, r, Right(i))
    ensures Left(i) < |a| && !(Lt(a[Left(i)], a[i]) && (Right(i) < |a| ==> Le(a[Left(i)], a[Right(i)]))) ==>
              UnchangedWithin(a, r, Left(i))
    decreases |a| - i
  {
    var smallest := Smallest(a, i);
    if smallest == i {
      r := a;
      forall j | 0 < j < |a| && InSubtree(i, Parent(j))
        ensures Le(r[Parent(j)], r[j])
      {
        if Parent(j) == i {
          LeTotal(a[i], a[j]);
        }
      }
    } else {
      var s := smallest;
      var b := a[i := a[s]][s := a[i]];
      SwapKeepsOrderBelow(a, i, s);
      r := MinHeapify(b, s);
      SwapThenHeapifyOrdered(a, i, r);
      forall k | 0 <= k < |a| && !InSubtree(i, k)
        ensures r[k] == a[k]
      {
        if InSubtree(s, k) {
          InSubtreeOfChild(i, s, k);
        }
      }
      var o := if s == Left(i) then Right(i) else Left(i);
      forall k | 0 <= k < |a| && InSubtree(o, k)
        ensures r[k] == a[k]
      {
        SiblingSubtreesDisjoint(i, k);
        InSubtreeGe(o, k);
      }
      assert !InSubtree(s, i);
    }
  }

  // ---------------------------------------------------------------------
  // BUILD-MIN-HEAP
  // ---------------------------------------------------------------------

  /** Copy `items` and heapify every internal slot, last one first. */
  method BuildMinHeap(items: seq<Scored>) returns (h: seq<Scored>)
    ensures |h| == |items|
    ensures multiset(h) == multiset(items)
    ensures IsHeap(h)
  {
    h := items;
    var i := |h| / 2;
    while i > 0
      invariant 0 <= i <= |h| / 2
      invariant |h| == |items| && multiset(h) == multiset(items)
      invariant forall j :: 0 < j < |h| && Parent(j) >= i ==> Le(h[Parent(j)], h[j])
    {
      i := i - 1;
      forall j | 0 < j < |h| && Parent(j) != i && InSubtree(i, Parent(j))
        ensures Le(h[Parent(j)], h[j])
      {
        InSubtreeGe(i, Parent(j));
      }
      var h0 := h;
      h := MinHeapify(h, i);
      forall j | 0 < j < |h| && Parent(j) >= i
        ensures Le(h[Parent(j)], h[j])
      {
        if !InSubtree(i, Parent(j)) {
          assert !InSubtree(i, j);
          assert h[Parent(j)] == h0[Parent(j)] && h[j] == h0[j];
        }
      }
    }
  }

  // ---------------------------------------------------------------------
  // Priority-queue operations
  // ---------------------------------------------------------------------

  /** HEAP-MINIMUM: the root, which no element is below; IndexError when empty. */
  function HeapMinimum(h: seq<Scored>): (res: Result<Scored, HeapError>)
    requires IsHeap(h)
    ensures res.Err? <==> |h| == 0
    ensures res.Err? ==> res.error == EmptyHeap
    ensures res.Ok? ==> res.value == h[0]
    ensures res.Ok? ==> res.value in h && forall x :: x in h ==> Le(res.value, x)
  {
    if |h| == 0 then Err(EmptyHeap)
    else
      RootIsLeast(h);
      Ok(h[0])
  }

  /** Every element of a heap is at least the root. */
  lemma RootIsLeast(h: seq<Scored>)
    requires IsHeap(h) && |h| > 0
    ensures forall x :: x in h ==> Le(h[0], x)
  {
    forall x | x in h
      ensures Le(h[0], x)
    {
      var j :| 0 <= j < |h| && h[j] == x;
      RootIsMin(h, j);
    }
  }

  /** Moving the last slot to the root and dropping the last slot removes
      the root from the multiset and leaves both child subtrees ordered. */
  lemma MoveLastToRoot(h: seq<Scored>)
    requires IsHeap(h) && |h| > 0
    ensures var a := h[0 := h[|h| - 1]][..|h| - 1];
            && multiset(a) == multiset(h) - multiset{h[0]}
            && (|a| > 0 ==> OrderedBelow(a, 0))
  {
    var a := h[0 := h[|h| - 1]][..|h| - 1];
    if |h| > 1 {
      assert h == [h[0]] + h[1..|h| - 1] + [h[|h| - 1]];
      assert a == [h[|h| - 1]] + h[1..|h| - 1];
      forall j | 0 < j < |a| && Parent(j) != 0 && InSubtree(0, Parent(j))
        ensures Le(a[Parent(j)], a[j])
      {
        assert a[Parent(j)] == h[Parent(j)] && a[j] == h[j];
      }
    }
  }

  /** HEAP-EXTRACT-MIN: remove the root, move the last slot to the root and
      sift it down; IndexError when empty. */
  method HeapExtractMin(h: seq<Scored>) returns (res: Result<Popped, HeapError>)
    requires IsHeap(h)
    ensures res.Err? <==> |h| == 0
    ensures res.Err? ==> res.error == EmptyHeap
    ensures res.Ok? ==> res.value.min == h[0]
    ensures res.Ok? ==> forall x :: x in h ==> Le(res.value.min, x)
    ensures res.Ok? ==> |res.value.rest| == |h| - 1
    ensures res.Ok? ==> multiset(res.value.rest) == multiset(h) - multiset{res.value.min}
    ensures res.Ok? ==> IsHeap(res.value.rest)
  {
    if |h| == 0 {
      return Err(EmptyHeap);
    }
    var minimum := h[0];
    var a := h[0 := h[|h| - 1]][..|h| - 1];
    MoveLastToRoot(h);
    if |a| > 0 {
      a := MinHeapify(a, 0);
      OrderedAtRootIsHeap(a);
    }
    RootIsLeast(h);
    return Ok(Popped(minimum, a));
  }

  /** Sift the element at `i` up while it is strictly below its parent.
      The slot `i` may be below its parent; every other edge is ordered, and
      the parent of `i` is no larger than the children of `i`. */
  method SiftUp(a: seq<Scored>, i: nat) returns (r: seq<Scored>)
    requires i < |a|
    requires forall j :: 0 < j < |a| && j != i ==> Le(a[Parent(j)], a[j])
    requires i > 0 ==> forall j :: 0 < j < |a| && Parent(j) == i ==> Le(a[Parent(i)], a[j])
    ensures |r| == |a|
    ensures multiset(r) == multiset(a)
    ensures IsHeap(r)
  {
    r := a;
    var c := i;
    while c > 0 && Lt(r[c], r[Parent(c)])
      invariant 0 <= c < |r| == |a|
      invariant multiset(r) == multiset(a)
      invariant forall j :: 0 < j < |r| && j != c ==> Le(r[Parent(j)], r[j])
      invariant c > 0 ==> forall j :: 0 < j < |r| && Parent(j) == c ==> Le(r[Parent(c)], r[j])
      decreases c
    {
      var p := Parent(c);
      SwapWithParent(r, c);
      r := r[c := r[p]][p := r[c]];
      c := p;
    }
    if c > 0 {
      LeTotal(r[Parent(c)], r[c]);
    }
  }

  /** One sift-up step: swapping a slot that is strictly below its parent
      with that parent moves the only possibly unordered edge one level up. */
  lemma SwapWithParent(r0: seq<Scored>, c: nat)
    requires 0 < c < |r0|
    requires Lt(r0[c], r0[Parent(c)])
    requires forall j :: 0 < j < |r0| && j != c ==> Le(r0[Parent(j)], r0[j])
    requires forall j :: 0 < j < |r0| && Parent(j) == c ==> Le(r0[Parent(c)], r0[j])
    ensures var p := Parent(c);
      var r := r0[c := r0[p]][p := r0[c]];
      && multiset(r) == multiset(r0)
      && (forall j :: 0 < j < |r| && j != p ==> Le(r[Parent(j)], r[j]))
      && (p > 0 ==> forall j :: 0 < j < |r| && Parent(j) == p ==> Le(r[Parent(p)], r[j]))
  {
    var p := Parent(c);
    var r := r0[c := r0[p]][p := r0[c]];
    forall j | 0 < j < |r| && j != p
      ensures Le(r[Parent(j)], r[j])
    {
      if j == c {
        assert Le(r0[c], r0[p]);
      } else if Parent(j) == c {
        assert Le(r0[p], r0[j]);
      } else if Parent(j) == p {
        assert Le(r0[p], r0[j]);
        LtLeTransitive(r0[c], r0[p], r0[j]);
      } else {
        assert r[j] == r0[j];
        assert Parent(j) != c && Parent(j) != p;
      }
    }
    if p > 0 {
      forall j | 0 < j < |r| && Parent(j) == p
        ensures Le(r[Parent(p)], r[j])
      {
        assert r[Parent(p)] == r0[Parent(p)];
        assert Le(r0[Parent(p)], r0[p]);
        if j != c {
          assert Le(r0[p], r0[j]);
          LeTransitive(r0[Parent(p)], r0[p], r0[j]);
        }
      }
    }
  }

  /** The slot a Python index denotes: negative indexes count from the end. */
  function PySlot(n: nat, i: int): (slot: int)
    ensures -(n as int) <= i < n <==> 0 <= slot < n
    ensures i < 0 ==> slot == n - (-i)
    ensures i >= 0 ==> slot == i
  {
    if i < 0 then i + n else i
  }

  /** HEAP-DECREASE-KEY: overwrite slot `i` with a key no larger than the
      current one, then sift it up.  A key larger than the current one is a
      ValueError; an index past either end is an IndexError.  A negative
      index in range names a slot from the end, as in Python, and the sift-up
      loop (guarded by `i > 0`) is then skipped. */
  method HeapDecreaseKey(h: seq<Scored>, i: int, key: Scored) returns (res: Result<seq<Scored>, HeapError>)
    requires IsHeap(h)
    ensures (i >= |h| || i < -|h|) <==> res == Err(IndexOutOfRange)
    ensures -|h| <= i < |h| ==> (Lt(h[PySlot(|h|, i)], key) <==> res == Err(KeyTooLarge))
    ensures res.Ok? ==> -|h| <= i < |h| && Le(key, h[PySlot(|h|, i)])
    ensures -|h| <= i < |h| && Le(key, h[PySlot(|h|, i)]) ==> res.Ok?
    ensures res.Ok? ==> |res.value| == |h|
    ensures res.Ok? ==> multiset(res.value) == multiset(h[PySlot(|h|, i) := key])
    ensures res.Ok? && i >= 0 ==> IsHeap(res.value)
    ensures res.Ok? && i < 0 ==> res.value == h[PySlot(|h|, i) := key]
  {
    if i >= |h| || i < -|h| {
      return Err(IndexOutOfRange);
    }
    var slot := PySlot(|h|, i);
    if Lt(h[slot], key) {
      LtAsymmetric(h[slot], key);
      LtIrreflexive(h[slot]);
      return Err(KeyTooLarge);
    }
    LeTotal(key, h[slot]);
    var a := h[slot := key];
    if i < 0 {
      return Ok(a);
    }
    forall j | 0 < j < |a| && j != i
      ensures Le(a[Parent(j)], a[j])
    {
      if Parent(j) == i {
        LeTransitive(key, h[i], h[j]);
      }
    }
    if i > 0 {
      forall j | 0 < j < |a| && Parent(j) == i
        ensures Le(a[Parent(i)], a[j])
      {
        LeTransitive(h[Parent(i)], h[i], h[j]);
      }
    }
    var r := SiftUp(a, i);
    return Ok(r);
  }

  /** A negative index skips the sift-up, so a legal decrease can leave a
      heap out of order: lowering the last of `[(1, "a"), (2, "b")]` to
      `(0, "c")` through index -1 puts it below its parent. */
  lemma NegativeIndexBreaksHeap()
    ensures var h := [Scored(1.0, "a"), Scored(2.0, "b")];
      var key := Scored(0.0, "c");
      && IsHeap(h)
      && Le(key, h[PySlot(|h|, -1)])
      && !IsHeap(h[PySlot(|h|, -1) := key])
  {
    var h := [Scored(1.0, "a"), Scored(2.0, "b")];
    var a := h[1 := Scored(0.0, "c")];
    assert Parent(1) == 0;
    assert !Le(a[Parent(1)], a[1]);
  }

  /** MIN-HEAP-INSERT: append the key and sift it up. */
  method MinHeapInsert(h: seq<Scored>, key: Scored) returns (r: seq<Scored>)
    requires IsHeap(h)
    ensures |r| == |h| + 1
    ensures multiset(r) == multiset(h) + multiset{key}
    ensures IsHeap(r)
  {
    var a := h + [key];
    r := SiftUp(a, |h|);
  }
}
