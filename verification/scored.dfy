/** The ranked item `(score, item_id)` and the order Python imposes on it.

    Both selectors and the heap compare whole tuples with Python's built-in
    comparison, which is lexicographic: the score decides, and only equal
    scores fall back to comparing the item ids as strings (code point by
    code point, a proper prefix being smaller).  This module makes that
    order explicit and proves it is a total order. */
module ScoredOrder {

  /** Python's `(score, item_id)` pair. */
  datatype Scored = Scored(score: real, id: string)

  /** Python's `<` on `str`. */
  predicate StrLt(a: string, b: string)
    decreases |a|
  {
    if |a| == 0 then |b| > 0
    else if |b| == 0 then false
    else a[0] < b[0] || (a[0] == b[0] && StrLt(a[1..], b[1..]))
  }

  /** Python's `<` on `(score, item_id)` tuples. */
  predicate Lt(x: Scored, y: Scored)
  {
    x.score < y.score || (x.score == y.score && StrLt(x.id, y.id))
  }

  /** Python's `<=` on `(score, item_id)` tuples. */
  predicate Le(x: Scored, y: Scored)
  {
    x == y || Lt(x, y)
  }

  lemma {:induction false} StrLtIrreflexive(a: string)
    ensures !StrLt(a, a)
  {
    if |a| > 0 {
      StrLtIrreflexive(a[1..]);
    }
  }

  lemma {:induction false} StrLtTransitive(a: string, b: string, c: string)
    requires StrLt(a, b) && StrLt(b, c)
    ensures StrLt(a, c)
  {
    if |a| > 0 && a[0] == b[0] && b[0] == c[0] {
      StrLtTransitive(a[1..], b[1..], c[1..]);
    }
  }

  lemma {:induction false} StrLtTrichotomy(a: string, b: string)
    ensures a == b || StrLt(a, b) || StrLt(b, a)
  {
    if |a| > 0 && |b| > 0 && a[0] == b[0] {
      StrLtTrichotomy(a[1..], b[1..]);
      if a[1..] == b[1..] {
        assert a == [a[0]] + a[1..];
        assert b == [b[0]] + b[1..];
      }
    }
  }

  lemma LtIrreflexive(x: Scored)
    ensures !Lt(x, x)
  {
    StrLtIrreflexive(x.id);
  }

  lemma LtTransitive(x: Scored, y: Scored, z: Scored)
    requires Lt(x, y) && Lt(y, z)
    ensures Lt(x, z)
  {
    if x.score == y.score && y.score == z.score {
      StrLtTransitive(x.id, y.id, z.id);
    }
  }

  lemma LtAsymmetric(x: Scored, y: Scored)
    requires Lt(x, y)
    ensures !Lt(y, x)
  {
    if Lt(y, x) {
      LtTransitive(x, y, x);
      LtIrreflexive(x);
    }
  }

  /** Two distinct tuples are always comparable. */
  lemma LtTrichotomy(x: Scored, y: Scored)
    ensures x == y || Lt(x, y) || Lt(y, x)
  {
    StrLtTrichotomy(x.id, y.id);
  }

  lemma LeTransitive(x: Scored, y: Scored, z: Scored)
    requires Le(x, y) && Le(y, z)
    ensures Le(x, z)
  {
    if x != y && y != z {
      LtTransitive(x, y, z);
    }
  }

  lemma LeAntisymmetric(x: Scored, y: Scored)
    requires Le(x, y) && Le(y, x)
    ensures x == y
  {
    if x != y {
      LtAsymmetric(x, y);
    }
  }

  /** Lt is the strict part of Le, and Le is total. */
  lemma LeTotal(x: Scored, y: Scored)
    ensures Le(x, y) || Lt(y, x)
    ensures Lt(x, y) <==> Le(x, y) && x != y
  {
    LtTrichotomy(x, y);
    LtIrreflexive(x);
  }

  /** A strict step followed by a weak one stays strict. */
  lemma LtLeTransitive(x: Scored, y: Scored, z: Scored)
    requires Lt(x, y) && Le(y, z)
    ensures Lt(x, z)
  {
    if y != z {
      LtTransitive(x, y, z);
    }
  }

  /** The chaining facts for a strict step, as implications, so that they can
      be stated about tuples of unknown order. */
  lemma LtChain(x: Scored, y: Scored, z: Scored)
    ensures Lt(x, y) && Le(y, z) ==> Lt(x, z)
    ensures Lt(x, y) ==> !Le(y, x)
  {
    if Lt(x, y) {
      LtAsymmetric(x, y);
      LtIrreflexive(x);
      if Le(y, z) {
        LtLeTransitive(x, y, z);
      }
    }
  }

  /** A smaller tuple never has a larger score. */
  lemma LeScore(x: Scored, y: Scored)
    requires Le(x, y)
    ensures x.score <= y.score
  {
  }

  predicate SortedAsc(s: seq<Scored>)
  {
    forall i, j :: 0 <= i < j < |s| ==> Le(s[i], s[j])
  }

  /** Non-increasing under the tuple order. */
  predicate SortedDesc(s: seq<Scored>)
  {
    forall i, j :: 0 <= i < j < |s| ==> Le(s[j], s[i])
  }

  /** Strictly decreasing under the tuple order (so free of duplicates). */
  predicate StrictlyDesc(s: seq<Scored>)
  {
    forall i, j :: 0 <= i < j < |s| ==> Lt(s[j], s[i])
  }

  predicate Distinct<T(==)>(s: seq<T>)
  {
    forall i, j :: 0 <= i < |s| && 0 <= j < |s| && i != j ==> s[i] != s[j]
  }

  /** Python's `list.reverse()`. */
  function Reverse<T>(s: seq<T>): (r: seq<T>)
    ensures |r| == |s|
    ensures forall i :: 0 <= i < |s| ==> r[i] == s[|s| - 1 - i]
    ensures multiset(r) == multiset(s)
  {
    if |s| == 0 then []
    else
      assert s == s[..|s| - 1] + [s[|s| - 1]];
      [s[|s| - 1]] + Reverse(s[..|s| - 1])
  }

  /** Reversing twice gives the list back. */
  lemma ReverseInvolutive<T>(s: seq<T>)
    ensures Reverse(Reverse(s)) == s
  {
  }

  lemma ReverseAscIsDesc(s: seq<Scored>)
    requires SortedAsc(s)
    ensures SortedDesc(Reverse(s))
  {
  }

  /** A non-increasing sequence without repeats is strictly decreasing. */
  lemma DescDistinctIsStrict(s: seq<Scored>)
    requires SortedDesc(s) && Distinct(s)
    ensures StrictlyDesc(s)
  {
    forall i, j | 0 <= i < j < |s|
      ensures Lt(s[j], s[i])
    {
      LeTotal(s[j], s[i]);
    }
  }

  /** A descending arrangement of a multiset is unique: the tuple order is
      antisymmetric, so two non-increasing permutations of each other agree
      position by position. */
  lemma {:induction false} SortedDescUnique(a: seq<Scored>, b: seq<Scored>)
    requires SortedDesc(a) && SortedDesc(b)
    requires multiset(a) == multiset(b)
    ensures a == b
    decreases |a|
  {
    if |a| == 0 {
      assert |multiset(b)| == 0;
    } else {
      assert |b| == |multiset(b)| == |multiset(a)| == |a|;
      assert a[0] in multiset(b);
      var j :| 0 <= j < |b| && b[j] == a[0];
      assert b[0] in multiset(a);
      var i :| 0 <= i < |a| && a[i] == b[0];
      assert Le(b[j], b[0]);
      assert Le(a[i], a[0]);
      LeAntisymmetric(a[0], b[0]);
      assert a == [a[0]] + a[1..];
      assert b == [b[0]] + b[1..];
      assert multiset(a) == multiset{a[0]} + multiset(a[1..]);
      assert multiset(b) == multiset{b[0]} + multiset(b[1..]);
      assert a[0] == b[0];
      calc {
        multiset(a[1..]);
        multiset(a) - multiset{a[0]};
        multiset(b) - multiset{b[0]};
        multiset(b[1..]);
      }
      SortedDescUnique(a[1..], b[1..]);
    }
  }

  /** Two strictly decreasing sequences holding the same elements are equal. */
  lemma {:induction false} StrictlyDescUnique(a: seq<Scored>, b: seq<Scored>)
    requires StrictlyDesc(a) && StrictlyDesc(b)
    requires forall x :: x in a <==> x in b
    ensures a == b
    decreases |a|
  {
    assert |a| == 0 <==> |b| == 0 by {
      if |a| > 0 { assert a[0] in b; }
      if |b| > 0 { assert b[0] in a; }
    }
    if |a| > 0 {
      assert a[0] in b;
      var j :| 0 <= j < |b| && b[j] == a[0];
      assert b[0] in a;
      var i :| 0 <= i < |a| && a[i] == b[0];
      if j > 0 {
        assert Lt(a[0], a[i]);
        if i > 0 {
          LtAsymmetric(a[i], a[0]);
        } else {
          LtIrreflexive(a[0]);
        }
      }
      forall x
        ensures x in a[1..] <==> x in b[1..]
      {
        if x in a[1..] {
          var p :| 1 <= p < |a| && a[p] == x;
          LtIrreflexive(x);
          assert x in b && x != b[0];
        }
        if x in b[1..] {
          var p :| 1 <= p < |b| && b[p] == x;
          LtIrreflexive(x);
          assert x in a && x != a[0];
        }
      }
      StrictlyDescUnique(a[1..], b[1..]);
    }
  }
}
