/** What both selectors share: turning the aggregated dict into
    `(score, id)` pairs, and the reference notion of a correct Top-K
    answer against which each selector is checked. */
module Ranking {
  import opened ScoredOrder
  import opened Aggregation

  /** One `(score, id)` pair per dict entry, in dict order; the score
      formula is a parameter.  Every key contributes exactly one pair, so on
      a dict neither ids nor pairs repeat. */
  function ScoreAll(agg: seq<Entry>, score: Acc -> real): (items: seq<Scored>)
    ensures |items| == |agg|
    ensures forall i :: 0 <= i < |agg| ==> items[i] == Scored(score(agg[i].acc), agg[i].id)
    ensures IdSet(items) == Keys(agg)
    ensures IsDict(agg) ==> DistinctIds(items) && Distinct(items)
  {
    var items := seq(|agg|, i requires 0 <= i < |agg| => Scored(score(agg[i].acc), agg[i].id));
    PairsOfEntries(agg, score, items);
    items
  }

  /** The facts about a pair list built entry by entry from a dict. */
  lemma PairsOfEntries(agg: seq<Entry>, score: Acc -> real, items: seq<Scored>)
    requires |items| == |agg|
    requires forall i :: 0 <= i < |agg| ==> items[i] == Scored(score(agg[i].acc), agg[i].id)
    ensures IdSet(items) == Keys(agg)
    ensures IsDict(agg) ==> DistinctIds(items) && Distinct(items)
  {
    forall id | id in Keys(agg) ensures id in IdSet(items) {
      var e :| e in agg && e.id == id;
      var i :| 0 <= i < |agg| && agg[i] == e;
      assert items[i] in items;
    }
    if IsDict(agg) {
      forall i, j | 0 <= i < |items| && 0 <= j < |items| && i != j
        ensures items[i].id != items[j].id
      {
        if i < j { assert agg[i].id != agg[j].id; } else { assert agg[j].id != agg[i].id; }
      }
    }
  }

  /** No two pairs share an id. */
  predicate DistinctIds(s: seq<Scored>)
  {
    forall i, j :: 0 <= i < j < |s| ==> s[i].id != s[j].id
  }

  /** No two pairs share a score: the case in which ties never arise. */
  predicate DistinctScores(s: seq<Scored>)
  {
    forall i, j :: 0 <= i < j < |s| ==> s[i].score != s[j].score
  }

  /** The ids a ranking mentions. */
  function IdSet(s: seq<Scored>): set<string>
  {
    set x | x in s :: x.id
  }

  /** `t` is a correct answer of size `m` over `items`: strictly descending,
      drawn from `items`, and every pair left out is below every pair kept. */
  predicate IsTopK(items: seq<Scored>, m: nat, t: seq<Scored>)
  {
    && |t| == m
    && StrictlyDesc(t)
    && (forall j :: 0 <= j < |t| ==> t[j] in items)
    && (forall i :: 0 <= i < |items| && items[i] !in t ==> forall j :: 0 <= j < |t| ==> Lt(items[i], t[j]))
  }

  /** A correct answer is unique: two correct answers of the same size agree. */
  lemma TopKUnique(items: seq<Scored>, m: nat, t1: seq<Scored>, t2: seq<Scored>)
    requires IsTopK(items, m, t1) && IsTopK(items, m, t2)
    ensures t1 == t2
  {
    forall x
      ensures x in t1 <==> x in t2
    {
      if x in t1 {
        TopKKeeps(items, m, t1, t2, x);
      }
      if x in t2 {
        TopKKeeps(items, m, t2, t1, x);
      }
    }
    StrictlyDescUnique(t1, t2);
  }

  /** Two correct answers of one size keep the same pairs: were `x` kept by
      `t1` only, `t2` would have to keep some `y` that `t1` drops, and `x`
      and `y` would each be below the other. */
  lemma TopKKeeps(items: seq<Scored>, m: nat, t1: seq<Scored>, t2: seq<Scored>, x: Scored)
    requires IsTopK(items, m, t1) && IsTopK(items, m, t2)
    requires x in t1
    ensures x in t2
  {
    if x !in t2 {
      var s1 := set y | y in t1;
      var s2 := set y | y in t2;
      StrictIsDistinct(t1);
      StrictIsDistinct(t2);
      DistinctCard(t1);
      DistinctCard(t2);
      if s2 <= s1 {
        SubsetCard(s2, s1 - {x});
        assert false;
      }
      var y :| y in s2 && y !in s1;
      var ix :| 0 <= ix < |t1| && t1[ix] == x;
      var iy :| 0 <= iy < |t2| && t2[iy] == y;
      var i :| 0 <= i < |items| && items[i] == x;
      var i' :| 0 <= i' < |items| && items[i'] == y;
      assert Lt(x, t2[iy]);
      LtAsymmetric(x, y);
      assert false;
    }
  }

  lemma StrictIsDistinct(s: seq<Scored>)
    requires StrictlyDesc(s)
    ensures Distinct(s)
  {
    forall i, j | 0 <= i < |s| && 0 <= j < |s| && i != j
      ensures s[i] != s[j]
    {
      if i < j { LtIrreflexive(s[i]); } else { LtIrreflexive(s[j]); }
    }
  }

  /** A duplicate-free sequence has as many distinct elements as entries. */
  lemma {:induction false} DistinctCard<T>(s: seq<T>)
    requires Distinct(s)
    ensures |set x | x in s| == |s|
  {
    if |s| > 0 {
      var t := s[1..];
      assert Distinct(t) by {
        forall i, j | 0 <= i < |t| && 0 <= j < |t| && i != j
          ensures t[i] != t[j]
        {
          assert t[i] == s[i + 1] && t[j] == s[j + 1];
        }
      }
      DistinctCard(t);
      assert (set x | x in s) == (set x | x in t) + {s[0]};
      assert s[0] !in (set x | x in t);
    }
  }

  lemma {:induction false} SubsetCard<T>(a: set<T>, b: set<T>)
    requires a <= b
    ensures |a| <= |b|
    decreases |a|
  {
    if a != {} {
      var x :| x in a;
      SubsetCard(a - {x}, b - {x});
    }
  }

  /** In a duplicate-free sequence every element occurs once. */
  lemma {:induction false} DistinctOnce<T>(s: seq<T>, x: T)
    requires Distinct(s)
    ensures multiset(s)[x] <= 1
  {
    if |s| > 0 {
      var t := s[1..];
      assert s == [s[0]] + t;
      assert Distinct(t) by {
        forall i, j | 0 <= i < |t| && 0 <= j < |t| && i != j
          ensures t[i] != t[j]
        {
          assert t[i] == s[i + 1] && t[j] == s[j + 1];
        }
      }
      DistinctOnce(t, x);
      if x == s[0] {
        assert x !in t;
      }
    }
  }

  /** A sub-multiset of a duplicate-free sequence is itself duplicate-free. */
  lemma SubMultisetDistinct<T>(r: seq<T>, s: seq<T>)
    requires Distinct(s)
    requires multiset(r) <= multiset(s)
    ensures Distinct(r)
  {
    forall i, j | 0 <= i < |r| && 0 <= j < |r| && i != j
      ensures r[i] != r[j]
    {
      if r[i] == r[j] {
        var lo := if i < j then i else j;
        var hi := if i < j then j else i;
        assert r == r[..hi] + r[hi..];
        assert r[lo] in r[..hi];
        assert r[hi] in r[hi..];
        assert multiset(r)[r[i]] >= 2;
        DistinctOnce(s, r[i]);
        assert false;
      }
    }
  }

  /** A sub-multiset of pairs with distinct ids has distinct ids. */
  lemma SubMultisetDistinctIds(r: seq<Scored>, s: seq<Scored>)
    requires DistinctIds(s) && Distinct(s)
    requires multiset(r) <= multiset(s)
    ensures DistinctIds(r)
  {
    SubMultisetDistinct(r, s);
    forall i, j | 0 <= i < j < |r|
      ensures r[i].id != r[j].id
    {
      assert r[i] in multiset(s) && r[j] in multiset(s);
      var a :| 0 <= a < |s| && s[a] == r[i];
      var b :| 0 <= b < |s| && s[b] == r[j];
      assert a != b;
      if a < b { assert s[a].id != s[b].id; } else { assert s[b].id != s[a].id; }
    }
  }

  /** Each pair drawn from the scored dict carries its own entry's score. */
  lemma ScoredFromDict(agg: seq<Entry>, score: Acc -> real, r: seq<Scored>)
    requires forall x :: x in r ==> x in ScoreAll(agg, score)
    ensures IdSet(r) <= Keys(agg)
    ensures forall x :: x in r ==> exists e :: e in agg && e.id == x.id && x.score == score(e.acc)
  {
    var items := ScoreAll(agg, score);
    forall x | x in r
      ensures x.id in Keys(agg)
      ensures exists e :: e in agg && e.id == x.id && x.score == score(e.acc)
    {
      var i :| 0 <= i < |items| && items[i] == x;
      assert agg[i] in agg;
    }
  }

  /** A correct answer draws each pair from the candidates once, and an
      excluded candidate scores no higher than any kept pair. */
  lemma TopKMultiset(items: seq<Scored>, t: seq<Scored>)
    requires IsTopK(items, |t|, t)
    ensures multiset(t) <= multiset(items)
    ensures forall i :: 0 <= i < |items| && items[i] !in t ==>
      forall j :: 0 <= j < |t| ==> items[i].score <= t[j].score
  {
    StrictIsDistinct(t);
    forall x
      ensures multiset(t)[x] <= multiset(items)[x]
    {
      DistinctOnce(t, x);
      if x in t {
        assert x in items;
      }
    }
  }

  /** The answer restated over event ids: each pair carries an event id and
      the score of that id's aggregate, and an id left out of the answer
      scores no higher than any id in it. */
  lemma AnswerOverEvents(events: seq<Event>, agg: seq<Entry>, score: Acc -> real, out: seq<Scored>)
    requires Keys(agg) == EventIds(events)
    requires forall e :: e in agg ==> e.acc.count == CountOf(events, e.id) >= 1
    requires forall e :: e in agg ==> e.acc.sum == SumOf(events, e.id)
    requires multiset(out) <= multiset(ScoreAll(agg, score))
    requires var items := ScoreAll(agg, score);
      forall i :: 0 <= i < |items| && items[i] !in out ==>
        forall j :: 0 <= j < |out| ==> items[i].score <= out[j].score
    ensures IdSet(out) <= EventIds(events)
    ensures forall x :: x in out ==>
      x.score == score(Acc(SumOf(events, x.id), CountOf(events, x.id)))
    ensures forall id :: id in EventIds(events) && id !in IdSet(out) ==>
      forall j :: 0 <= j < |out| ==>
        score(Acc(SumOf(events, id), CountOf(events, id))) <= out[j].score
  {
    var items := ScoreAll(agg, score);
    forall x | x in out
      ensures x in items
    {
      assert x in multiset(out);
    }
    ScoredFromDict(agg, score, out);
    forall x | x in out
      ensures x.score == score(Acc(SumOf(events, x.id), CountOf(events, x.id)))
    {
      var e :| e in agg && e.id == x.id && x.score == score(e.acc);
      assert e.acc == Acc(SumOf(events, x.id), CountOf(events, x.id));
    }
    forall id | id in EventIds(events) && id !in IdSet(out)
      ensures forall j :: 0 <= j < |out| ==>
        score(Acc(SumOf(events, id), CountOf(events, id))) <= out[j].score
    {
      var i :| 0 <= i < |agg| && agg[i].id == id;
      assert agg[i] in agg;
      assert agg[i].acc == Acc(SumOf(events, id), CountOf(events, id));
      assert items[i] !in out;
    }
  }
}
