/** The aggregation fold shared by both selectors: a stream of rating events
    becomes a dict from item id to `[sum_ratings, count]`.

    Python dicts iterate in insertion order, and that order decides which of
    several equally scored items the bounded selector keeps, so the dict is
    modelled as a sequence of entries with pairwise distinct ids, in the
    order the ids were first seen. */
module Aggregation {
  import opened Prelude

  /** One review record: its `parent_asin` and its `rating`. */
  datatype Event = Event(id: string, rating: real)

  /** The accumulator `[sum_ratings, count]` of one item. */
  datatype Acc = Acc(sum: real, count: nat)

  /** One key/value pair of the aggregated dict. */
  datatype Entry = Entry(id: string, acc: Acc)

  /** A dict in insertion order: no id occurs twice. */
  predicate IsDict(d: seq<Entry>)
  {
    forall i, j :: 0 <= i < j < |d| ==> d[i].id != d[j].id
  }

  function Keys(d: seq<Entry>): set<string>
  {
    set e | e in d :: e.id
  }

  // ---------------------------------------------------------------------
  // Reference definitions, written independently of the fold
  // ---------------------------------------------------------------------

  function EventIds(events: seq<Event>): set<string>
  {
    set e | e in events :: e.id
  }

  function IdsOf(events: seq<Event>): (ids: seq<string>)
    ensures |ids| == |events|
    ensures forall i :: 0 <= i < |events| ==> ids[i] == events[i].id
  {
    seq(|events|, i requires 0 <= i < |events| => events[i].id)
  }

  /** How many events name `id`. */
  function CountOf(events: seq<Event>, id: string): nat
  {
    multiset(IdsOf(events))[id]
  }

  /** The total rating of the events that name `id`, summed front to back. */
  function SumOf(events: seq<Event>, id: string): real
    decreases |events|
  {
    if |events| == 0 then 0.0
    else (if events[0].id == id then events[0].rating else 0.0) + SumOf(events[1..], id)
  }

  /** The position of the first event naming `id`, or `|events|` if none does. */
  function FirstIndex(events: seq<Event>, id: string): (r: nat)
    ensures r <= |events|
    ensures r < |events| <==> id in EventIds(events)
    ensures r < |events| ==> events[r].id == id
    ensures forall i :: 0 <= i < r ==> events[i].id != id
    decreases |events|
  {
    if |events| == 0 then 0
    else if events[0].id == id then 0
    else
      assert forall e :: e in events[1..] ==> e in events;
      assert id in EventIds(events) ==> id in EventIds(events[1..]) by {
        if id in EventIds(events) {
          var e :| e in events && e.id == id;
          var k :| 0 <= k < |events| && events[k] == e;
          assert events[1..][k - 1] == e;
        }
      }
      1 + FirstIndex(events[1..], id)
  }

  lemma CountOfAppend(events: seq<Event>, ev: Event, id: string)
    ensures CountOf(events + [ev], id) == CountOf(events, id) + (if ev.id == id then 1 else 0)
  {
    assert IdsOf(events + [ev]) == IdsOf(events) + [ev.id];
  }

  lemma CountOfPositive(events: seq<Event>, id: string)
    ensures CountOf(events, id) > 0 <==> id in EventIds(events)
  {
    if id in EventIds(events) {
      var e :| e in events && e.id == id;
      var k :| 0 <= k < |events| && events[k] == e;
      assert IdsOf(events)[k] == id;
    }
    if CountOf(events, id) > 0 {
      assert id in IdsOf(events);
      var k :| 0 <= k < |events| && IdsOf(events)[k] == id;
      assert events[k] in events;
    }
  }

  lemma {:induction false} SumOfAppend(events: seq<Event>, ev: Event, id: string)
    ensures SumOf(events + [ev], id) == SumOf(events, id) + (if ev.id == id then ev.rating else 0.0)
    decreases |events|
  {
    if |events| > 0 {
      assert (events + [ev])[1..] == events[1..] + [ev];
      SumOfAppend(events[1..], ev, id);
    }
  }

  lemma FirstIndexAppend(events: seq<Event>, ev: Event, id: string)
    ensures id in EventIds(events) ==> FirstIndex(events + [ev], id) == FirstIndex(events, id)
    ensures id !in EventIds(events) && ev.id == id ==> FirstIndex(events + [ev], id) == |events|
  {
    var es := events + [ev];
    var f := FirstIndex(es, id);
    var g := FirstIndex(events, id);
    if id in EventIds(events) {
      assert es[g] == events[g];
      assert forall i :: 0 <= i < g ==> es[i] == events[i];
    } else if ev.id == id {
      assert es[|events|] == ev;
      assert id in EventIds(es);
      assert forall i :: 0 <= i < |events| ==> es[i] == events[i] && es[i] in events;
    }
  }

  // ---------------------------------------------------------------------
  // The fold
  // ---------------------------------------------------------------------

  /** The position of `id` in the dict, if it is a key. */
  function Find(d: seq<Entry>, id: string): (r: Option<nat>)
    ensures r.None? <==> id !in Keys(d)
    ensures r.Some? ==> r.value < |d| && d[r.value].id == id
    decreases |d|
  {
    if |d| == 0 then None
    else if d[|d| - 1].id == id then Some(|d| - 1)
    else
      assert forall e :: e in d ==> e in d[..|d| - 1] || e == d[|d| - 1];
      match Find(d[..|d| - 1], id)
      case None => None
      case Some(p) => Some(p)
  }

  /** One step of the fold: a known id gets the rating added and its count
      bumped; an unseen id is appended with `[rating, 1]`. */
  function Accumulate(d: seq<Entry>, ev: Event): (r: seq<Entry>)
    ensures Keys(r) == Keys(d) + {ev.id}
    ensures |r| == if ev.id in Keys(d) then |d| else |d| + 1
    ensures forall i :: 0 <= i < |d| && d[i].id != ev.id ==> r[i] == d[i]
    ensures IsDict(d) ==> forall i :: 0 <= i < |d| && d[i].id == ev.id ==>
      r[i] == Entry(ev.id, Acc(d[i].acc.sum + ev.rating, d[i].acc.count + 1))
    ensures ev.id !in Keys(d) ==> r[|d|] == Entry(ev.id, Acc(ev.rating, 1))
    ensures IsDict(d) ==> IsDict(r)
  {
    match Find(d, ev.id)
    case Some(p) => KeysUpdate(d, p, Bumped(d[p], ev)); d[p := Bumped(d[p], ev)]
    case None => d + [Entry(ev.id, Acc(ev.rating, 1))]
  }

  /** Overwriting an entry with one of the same id leaves the keys alone. */
  lemma KeysUpdate(d: seq<Entry>, p: nat, e: Entry)
    requires p < |d| && e.id == d[p].id
    ensures Keys(d[p := e]) == Keys(d)
  {
    var r := d[p := e];
    forall k | k in Keys(d)
      ensures k in Keys(r)
    {
      var i :| 0 <= i < |d| && d[i].id == k;
      assert r[i].id == k;
    }
    forall k | k in Keys(r)
      ensures k in Keys(d)
    {
      var i :| 0 <= i < |r| && r[i].id == k;
      assert d[i].id == k;
    }
  }

  /** `d` is what the fold yields for `events`. */
  predicate Summarizes(d: seq<Entry>, events: seq<Event>)
  {
    && IsDict(d)
    && Keys(d) == EventIds(events)
    && (forall e :: e in d ==> e.acc.count == CountOf(events, e.id) >= 1 && e.acc.sum == SumOf(events, e.id))
    && (forall i, j :: 0 <= i < j < |d| ==> FirstIndex(events, d[i].id) < FirstIndex(events, d[j].id))
  }

  /** How the reference definitions change when one event is appended. */
  lemma AppendFacts(events: seq<Event>, ev: Event, id: string)
    ensures CountOf(events + [ev], id) == CountOf(events, id) + (if ev.id == id then 1 else 0)
    ensures SumOf(events + [ev], id) == SumOf(events, id) + (if ev.id == id then ev.rating else 0.0)
    ensures id in EventIds(events) ==> FirstIndex(events + [ev], id) == FirstIndex(events, id)
    ensures id !in EventIds(events) && ev.id == id ==> FirstIndex(events + [ev], id) == |events|
  {
    CountOfAppend(events, ev, id);
    SumOfAppend(events, ev, id);
    FirstIndexAppend(events, ev, id);
  }

  lemma AccumulateStep(d: seq<Entry>, events: seq<Event>, ev: Event)
    requires Summarizes(d, events)
    ensures Summarizes(Accumulate(d, ev), events + [ev])
  {
    match Find(d, ev.id)
    case Some(p) => AccumulateKnown(d, events, ev, p);
    case None => AccumulateNew(d, events, ev);
  }

  /** The updated entry of a known id. */
  function Bumped(e: Entry, ev: Event): Entry
  {
    Entry(e.id, Acc(e.acc.sum + ev.rating, e.acc.count + 1))
  }

  /** The step for an id already in the dict. */
  lemma AccumulateKnown(d: seq<Entry>, events: seq<Event>, ev: Event, p: nat)
    requires Summarizes(d, events)
    requires p < |d| && d[p].id == ev.id
    ensures Summarizes(d[p := Bumped(d[p], ev)], events + [ev])
  {
    KnownKeys(d, events, ev, p);
    KnownEntries(d, events, ev, p);
    KnownOrder(d, events, ev, p);
  }

  lemma KnownKeys(d: seq<Entry>, events: seq<Event>, ev: Event, p: nat)
    requires Keys(d) == EventIds(events)
    requires p < |d| && d[p].id == ev.id
    ensures Keys(d[p := Bumped(d[p], ev)]) == EventIds(events + [ev])
  {
    var r := d[p := Bumped(d[p], ev)];
    assert d[p] in d;
    assert EventIds(events + [ev]) == EventIds(events) + {ev.id};
    forall x
      ensures x in Keys(r) <==> x in Keys(d)
    {
      if x in Keys(r) {
        var e :| e in r && e.id == x;
        var k :| 0 <= k < |r| && r[k] == e;
        assert d[k] in d;
      }
      if x in Keys(d) {
        var e :| e in d && e.id == x;
        var k :| 0 <= k < |d| && d[k] == e;
        assert r[k] in r;
      }
    }
  }

  lemma KnownEntries(d: seq<Entry>, events: seq<Event>, ev: Event, p: nat)
    requires IsDict(d)
    requires forall e :: e in d ==> e.acc.count == CountOf(events, e.id) >= 1 && e.acc.sum == SumOf(events, e.id)
    requires p < |d| && d[p].id == ev.id
    ensures forall e :: e in d[p := Bumped(d[p], ev)] ==>
      e.acc.count == CountOf(events + [ev], e.id) >= 1 && e.acc.sum == SumOf(events + [ev], e.id)
  {
    var r := d[p := Bumped(d[p], ev)];
    forall e | e in r
      ensures e.acc.count == CountOf(events + [ev], e.id) >= 1 && e.acc.sum == SumOf(events + [ev], e.id)
    {
      var k :| 0 <= k < |r| && r[k] == e;
      AppendFacts(events, ev, e.id);
      assert d[k] in d;
    }
  }

  lemma KnownOrder(d: seq<Entry>, events: seq<Event>, ev: Event, p: nat)
    requires Keys(d) == EventIds(events)
    requires forall i, j :: 0 <= i < j < |d| ==> FirstIndex(events, d[i].id) < FirstIndex(events, d[j].id)
    requires p < |d| && d[p].id == ev.id
    ensures var r := d[p := Bumped(d[p], ev)];
      forall i, j :: 0 <= i < j < |r| ==> FirstIndex(events + [ev], r[i].id) < FirstIndex(events + [ev], r[j].id)
  {
    var r := d[p := Bumped(d[p], ev)];
    forall i, j | 0 <= i < j < |r|
      ensures FirstIndex(events + [ev], r[i].id) < FirstIndex(events + [ev], r[j].id)
    {
      assert r[i].id == d[i].id && r[j].id == d[j].id;
      assert d[i] in d && d[j] in d;
      AppendFacts(events, ev, d[i].id);
      AppendFacts(events, ev, d[j].id);
    }
  }

  /** The step for an id not yet in the dict. */
  lemma AccumulateNew(d: seq<Entry>, events: seq<Event>, ev: Event)
    requires Summarizes(d, events)
    requires ev.id !in Keys(d)
    ensures Summarizes(d + [Entry(ev.id, Acc(ev.rating, 1))], events + [ev])
  {
    var r := d + [Entry(ev.id, Acc(ev.rating, 1))];
    assert IsDict(r);
    assert Keys(r) == EventIds(events + [ev]) by {
      assert EventIds(events + [ev]) == EventIds(events) + {ev.id};
      assert Keys(r) == Keys(d) + {ev.id};
    }
    NewEntries(d, events, ev);
    NewOrder(d, events, ev);
  }

  lemma NewEntries(d: seq<Entry>, events: seq<Event>, ev: Event)
    requires Keys(d) == EventIds(events)
    requires forall e :: e in d ==> e.acc.count == CountOf(events, e.id) >= 1 && e.acc.sum == SumOf(events, e.id)
    requires ev.id !in Keys(d)
    ensures forall e :: e in d + [Entry(ev.id, Acc(ev.rating, 1))] ==>
      e.acc.count == CountOf(events + [ev], e.id) >= 1 && e.acc.sum == SumOf(events + [ev], e.id)
  {
    var added := Entry(ev.id, Acc(ev.rating, 1));
    forall e | e in d + [added]
      ensures e.acc.count == CountOf(events + [ev], e.id) >= 1 && e.acc.sum == SumOf(events + [ev], e.id)
    {
      AppendFacts(events, ev, e.id);
      if e != added {
        assert e in d;
        assert e.id in Keys(d);
      } else {
        CountOfPositive(events, ev.id);
        SumOfAbsent(events, ev.id);
      }
    }
  }

  lemma NewOrder(d: seq<Entry>, events: seq<Event>, ev: Event)
    requires Keys(d) == EventIds(events)
    requires forall i, j :: 0 <= i < j < |d| ==> FirstIndex(events, d[i].id) < FirstIndex(events, d[j].id)
    requires ev.id !in Keys(d)
    ensures var r := d + [Entry(ev.id, Acc(ev.rating, 1))];
      forall i, j :: 0 <= i < j < |r| ==> FirstIndex(events + [ev], r[i].id) < FirstIndex(events + [ev], r[j].id)
  {
    var r := d + [Entry(ev.id, Acc(ev.rating, 1))];
    forall i, j | 0 <= i < j < |r|
      ensures FirstIndex(events + [ev], r[i].id) < FirstIndex(events + [ev], r[j].id)
    {
      assert d[i] in d;
      AppendFacts(events, ev, d[i].id);
      if j < |d| {
        assert d[j] in d;
        AppendFacts(events, ev, d[j].id);
      } else {
        AppendFacts(events, ev, ev.id);
      }
    }
  }

  lemma {:induction false} SumOfAbsent(events: seq<Event>, id: string)
    requires id !in EventIds(events)
    ensures SumOf(events, id) == 0.0
    decreases |events|
  {
    if |events| > 0 {
      assert events[0] in events;
      assert forall e :: e in events[1..] ==> e in events;
      SumOfAbsent(events[1..], id);
    }
  }

  /** The aggregation fold: one entry per distinct id, in first-seen order,
      whose count is the number of events naming it and whose sum is the
      total of their ratings. */
  function Aggregate(events: seq<Event>): (d: seq<Entry>)
    ensures IsDict(d)
    ensures Keys(d) == EventIds(events)
    ensures forall e :: e in d ==> e.acc.count == CountOf(events, e.id) >= 1
    ensures forall e :: e in d ==> e.acc.sum == SumOf(events, e.id)
    ensures forall i, j :: 0 <= i < j < |d| ==> FirstIndex(events, d[i].id) < FirstIndex(events, d[j].id)
    decreases |events|
  {
    if |events| == 0 then []
    else
      var prev := events[..|events| - 1];
      var ev := events[|events| - 1];
      assert events == prev + [ev];
      AccumulateStep(Aggregate(prev), prev, ev);
      Accumulate(Aggregate(prev), ev)
  }

  /** A dict has as many keys as entries. */
  lemma {:induction false} DictSize(d: seq<Entry>)
    requires IsDict(d)
    ensures |Keys(d)| == |d|
    decreases |d|
  {
    if |d| > 0 {
      var t := d[1..];
      assert IsDict(t) by {
        forall i, j | 0 <= i < j < |t| ensures t[i].id != t[j].id {
          assert t[i] == d[i + 1] && t[j] == d[j + 1];
        }
      }
      DictSize(t);
      assert Keys(d) == Keys(t) + {d[0].id} by {
        assert d == [d[0]] + t;
      }
      assert d[0].id !in Keys(t);
    }
  }

  /** The fold yields one entry per distinct id of the stream. */
  lemma AggregateSize(events: seq<Event>)
    ensures |Aggregate(events)| == |EventIds(events)|
  {
    DictSize(Aggregate(events));
  }
}
