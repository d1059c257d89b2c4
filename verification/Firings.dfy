/** Scheduled releases and the clock that fires them (scheduler/calendar.py:101-139). */
module Firings {
  import Combinatorics
  import opened Contracts
  import opened StableSort

  /** next(t) is the first time after t at which the event's cron expression is due. */
  datatype Event = Event(id: string, next: int -> int)

  datatype Firing = Firing(event: Event, ts: int)
  {
    function Key(): (string, int) { (event.id, ts) }
  }

  ghost predicate Cron(next: int -> int) {
    && (forall t :: next(t) > t)
    && forall t, u :: t <= u < next(t) ==> next(u) == next(t)
  }

  ghost predicate Crons(events: seq<Event>) {
    forall i :: 0 <= i < |events| ==> Cron(events[i].next)
  }

  function Timestamp(f: Firing): int { f.ts }

  /** The times of one event in (a, b]. */
  function EventFirings(e: Event, a: int, b: int): seq<Firing>
    requires Cron(e.next)
    decreases b - a
  {
    if a < b && e.next(a) <= b then [Firing(e, e.next(a))] + EventFirings(e, e.next(a), b) else []
  }

  function Collected(events: seq<Event>, a: int, b: int): seq<Firing>
    requires Crons(events)
  {
    if events == [] then []
    else Collected(events[..|events| - 1], a, b) + EventFirings(events[|events| - 1], a, b)
  }

  /** All firings in (a, b], ascending in time; simultaneous ones in the order of the calendar. */
  function Between(events: seq<Event>, a: int, b: int): seq<Firing>
    requires Crons(events)
  {
    SortBy(Timestamp, Collected(events, a, b))
  }

  /** The event is due at t. */
  predicate Due(e: Event, t: int) {
    e.next(t - 1) == t
  }

  lemma {:induction false} EventFiringsExact(e: Event, a: int, b: int)
    requires Cron(e.next)
    ensures forall f :: f in EventFirings(e, a, b) <==> f.event == e && a < f.ts <= b && Due(e, f.ts)
    decreases b - a
  {
    if a < b && e.next(a) <= b {
      var t := e.next(a);
      EventFiringsExact(e, t, b);
      assert e.next(t - 1) == t;
      forall f: Firing | f.event == e && a < f.ts <= b && Due(e, f.ts) ensures f.ts >= t {
        assert f.ts - 1 < t ==> e.next(f.ts - 1) == t;
      }
    } else {
      forall t | a < t <= b ensures !Due(e, t) { assert e.next(t - 1) == e.next(a); }
    }
  }

  lemma {:induction false} EventFiringsSplit(e: Event, a: int, b: int, c: int)
    requires Cron(e.next) && a <= b <= c
    ensures EventFirings(e, a, c) == EventFirings(e, a, b) + EventFirings(e, b, c)
    decreases b - a
  {
    if a == b {
    } else if e.next(a) <= b {
      EventFiringsSplit(e, e.next(a), b, c);
    } else {
      assert e.next(b) == e.next(a);
    }
  }

  /** The events are asked in the order of the calendar. */
  lemma {:induction false} CollectedInOrder(events: seq<Event>, more: seq<Event>, a: int, b: int)
    requires Crons(events) && Crons(more) && Crons(events + more)
    ensures Collected(events + more, a, b) == Collected(events, a, b) + Collected(more, a, b)
  {
    if more == [] {
      assert events + more == events;
    } else {
      var front, e := more[..|more| - 1], more[|more| - 1];
      assert events + more == events + front + [e] && more == front + [e];
      CollectedInOrder(events, front, a, b);
      LastAsked(events + front, e, a, b);
      LastAsked(front, e, a, b);
      Combinatorics.Associates(Collected(events, a, b), Collected(front, a, b), EventFirings(e, a, b));
    }
  }

  lemma LastAsked(events: seq<Event>, e: Event, a: int, b: int)
    requires Crons(events) && Cron(e.next) && Crons(events + [e])
    ensures Collected(events + [e], a, b) == Collected(events, a, b) + EventFirings(e, a, b)
  {
    assert (events + [e])[..|events|] == events;
  }

  /** What fires in a window: exactly the releases due in it. */
  lemma {:induction false} CollectedExact(events: seq<Event>, a: int, b: int)
    requires Crons(events)
    ensures forall f :: f in Collected(events, a, b) <==> f.event in events && a < f.ts <= b && Due(f.event, f.ts)
  {
    if events != [] {
      var front, e := events[..|events| - 1], events[|events| - 1];
      CollectedExact(front, a, b);
      EventFiringsExact(e, a, b);
      assert events == front + [e];
    }
  }

  /** firings_between returns exactly the releases due in (a, b], in time order. */
  lemma BetweenExact(events: seq<Event>, a: int, b: int)
    requires Crons(events)
    ensures forall f :: f in Between(events, a, b) <==> f.event in events && a < f.ts <= b && Due(f.event, f.ts)
    ensures SortedBy(Timestamp, Between(events, a, b))
  {
    CollectedExact(events, a, b);
    SortContents(Timestamp, Collected(events, a, b));
    SortSorted(Timestamp, Collected(events, a, b));
    forall f ensures f in Between(events, a, b) <==> f in Collected(events, a, b) {
      assert f in Between(events, a, b) <==> f in multiset(Between(events, a, b));
      assert f in Collected(events, a, b) <==> f in multiset(Collected(events, a, b));
    }
  }

  lemma EventRuns(e: Event, a: int, b: int, c: int, k: int)
    requires Cron(e.next) && a <= b <= c
    ensures WithKey(Timestamp, EventFirings(e, a, c), k)
         == WithKey(Timestamp, if k <= b then EventFirings(e, a, b) else EventFirings(e, b, c), k)
  {
    EventFiringsSplit(e, a, b, c);
    WithKeyAppend(Timestamp, EventFirings(e, a, b), EventFirings(e, b, c), k);
    if k <= b {
      EventFiringsExact(e, b, c);
      WithKeyNone(Timestamp, EventFirings(e, b, c), k);
    } else {
      EventFiringsExact(e, a, b);
      WithKeyNone(Timestamp, EventFirings(e, a, b), k);
    }
  }

  lemma {:induction false} CollectedRuns(events: seq<Event>, a: int, b: int, c: int, k: int)
    requires Crons(events) && a <= b <= c
    ensures WithKey(Timestamp, Collected(events, a, c), k)
         == WithKey(Timestamp, if k <= b then Collected(events, a, b) else Collected(events, b, c), k)
  {
    if events != [] {
      var front, e := events[..|events| - 1], events[|events| - 1];
      CollectedRuns(front, a, b, c, k);
      EventRuns(e, a, b, c, k);
      var lo, hi := if k <= b then a else b, if k <= b then b else c;
      WithKeyAppend(Timestamp, Collected(front, a, c), EventFirings(e, a, c), k);
      WithKeyAppend(Timestamp, Collected(front, lo, hi), EventFirings(e, lo, hi), k);
    }
  }

  lemma SplitRuns(events: seq<Event>, a: int, b: int, c: int, k: int)
    requires Crons(events) && a <= b <= c
    ensures WithKey(Timestamp, Between(events, a, c), k)
         == WithKey(Timestamp, Between(events, a, b) + Between(events, b, c), k)
  {
    WithKeyAppend(Timestamp, Between(events, a, b), Between(events, b, c), k);
    SortStable(Timestamp, Collected(events, a, b), k);
    SortStable(Timestamp, Collected(events, b, c), k);
    SortStable(Timestamp, Collected(events, a, c), k);
    CollectedExact(events, a, b);
    CollectedExact(events, b, c);
    CollectedRuns(events, a, b, c, k);
    if k <= b {
      WithKeyNone(Timestamp, Collected(events, b, c), k);
    } else {
      WithKeyNone(Timestamp, Collected(events, a, b), k);
    }
  }

  /** Adjacent windows concatenate, simultaneous releases included. */
  lemma BetweenSplit(events: seq<Event>, a: int, b: int, c: int)
    requires Crons(events) && a <= b <= c
    ensures Between(events, a, c) == Between(events, a, b) + Between(events, b, c)
  {
    var xs, ys := Between(events, a, b), Between(events, b, c);
    BetweenExact(events, a, b);
    BetweenExact(events, b, c);
    BetweenExact(events, a, c);
    forall i, j | 0 <= i < j < |xs + ys| ensures Timestamp((xs + ys)[i]) <= Timestamp((xs + ys)[j]) {
      if i < |xs| { assert xs[i] in xs; }
      if j >= |xs| { assert ys[j - |xs|] in ys; }
    }
    forall k ensures WithKey(Timestamp, Between(events, a, c), k) == WithKey(Timestamp, xs + ys, k) {
      SplitRuns(events, a, b, c, k);
    }
    SortedUnique(Timestamp, Between(events, a, c), xs + ys);
  }

  lemma CountAppend<T>(xs: seq<T>, ys: seq<T>, x: T)
    ensures multiset(xs + ys)[x] == multiset(xs)[x] + multiset(ys)[x]
  {
  }

  /** Within one event no time is listed twice. */
  lemma {:induction false} EventFiringsOnce(e: Event, a: int, b: int, f: Firing)
    requires Cron(e.next)
    ensures multiset(EventFirings(e, a, b))[f] == if f.event == e && a < f.ts <= b && Due(e, f.ts) then 1 else 0
    decreases b - a
  {
    EventFiringsExact(e, a, b);
    if a < b && e.next(a) <= b {
      var t := e.next(a);
      EventFiringsOnce(e, t, b, f);
      CountAppend([Firing(e, t)], EventFirings(e, t, b), f);
    }
    assert f in EventFirings(e, a, b) <==> f in multiset(EventFirings(e, a, b));
  }

  /** A release due in the window is listed once for every entry of its event in the calendar. */
  lemma {:induction false} CollectedCount(events: seq<Event>, a: int, b: int, f: Firing)
    requires Crons(events)
    ensures multiset(Collected(events, a, b))[f] ==
            if a < f.ts <= b && Due(f.event, f.ts) then multiset(events)[f.event] else 0
  {
    if events != [] {
      var front, e := events[..|events| - 1], events[|events| - 1];
      CollectedCount(front, a, b, f);
      EventFiringsOnce(e, a, b, f);
      CountAppend(Collected(front, a, b), EventFirings(e, a, b), f);
      LastCount(events, f.event);
    }
  }

  lemma LastCount<T>(xs: seq<T>, x: T)
    requires xs != []
    ensures multiset(xs)[x] == multiset(xs[..|xs| - 1])[x] + if x == xs[|xs| - 1] then 1 else 0
  {
    assert xs == xs[..|xs| - 1] + [xs[|xs| - 1]];
    CountAppend(xs[..|xs| - 1], [xs[|xs| - 1]], x);
  }

  lemma BetweenCount(events: seq<Event>, a: int, b: int, f: Firing)
    requires Crons(events)
    ensures multiset(Between(events, a, b))[f] ==
            if a < f.ts <= b && Due(f.event, f.ts) then multiset(events)[f.event] else 0
  {
    CollectedCount(events, a, b, f);
    SortContents(Timestamp, Collected(events, a, b));
  }

  // ----- each key fires once

  ghost function Keys(fs: seq<Firing>): set<(string, int)> {
    set i | 0 <= i < |fs| :: fs[i].Key()
  }

  /** The firings whose key is neither among the given ones nor repeated. */
  ghost function Fresh(fired: set<(string, int)>, fs: seq<Firing>): seq<Firing>
  {
    if fs == [] then []
    else
      var front, f := fs[..|fs| - 1], fs[|fs| - 1];
      Fresh(fired, front) + if f.Key() in fired + Keys(front) then [] else [f]
  }

  lemma KeysAppend(xs: seq<Firing>, ys: seq<Firing>)
    ensures Keys(xs + ys) == Keys(xs) + Keys(ys)
  {
    forall k | k in Keys(xs) + Keys(ys) ensures k in Keys(xs + ys) {
      if k in Keys(xs) {
        var i :| 0 <= i < |xs| && xs[i].Key() == k;
        assert (xs + ys)[i].Key() == k;
      } else {
        var i :| 0 <= i < |ys| && ys[i].Key() == k;
        assert (xs + ys)[|xs| + i].Key() == k;
      }
    }
  }

  lemma {:induction false} FreshAppend(fired: set<(string, int)>, xs: seq<Firing>, ys: seq<Firing>)
    ensures Fresh(fired, xs + ys) == Fresh(fired, xs) + Fresh(fired + Keys(xs), ys)
  {
    if ys == [] {
      assert xs + ys == xs;
    } else {
      var front, f := ys[..|ys| - 1], ys[|ys| - 1];
      FreshAppend(fired, xs, front);
      assert (xs + ys)[..|xs + ys| - 1] == xs + front;
      KeysAppend(xs, front);
      assert fired + Keys(xs + front) == fired + Keys(xs) + Keys(front);
    }
  }

  /** One firing more of the loop that drops the keys already fired. */
  lemma FreshStep(fired: set<(string, int)>, fs: seq<Firing>, i: nat)
    requires i < |fs|
    ensures Keys(fs[..i + 1]) == Keys(fs[..i]) + {fs[i].Key()}
    ensures Fresh(fired, fs[..i + 1])
         == Fresh(fired, fs[..i]) + if fs[i].Key() in fired + Keys(fs[..i]) then [] else [fs[i]]
  {
    assert fs[..i + 1] == fs[..i] + [fs[i]] && fs[..i + 1][..i] == fs[..i];
    KeysAppend(fs[..i], [fs[i]]);
    assert Keys([fs[i]]) == {fs[i].Key()} by { assert [fs[i]][0].Key() in Keys([fs[i]]); }
  }

  /** Fresh firings have pairwise different keys, none of them old, and no due key is lost. */
  lemma {:induction false} FreshExact(fired: set<(string, int)>, fs: seq<Firing>)
    ensures Keys(Fresh(fired, fs)) == Keys(fs) - fired
    ensures forall i, j :: 0 <= i < j < |Fresh(fired, fs)| ==> Fresh(fired, fs)[i].Key() != Fresh(fired, fs)[j].Key()
    ensures forall f :: f in Fresh(fired, fs) ==> f in fs
  {
    if fs != [] {
      var front, f := fs[..|fs| - 1], fs[|fs| - 1];
      FreshExact(fired, front);
      assert fs == front + [f];
      KeysAppend(front, [f]);
      assert Keys([f]) == {f.Key()} by { assert [f][0].Key() in Keys([f]); }
      var kept := Fresh(fired, front);
      KeysAppend(kept, [f]);
      if f.Key() in fired + Keys(front) {
        assert Fresh(fired, fs) == kept;
      } else {
        assert Fresh(fired, fs) == kept + [f];
        forall i | 0 <= i < |kept| ensures kept[i].Key() != f.Key() { assert kept[i].Key() in Keys(kept); }
      }
    }
  }

  // ----- the clock as a state machine

  const YEAR := 365 * DAY

  datatype Clock = Clock(last: Option<int>, fired: set<(string, int)>)

  function StartOf(c: Clock, ts: int): int {
    if c.last.Some? then c.last.value else ts - YEAR
  }

  ghost function Advance(events: seq<Event>, c: Clock, ts: int): (Clock, seq<Firing>)
    requires Crons(events)
  {
    if ts <= StartOf(c, ts) then (c, [])
    else
      var due := Between(events, StartOf(c, ts), ts);
      (Clock(Some(ts), c.fired + Keys(due)), Fresh(c.fired, due))
  }

  /** Any sequence of advance_to calls: the final clock and all that was returned. */
  ghost function Run(events: seq<Event>, c: Clock, times: seq<int>): (Clock, seq<Firing>)
    requires Crons(events)
    decreases |times|
  {
    if times == [] then (c, [])
    else
      var step := Advance(events, c, times[0]);
      var rest := Run(events, step.0, times[1..]);
      (rest.0, step.1 + rest.1)
  }

  function Latest(t: int, times: seq<int>): int
    decreases |times|
  {
    if times == [] then t else Latest(if times[0] > t then times[0] else t, times[1..])
  }

  lemma {:induction false} LatestNotBefore(t: int, times: seq<int>)
    ensures Latest(t, times) >= t
    decreases |times|
  {
    if times != [] { LatestNotBefore(if times[0] > t then times[0] else t, times[1..]); }
  }

  lemma {:induction false} LatestIsLargest(t: int, times: seq<int>)
    ensures Latest(t, times) == t || Latest(t, times) in times
    ensures forall u :: u in times ==> u <= Latest(t, times)
    decreases |times|
  {
    if times != [] {
      LatestIsLargest(if times[0] > t then times[0] else t, times[1..]);
      LatestNotBefore(if times[0] > t then times[0] else t, times[1..]);
      assert forall u :: u in times <==> u == times[0] || u in times[1..];
    }
  }

  lemma AdvanceTwice(events: seq<Event>, c: Clock, b: int, d: int)
    requires Crons(events) && c.last.Some? && c.last.value <= b <= d
    ensures var first := Advance(events, c, b);
            var second := Advance(events, first.0, d);
            first.0.last == Some(b) && Advance(events, c, d) == (second.0, first.1 + second.1)
  {
    var a := c.last.value;
    var first := Advance(events, c, b);
    if b == d {
      assert Advance(events, first.0, d) == (first.0, []);
      assert first.1 + [] == first.1;
    } else if a == b {
      assert first == (c, []);
      assert first.1 + Advance(events, c, d).1 == Advance(events, c, d).1;
    } else {
      var xs, ys := Between(events, a, b), Between(events, b, d);
      BetweenSplit(events, a, b, d);
      FreshAppend(c.fired, xs, ys);
      KeysAppend(xs, ys);
      assert c.fired + (Keys(xs) + Keys(ys)) == c.fired + Keys(xs) + Keys(ys);
    }
  }

  /**
   * Compositionality: whatever calls are made once the clock has started, backward and repeated
   * ones included, the results concatenate to those of a single call to the latest time.
   */
  lemma {:induction false} RunIsOneAdvance(events: seq<Event>, c: Clock, times: seq<int>)
    requires Crons(events) && c.last.Some?
    ensures Run(events, c, times) == Advance(events, c, Latest(c.last.value, times))
    decreases |times|
  {
    if times != [] {
      var a := c.last.value;
      var b := if times[0] > a then times[0] else a;
      var step := Advance(events, c, times[0]);
      assert step == Advance(events, c, b) && step.0.last == Some(b);
      RunIsOneAdvance(events, step.0, times[1..]);
      LatestNotBefore(b, times[1..]);
      AdvanceTwice(events, c, b, Latest(b, times[1..]));
    }
  }

  /**
   * Everything a scheduler ever returns: from a year before its first call to the latest one, each
   * due (event_id, timestamp) exactly once.
   */
  lemma WholeRun(events: seq<Event>, times: seq<int>)
    requires Crons(events) && times != []
    ensures var out := Run(events, Clock(None, {}), times).1;
            var start, end := times[0] - 31536000, Latest(times[0], times[1..]);
            && (forall i, j :: 0 <= i < j < |out| ==> out[i].Key() != out[j].Key())
            && (forall f :: f in out ==> f.event in events && start < f.ts <= end && Due(f.event, f.ts))
            && forall i, t :: 0 <= i < |events| && start < t <= end && Due(events[i], t)
                 ==> (events[i].id, t) in Keys(out)
  {
    var start, end := times[0] - YEAR, Latest(times[0], times[1..]);
    var from := Clock(Some(start), {});
    var out := Run(events, Clock(None, {}), times).1;
    assert Advance(events, Clock(None, {}), times[0]) == Advance(events, from, times[0]);
    RunIsOneAdvance(events, from, times);
    assert Run(events, from, times) == Run(events, Clock(None, {}), times);
    LatestNotBefore(times[0], times[1..]);
    var due := Between(events, start, end);
    assert out == Fresh({}, due);
    FreshExact({}, due);
    BetweenExact(events, start, end);
    forall i, t | 0 <= i < |events| && start < t <= end && Due(events[i], t) ensures (events[i].id, t) in Keys(out) {
      assert Firing(events[i], t) in due;
      var j :| 0 <= j < |due| && due[j] == Firing(events[i], t);
      assert due[j].Key() in Keys(due);
    }
  }
}
