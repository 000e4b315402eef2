/** The fixed-window request limiter and its background sweep. */
module RateLimit {
  import opened GoStrings

  const SECOND := 1_000_000_000

  datatype Visitor = Visitor(count: int, windowEnd: int)

  /** A limiter's settings; times and `window` are in nanoseconds. */
  datatype Settings = Settings(limit: int, window: int)

  // ---- one event ----

  function Visit(c: Settings, visitors: map<string, Visitor>, key: string, now: int): Visitor {
    if key !in visitors || now > visitors[key].windowEnd then Visitor(1, now + c.window)
    else visitors[key].(count := visitors[key].count + 1)
  }

  /** What a sweep leaves. */
  function Live(visitors: map<string, Visitor>, now: int): map<string, Visitor> {
    map k | k in visitors && now <= visitors[k].windowEnd :: visitors[k]
  }

  class RateLimiter {
    const settings: Settings
    var visitors: map<string, Visitor>

    constructor (limit: int, window: int)
      requires window > 0
      ensures settings == Settings(limit, window) && visitors == map[]
    {
      settings, visitors := Settings(limit, window), map[];
    }

    /** Counts a request; `now` and `later` are the two clock readings. */
    method Allow(key: string, now: int, later: int) returns (ok: bool, remaining: nat)
      modifies this
      ensures visitors == old(visitors)[key := Visit(settings, old(visitors), key, now)]
      ensures ok <==> visitors[key].count <= settings.limit
      ensures remaining > 0 ==> later + remaining * 1_000_000_000 <= visitors[key].windowEnd
      ensures visitors[key].windowEnd < later + (remaining + 1) * 1_000_000_000
    {
      if key !in visitors || now > visitors[key].windowEnd {
        visitors := visitors[key := Visitor(0, now + settings.window)];
      }
      visitors := visitors[key := visitors[key].(count := visitors[key].count + 1)];
      var until := visitors[key].windowEnd - later;
      remaining := if until < 0 then 0 else until / SECOND;
      ok := visitors[key].count <= settings.limit;
    }

    method Reset(key: string)
      modifies this
      ensures visitors == old(visitors) - {key}
    {
      visitors := visitors - {key};
    }

    /** One round of the clean-up loop; the map is visited in any order. */
    method Sweep(now: int)
      modifies this
      ensures visitors == Live(old(visitors), now)
    {
      var todo := visitors.Keys;
      ghost var was := visitors;
      while todo != {}
        invariant todo <= was.Keys
        invariant forall k :: k in visitors <==> k in was && (k in todo || now <= was[k].windowEnd)
        invariant forall k :: k in visitors ==> visitors[k] == was[k]
        decreases |todo|
      {
        var k :| k in todo;
        todo := todo - {k};
        if now > visitors[k].windowEnd {
          visitors := visitors - {k};
        }
      }
    }
  }

  // ---- runs ----

  datatype Event =
    | Allow(key: string, time: int)
    | Reset(key: string, time: int)
    | Sweep(time: int)

  function After(c: Settings, visitors: map<string, Visitor>, e: Event): map<string, Visitor> {
    match e
    case Allow(key, now) => visitors[key := Visit(c, visitors, key, now)]
    case Reset(key, _) => visitors - {key}
    case Sweep(now) => Live(visitors, now)
  }

  predicate Allowed(c: Settings, visitors: map<string, Visitor>, e: Event) {
    e.Allow? && Visit(c, visitors, e.key, e.time).count <= c.limit
  }

  /** The answers to the requests of a run, in order. */
  function Answers(c: Settings, visitors: map<string, Visitor>, events: seq<Event>): seq<bool>
    decreases |events|
  {
    if events == [] then []
    else
      (if events[0].Allow? then [Allowed(c, visitors, events[0])] else [])
      + Answers(c, After(c, visitors, events[0]), events[1..])
  }

  /** How many requests for `key` are allowed at times in [from, to]. */
  function CountAllowed(c: Settings, visitors: map<string, Visitor>, events: seq<Event>, key: string, from: int, to: int): (n: nat)
    decreases |events|
  {
    if events == [] then 0
    else
      (if events[0].Allow? && events[0].key == key && from <= events[0].time <= to && Allowed(c, visitors, events[0]) then 1 else 0)
      + CountAllowed(c, After(c, visitors, events[0]), events[1..], key, from, to)
  }

  function CountResets(events: seq<Event>, key: string, from: int, to: int): (n: nat)
    decreases |events|
  {
    if events == [] then 0
    else
      (if events[0].Reset? && events[0].key == key && from <= events[0].time <= to then 1 else 0)
      + CountResets(events[1..], key, from, to)
  }

  /** Time never runs backwards. */
  predicate Ordered(events: seq<Event>) {
    forall i, j :: 0 <= i < j < |events| ==> events[i].time <= events[j].time
  }

  /** Every counter has seen the request that opened its window. */
  predicate Counted(visitors: map<string, Visitor>) {
    forall k :: k in visitors ==> visitors[k].count >= 1
  }

  // ---- the sliding bound ----

  function Limit(c: Settings): nat {
    if c.limit < 0 then 0 else c.limit
  }

  /** How many more requests a span that is open until `to` can see, resets aside. */
  function Budget(c: Settings, visitors: map<string, Visitor>, key: string, to: int): nat {
    if key !in visitors then Limit(c)
    else
      var v := visitors[key];
      (if 0 <= v.count < Limit(c) then Limit(c) - v.count else 0)
      + if v.windowEnd < to then Limit(c) else 0
  }

  lemma {:induction false} NoneAfter(c: Settings, visitors: map<string, Visitor>, events: seq<Event>, key: string, from: int, to: int)
    requires forall i :: 0 <= i < |events| ==> to < events[i].time
    ensures CountAllowed(c, visitors, events, key, from, to) == 0
    decreases |events|
  {
    if events != [] {
      NoneAfter(c, After(c, visitors, events[0]), events[1..], key, from, to);
    }
  }

  /** One event inside the span: an allowed request is paid for by the budget, a reset
      costs at most one limit, a sweep costs nothing. */
  lemma BudgetStep(c: Settings, visitors: map<string, Visitor>, e: Event, key: string, from: int)
    requires Counted(visitors) && from <= e.time <= from + c.window
    ensures Counted(After(c, visitors, e))
    ensures var to := from + c.window;
            (if e.Allow? && e.key == key && Allowed(c, visitors, e) then 1 else 0) + Budget(c, After(c, visitors, e), key, to)
            <= Budget(c, visitors, key, to) + if e.Reset? && e.key == key then Limit(c) else 0
  {
  }

  lemma {:induction false} SpanBound(c: Settings, visitors: map<string, Visitor>, events: seq<Event>, key: string, from: int)
    requires Counted(visitors) && Ordered(events)
    requires forall i :: 0 <= i < |events| ==> from <= events[i].time
    ensures var to := from + c.window;
            CountAllowed(c, visitors, events, key, from, to)
            <= Budget(c, visitors, key, to) + Limit(c) * CountResets(events, key, from, to)
    decreases |events|
  {
    hide Budget, Allowed, After, Counted;
    if events != [] {
      var e, to := events[0], from + c.window;
      var next, resets := After(c, visitors, e), CountResets(events[1..], key, from, to);
      if e.time <= to {
        BudgetStep(c, visitors, e, key, from);
        SpanBound(c, next, events[1..], key, from);
        assert Limit(c) * (1 + resets) == Limit(c) + Limit(c) * resets;
      } else {
        NoneAfter(c, visitors, events, key, from, to);
      }
    }
  }

  lemma AfterCounted(c: Settings, visitors: map<string, Visitor>, e: Event)
    requires Counted(visitors)
    ensures Counted(After(c, visitors, e))
  {
  }

  /** What a span of one window length can see at most without resets: the opening
      request of the window it starts in came before it. */
  function Sliding(c: Settings): nat {
    if c.limit <= 0 then 0 else 2 * c.limit - 1
  }

  /** Any closed span of one window length sees fewer than twice the limit, plus one limit
      for each reset of the key inside the span. */
  lemma {:induction false} SlidingBound(c: Settings, visitors: map<string, Visitor>, events: seq<Event>, key: string, from: int)
    requires Counted(visitors) && Ordered(events)
    ensures CountAllowed(c, visitors, events, key, from, from + c.window)
            <= Sliding(c) + Limit(c) * CountResets(events, key, from, from + c.window)
    decreases |events|
  {
    var to := from + c.window;
    if events != [] && events[0].time < from {
      AfterCounted(c, visitors, events[0]);
      SlidingBound(c, After(c, visitors, events[0]), events[1..], key, from);
    } else {
      SpanBound(c, visitors, events, key, from);
      assert Budget(c, visitors, key, to) <= Sliding(c);
    }
  }

  /** Requests within the limit of an open window are all allowed. */
  lemma {:induction false} Burst(c: Settings, visitors: map<string, Visitor>, key: string, time: int, n: nat, rest: seq<Event>, from: int, to: int)
    requires key in visitors && time <= visitors[key].windowEnd && visitors[key].count + n <= c.limit
    requires from <= time <= to
    ensures CountAllowed(c, visitors, Repeated(key, time, n) + rest, key, from, to)
            == n + CountAllowed(c, visitors[key := visitors[key].(count := visitors[key].count + n)], rest, key, from, to)
    decreases n
  {
    var events := Repeated(key, time, n) + rest;
    if n > 0 {
      assert events[1..] == Repeated(key, time, n - 1) + rest;
      var next := After(c, visitors, events[0]);
      Burst(c, next, key, time, n - 1, rest, from, to);
      assert next[key := next[key].(count := next[key].count + (n - 1))]
          == visitors[key := visitors[key].(count := visitors[key].count + n)];
    } else {
      assert events == rest;
      assert visitors[key := visitors[key].(count := visitors[key].count + 0)] == visitors;
    }
  }

  /** One request, then the rest of its window's limit at the last moment, then a whole
      limit just after: the bound is met. */
  function Worst(c: Settings, key: string): seq<Event>
    requires c.limit > 0
  {
    [Allow(key, 0)] + (Repeated(key, c.window, c.limit - 1) + ([Allow(key, c.window + 1)] + (Repeated(key, c.window + 1, c.limit - 1) + [])))
  }

  lemma WorstOrdered(c: Settings, key: string)
    requires c.limit > 0 && c.window > 0
    ensures Ordered(Worst(c, key))
  {
  }

  lemma CountOne(c: Settings, visitors: map<string, Visitor>, e: Event, rest: seq<Event>, key: string, from: int, to: int)
    ensures CountAllowed(c, visitors, [e] + rest, key, from, to)
            == (if e.Allow? && e.key == key && from <= e.time <= to && Allowed(c, visitors, e) then 1 else 0)
               + CountAllowed(c, After(c, visitors, e), rest, key, from, to)
  {
    assert ([e] + rest)[1..] == rest;
  }

  lemma BoundIsMet(c: Settings, key: string)
    requires c.limit > 0 && c.window > 0
    ensures Ordered(Worst(c, key))
    ensures CountAllowed(c, map[], Worst(c, key), key, c.window, 2 * c.window) == Sliding(c)
  {
    WorstOrdered(c, key);
    hide Repeated, Ordered;
    var n, w := c.limit - 1, c.window;
    var late := Repeated(key, w + 1, n) + [];
    var middle := [Allow(key, w + 1)] + late;
    var one := map[key := Visitor(1, w)];
    var full := map[key := Visitor(1 + n, w)];
    var again := map[key := Visitor(1, w + 1 + w)];
    CountOne(c, map[], Allow(key, 0), Repeated(key, w, n) + middle, key, w, 2 * w);
    Burst(c, one, key, w, n, middle, w, 2 * w);
    assert one[key := one[key].(count := one[key].count + n)] == full;
    CountOne(c, full, Allow(key, w + 1), late, key, w, 2 * w);
    assert After(c, full, Allow(key, w + 1)) == again;
    Burst(c, again, key, w + 1, n, [], w, 2 * w);
  }

  function Repeated(key: string, time: int, n: nat): (events: seq<Event>)
    ensures |events| == n && forall i :: 0 <= i < n ==> events[i] == Allow(key, time)
  {
    if n == 0 then [] else [Allow(key, time)] + Repeated(key, time, n - 1)
  }

  // ---- a window serves its first requests ----

  predicate Within(events: seq<Event>, key: string, windowEnd: int) {
    forall i :: 0 <= i < |events| ==> events[i].Allow? && events[i].key == key && events[i].time <= windowEnd
  }

  /** While a window is open, exactly the first requests up to the limit are allowed. */
  lemma {:induction false} FirstServed(c: Settings, visitors: map<string, Visitor>, events: seq<Event>, key: string)
    requires key in visitors && Within(events, key, visitors[key].windowEnd)
    ensures |Answers(c, visitors, events)| == |events|
    ensures forall i :: 0 <= i < |events| ==> (Answers(c, visitors, events)[i] <==> visitors[key].count + i + 1 <= c.limit)
    decreases |events|
  {
    if events != [] {
      FirstServed(c, After(c, visitors, events[0]), events[1..], key);
    }
  }

  /** A key nobody holds a counter for starts a fresh window. */
  lemma FreshWindow(c: Settings, visitors: map<string, Visitor>, events: seq<Event>, key: string)
    requires events != [] && Within(events, key, events[0].time + c.window)
    requires key in visitors ==> visitors[key].windowEnd < events[0].time
    ensures |Answers(c, visitors, events)| == |events|
    ensures forall i :: 0 <= i < |events| ==> (Answers(c, visitors, events)[i] <==> i + 1 <= c.limit)
  {
    FirstServed(c, After(c, visitors, events[0]), events[1..], key);
  }

  // ---- sweeps are invisible ----

  function WithoutSweeps(events: seq<Event>): (r: seq<Event>)
    ensures forall x :: x in r ==> x in events && !x.Sweep?
  {
    if events == [] then []
    else (if events[0].Sweep? then [] else [events[0]]) + WithoutSweeps(events[1..])
  }

  /** The swept counters are the others without some that expired before `now`. */
  predicate Swept(swept: map<string, Visitor>, full: map<string, Visitor>, now: int) {
    && (forall k :: k in swept ==> k in full && swept[k] == full[k])
    && (forall k :: k in full && k !in swept ==> full[k].windowEnd < now)
  }

  lemma SweptStep(c: Settings, swept: map<string, Visitor>, full: map<string, Visitor>, e: Event)
    requires Swept(swept, full, e.time)
    ensures Swept(After(c, swept, e), if e.Sweep? then full else After(c, full, e), e.time)
    ensures Allowed(c, swept, e) == Allowed(c, full, e)
  {
  }

  lemma SweptLater(swept: map<string, Visitor>, full: map<string, Visitor>, now: int, later: int)
    requires Swept(swept, full, now) && now <= later
    ensures Swept(swept, full, later)
  {
  }

  lemma {:induction false} SweepsInvisibleFrom(c: Settings, swept: map<string, Visitor>, full: map<string, Visitor>, events: seq<Event>)
    requires Ordered(events) && (events != [] ==> Swept(swept, full, events[0].time))
    ensures Answers(c, swept, events) == Answers(c, full, WithoutSweeps(events))
    decreases |events|
  {
    hide Swept, Allowed, After;
    if events != [] {
      var e, rest := events[0], events[1..];
      SweptStep(c, swept, full, e);
      var full' := if e.Sweep? then full else After(c, full, e);
      if rest != [] {
        SweptLater(After(c, swept, e), full', e.time, rest[0].time);
      }
      SweepsInvisibleFrom(c, After(c, swept, e), full', rest);
      var w := WithoutSweeps(rest);
      if !e.Sweep? {
        assert ([e] + w)[1..] == w;
        assert WithoutSweeps(events) == [e] + w;
      } else {
        assert WithoutSweeps(events) == w;
      }
    }
  }

  /** Sweeping at any times changes no answer. */
  lemma SweepsInvisible(c: Settings, visitors: map<string, Visitor>, events: seq<Event>)
    requires Ordered(events)
    ensures Answers(c, visitors, events) == Answers(c, visitors, WithoutSweeps(events))
  {
    SweepsInvisibleFrom(c, visitors, visitors, events);
  }
}
