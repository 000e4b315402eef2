/** The refresh runner: at every tick, each remote subscription whose schedule has fired
    since its last refresh is fetched and saved. */
module Runner {
  import opened GoStrings
  import opened Cron
  import opened Calendar
  import opened CronNext
  import opened CronDates

  datatype Sub = Sub(name: string, source: string, url: string, updateCron: string, cachedContent: string, cachedAt: int)

  /** What the outside world answers during one tick. */
  datatype World = World(fetch: Sub -> Option<string>, save: Sub -> bool)

  /** Midnight of 1 January 1970. */
  const UNIX_EPOCH := 62_135_596_800_000_000_000

  /** time.Time.UnixMilli: whole milliseconds since 1970, rounded down. */
  function UnixMilli(t: int): int {
    (t - UNIX_EPOCH) / 1_000_000
  }

  lemma EpochIs1970()
    ensures TimeAt(Clock(1970, 1, 1, 0, 0), 0) == UNIX_EPOCH && UnixMilli(UNIX_EPOCH) == 0
  {
    WeekdaysPass(0);
  }

  /** A millisecond later the count is one more. */
  lemma MillisecondsPass(t: int)
    ensures UnixMilli(t + 1_000_000) == UnixMilli(t) + 1
  {
  }

  /** Times of last refreshes, by subscription name. */
  type Last = map<string, int>

  /** The time from which the next firing is looked for. */
  function From(last: Last, name: string, now: int): int {
    if name in last then last[name] else now - MINUTE
  }

  /** due */
  predicate Due(last: Last, name: string, sched: Schedule, zone: int, now: int) {
    var next := NextTime(sched, zone, From(last, name, now));
    next.Some? && next.value <= now
  }

  /** Remote subscriptions with a valid schedule and a URL take part. */
  ghost predicate Scheduled(sub: Sub) {
    sub.source == "remote" && sub.updateCron != "" && sub.url != "" && Meaning(sub.updateCron).Ok?
  }

  ghost predicate Fetched(last: Last, sub: Sub, zone: int, now: int) {
    Scheduled(sub) && Due(last, sub.name, Meaning(sub.updateCron).value, zone, now)
  }

  function Refreshed(sub: Sub, content: string, now: int): Sub {
    sub.(cachedContent := content, cachedAt := UnixMilli(now))
  }

  /** A refresh: a failed fetch still counts as the last refresh, a failed save does not. */
  function LastAfterRefresh(last: Last, sub: Sub, now: int, w: World): Last {
    var content := w.fetch(sub);
    if content.Some? && !w.save(Refreshed(sub, content.value, now)) then last
    else last[sub.name := now]
  }

  function SubAfterRefresh(sub: Sub, now: int, w: World): Sub {
    var content := w.fetch(sub);
    if content.Some? && w.save(Refreshed(sub, content.value, now)) then Refreshed(sub, content.value, now) else sub
  }

  ghost function LastAfterTick(last: Last, subs: seq<Sub>, zone: int, now: int, w: World): Last
    decreases |subs|
  {
    if subs == [] then last
    else
      var sub := subs[0];
      LastAfterTick(if Fetched(last, sub, zone, now) then LastAfterRefresh(last, sub, now, w) else last, subs[1..], zone, now, w)
  }

  ghost function SubsAfterTick(last: Last, subs: seq<Sub>, zone: int, now: int, w: World): (r: seq<Sub>)
    ensures |r| == |subs|
    decreases |subs|
  {
    if subs == [] then []
    else
      var sub := subs[0];
      if Fetched(last, sub, zone, now) then
        [SubAfterRefresh(sub, now, w)] + SubsAfterTick(LastAfterRefresh(last, sub, now, w), subs[1..], zone, now, w)
      else [sub] + SubsAfterTick(last, subs[1..], zone, now, w)
  }

  lemma TickStep(last: Last, next: Last, done: seq<Sub>, listed: seq<Sub>, rest: seq<Sub>, sub: Sub, zone: int, now: int, w: World)
    requires listed != [] && rest == listed[1..]
    requires var fetched := Fetched(last, listed[0], zone, now);
             && next == (if fetched then LastAfterRefresh(last, listed[0], now, w) else last)
             && sub == (if fetched then SubAfterRefresh(listed[0], now, w) else listed[0])
    ensures LastAfterTick(last, listed, zone, now, w) == LastAfterTick(next, rest, zone, now, w)
    ensures done + SubsAfterTick(last, listed, zone, now, w) == done + [sub] + SubsAfterTick(next, rest, zone, now, w)
  {
    hide Fetched, LastAfterRefresh, SubAfterRefresh;
    assert done + ([sub] + SubsAfterTick(next, rest, zone, now, w)) == done + [sub] + SubsAfterTick(next, rest, zone, now, w);
  }

  lemma TickNothing(last: Last, subs: seq<Sub>, zone: int, now: int, w: World)
    ensures LastAfterTick(last, [], zone, now, w) == last
    ensures subs + SubsAfterTick(last, [], zone, now, w) == subs
  {
  }

  class RefreshRunner {
    var last: Last
    var subs: seq<Sub>  // the stored subscriptions, in listed order
    const zone: int

    constructor (subs: seq<Sub>, zone: int)
      ensures last == map[] && this.subs == subs && this.zone == zone
    {
      this.last := map[];
      this.subs := subs;
      this.zone := zone;
    }

    method Tick(now: int, w: World)
      modifies this
      ensures last == LastAfterTick(old(last), old(subs), zone, now, w)
      ensures subs == SubsAfterTick(old(last), old(subs), zone, now, w)
    {
      hide Fetched, LastAfterRefresh, SubAfterRefresh, LastAfterTick, SubsAfterTick;
      var listed := subs;
      ghost var allLast := LastAfterTick(last, listed, zone, now, w);
      ghost var allSubs := SubsAfterTick(last, listed, zone, now, w);
      assert listed[0..] == listed && listed[..0] == [] && [] + allSubs == allSubs;
      for i := 0 to |listed|
        invariant |subs| == |listed| && subs[i..] == listed[i..]
        invariant LastAfterTick(last, listed[i..], zone, now, w) == allLast
        invariant subs[..i] + SubsAfterTick(last, listed[i..], zone, now, w) == allSubs
      {
        var sub := listed[i];
        assert listed[i..][1..] == listed[i + 1..] && subs[i..][0] == sub;
        ghost var before, done := last, subs[..i];
        var fires := IsDue(sub, now);
        if fires {
          Refresh(i, now, w);
        }
        TickStep(before, last, done, listed[i..], listed[i + 1..], subs[i], zone, now, w);
        assert subs[..i + 1] == done + [subs[i]];
        assert subs[i + 1..] == listed[i + 1..];
      }
      TickNothing(last, subs, zone, now, w);
      assert subs[..|listed|] == subs && listed[|listed|..] == [];
    }

    /** The filter of the tick loop. */
    method IsDue(sub: Sub, now: int) returns (r: bool)
      ensures r <==> Fetched(last, sub, zone, now)
    {
      if sub.source != "remote" || sub.updateCron == "" || sub.url == "" {
        return false;
      }
      var sched := Parse(sub.updateCron);
      if sched.Err? {
        return false;
      }
      var from := if sub.name in last then last[sub.name] else now - MINUTE;
      var next := Next(sched.value, zone, from);
      return next.Some? && next.value <= now;
    }

    method Refresh(i: nat, now: int, w: World)
      requires i < |subs|
      modifies this
      ensures last == LastAfterRefresh(old(last), old(subs)[i], now, w)
      ensures subs == old(subs)[i := SubAfterRefresh(old(subs)[i], now, w)]
    {
      var sub := subs[i];
      var content := w.fetch(sub);
      if content.None? {
        last := last[sub.name := now];
        return;
      }
      var rec := sub.(cachedContent := content.value, cachedAt := UnixMilli(now));
      if !w.save(rec) {
        return;
      }
      subs := subs[i := rec];
      last := last[sub.name := now];
    }
  }

  // ---- runs ----

  /** One tick: when it happened and what the world answered. */
  datatype Event = Event(now: int, w: World)

  /** The ticks happen one after the other, and every save succeeds. */
  ghost predicate Run(events: seq<Event>) {
    && (forall i, j :: 0 <= i < j < |events| ==> events[i].now < events[j].now)
    && (forall i, sub :: 0 <= i < |events| ==> events[i].w.save(sub))
  }

  predicate DistinctNames(subs: seq<Sub>) {
    forall i, j :: 0 <= i < j < |subs| ==> subs[i].name != subs[j].name
  }

  /** The runner's state after the first `n` ticks. */
  ghost function StateAfter(subs: seq<Sub>, zone: int, events: seq<Event>, n: nat): (Last, seq<Sub>)
    requires n <= |events|
  {
    if n == 0 then (map[], subs)
    else
      var (last, now) := StateAfter(subs, zone, events, n - 1);
      var e := events[n - 1];
      (LastAfterTick(last, now, zone, e.now, e.w), SubsAfterTick(last, now, zone, e.now, e.w))
  }

  /** Subscription `k` is refreshed at tick `n`. */
  ghost predicate Served(subs: seq<Sub>, zone: int, events: seq<Event>, k: nat, n: nat)
    requires n < |events| && k < |subs|
  {
    Fetched(StateAfter(subs, zone, events, n).0, subs[k], zone, events[n].now)
  }

  /** The fields that decide when a subscription is fetched. */
  predicate SameIdentity(a: Sub, b: Sub) {
    a.name == b.name && a.source == b.source && a.url == b.url && a.updateCron == b.updateCron
  }

  predicate SameAt(a: Last, b: Last, name: string) {
    (name in a <==> name in b) && (name in a ==> a[name] == b[name])
  }

  lemma FetchedDependsOn(a: Last, b: Last, x: Sub, y: Sub, zone: int, now: int)
    requires SameIdentity(x, y) && SameAt(a, b, x.name)
    ensures Fetched(a, x, zone, now) <==> Fetched(b, y, zone, now)
  {
  }

  /** A tick refreshes exactly the fetched subscriptions: their last time becomes the
      tick's, every other name keeps its own. */
  lemma {:induction false} TickOnName(last: Last, subs: seq<Sub>, zone: int, now: int, w: World, name: string)
    requires DistinctNames(subs) && forall s :: w.save(s)
    ensures var after := LastAfterTick(last, subs, zone, now, w);
            if exists k :: 0 <= k < |subs| && subs[k].name == name && Fetched(last, subs[k], zone, now)
            then name in after && after[name] == now
            else SameAt(after, last, name)
    decreases |subs|
  {
    hide Fetched;
    if subs != [] {
      var sub, rest := subs[0], subs[1..];
      var next := if Fetched(last, sub, zone, now) then LastAfterRefresh(last, sub, now, w) else last;
      TickOnName(next, rest, zone, now, w, name);
      forall k | 0 <= k < |rest|
        ensures Fetched(next, rest[k], zone, now) <==> Fetched(last, subs[k + 1], zone, now)
      {
        assert rest[k] == subs[k + 1];
        FetchedDependsOn(next, last, rest[k], rest[k], zone, now);
      }
      if k :| 0 <= k < |subs| && subs[k].name == name && Fetched(last, subs[k], zone, now) {
        if k > 0 {
          assert rest[k - 1].name == name && Fetched(next, rest[k - 1], zone, now);
        }
      }
    }
  }

  lemma {:induction false} TickKeepsIdentity(last: Last, subs: seq<Sub>, zone: int, now: int, w: World, k: nat)
    requires k < |subs|
    ensures SameIdentity(SubsAfterTick(last, subs, zone, now, w)[k], subs[k])
    decreases |subs|
  {
    hide Fetched;
    if k > 0 {
      var sub := subs[0];
      TickKeepsIdentity(if Fetched(last, sub, zone, now) then LastAfterRefresh(last, sub, now, w) else last, subs[1..], zone, now, w, k - 1);
    }
  }

  lemma {:induction false} IdentityKept(subs: seq<Sub>, zone: int, events: seq<Event>, n: nat)
    requires n <= |events|
    ensures var now := StateAfter(subs, zone, events, n).1;
            |now| == |subs| && forall k :: 0 <= k < |subs| ==> SameIdentity(now[k], subs[k])
    decreases n
  {
    hide LastAfterTick, SubsAfterTick;
    if n > 0 {
      IdentityKept(subs, zone, events, n - 1);
      var (last, now) := StateAfter(subs, zone, events, n - 1);
      var e := events[n - 1];
      var next := SubsAfterTick(last, now, zone, e.now, e.w);
      assert StateAfter(subs, zone, events, n).1 == next;
      forall k | 0 <= k < |subs|
        ensures SameIdentity(next[k], subs[k])
      {
        TickKeepsIdentity(last, now, zone, e.now, e.w, k);
        assert SameIdentity(now[k], subs[k]);
      }
    }
  }

  /** One tick of a run, seen from one subscription. */
  lemma StepOfRun(subs: seq<Sub>, zone: int, events: seq<Event>, k: nat, n: nat)
    requires Run(events) && DistinctNames(subs) && n < |events| && k < |subs|
    ensures var before, after := StateAfter(subs, zone, events, n).0, StateAfter(subs, zone, events, n + 1).0;
            var name := subs[k].name;
            if Served(subs, zone, events, k, n) then name in after && after[name] == events[n].now
            else SameAt(after, before, name)
  {
    hide Fetched, LastAfterTick, SubsAfterTick;
    IdentityKept(subs, zone, events, n);
    var (last, now) := StateAfter(subs, zone, events, n);
    var e := events[n];
    var name := subs[k].name;
    forall s ensures e.w.save(s) {
      assert events[n].w.save(s);
    }
    assert SameIdentity(now[k], subs[k]);
    forall i | 0 <= i < |now| && now[i].name == name
      ensures i == k
    {
      assert SameIdentity(now[i], subs[i]);
    }
    forall i, j | 0 <= i < j < |now| ensures now[i].name != now[j].name {
      assert SameIdentity(now[i], subs[i]) && SameIdentity(now[j], subs[j]);
    }
    FetchedDependsOn(last, last, now[k], subs[k], zone, e.now);
    TickOnName(last, now, zone, e.now, e.w, name);
  }

  /** The last time of a subscription that was served at tick `i` and not since. */
  lemma {:induction false} LastIs(subs: seq<Sub>, zone: int, events: seq<Event>, k: nat, i: nat, n: nat)
    requires Run(events) && DistinctNames(subs) && i < n <= |events| && k < |subs|
    requires Served(subs, zone, events, k, i)
    requires forall j :: i < j < n ==> !Served(subs, zone, events, k, j)
    ensures var last := StateAfter(subs, zone, events, n).0;
            subs[k].name in last && last[subs[k].name] == events[i].now
    decreases n
  {
    hide Served, StateAfter;
    StepOfRun(subs, zone, events, k, n - 1);
    if i < n - 1 {
      LastIs(subs, zone, events, k, i, n - 1);
    }
  }

  /** Between two consecutive refreshes of a subscription there is a scheduled minute:
      after the first and not after the second. */
  lemma RefreshesNeedAFiring(subs: seq<Sub>, zone: int, events: seq<Event>, k: nat, i: nat, j: nat)
    requires Run(events) && DistinctNames(subs) && i < j < |events| && k < |subs|
    requires Served(subs, zone, events, k, i) && Served(subs, zone, events, k, j)
    requires forall n :: i < n < j ==> !Served(subs, zone, events, k, n)
    ensures exists m :: Fires(Meaning(subs[k].updateCron).value, zone, m) && events[i].now < m <= events[j].now
  {
    LastIs(subs, zone, events, k, i, j);
    var sched := Meaning(subs[k].updateCron).value;
    NextIsLeast(sched, zone, events[i].now);
    var m := NextTime(sched, zone, events[i].now).value;
    assert Fires(sched, zone, m);
  }

  /** A recorded last time is the time of an earlier tick. */
  lemma {:induction false} LastIsATick(subs: seq<Sub>, zone: int, events: seq<Event>, k: nat, n: nat)
    requires Run(events) && DistinctNames(subs) && n <= |events| && k < |subs|
    ensures var last := StateAfter(subs, zone, events, n).0;
            subs[k].name in last ==> n > 0 && last[subs[k].name] <= events[n - 1].now
    decreases n
  {
    hide Served;
    if n > 0 {
      StepOfRun(subs, zone, events, k, n - 1);
      LastIsATick(subs, zone, events, k, n - 1);
      assert n > 1 ==> events[n - 2].now < events[n - 1].now;
    }
  }

  /** A firing after the starting point is never before what Next finds. */
  lemma NextFinds(sched: Schedule, zone: int, from: int, m: int)
    requires Fires(sched, zone, m) && from < m
    requires m < Limit(from, zone) || (Parsed(sched) && FiresEveryYear(sched))
    ensures var r := NextTime(sched, zone, from); r.Some? && r.value <= m
  {
    hide Limit, Fires, FiresEveryYear, Parsed;
    NextIsLeast(sched, zone, from);
    if m >= Limit(from, zone) {
      NextWithinAYear(sched, zone, from);
    }
  }

  /** With ticks at most a minute apart, every scheduled minute from the first tick on is
      served at the first tick at or after it.  Only a schedule that does not fire every
      year needs its minute to lie within four years of the last refresh. */
  lemma NothingMissed(subs: seq<Sub>, zone: int, events: seq<Event>, k: nat, n: nat, m: int)
    requires Run(events) && DistinctNames(subs) && k < |subs| && n < |events|
    requires forall i :: 0 <= i < |events| - 1 ==> events[i + 1].now <= events[i].now + MINUTE
    requires Scheduled(subs[k])
    requires Fires(Meaning(subs[k].updateCron).value, zone, m)
    requires events[0].now <= m <= events[n].now && (n > 0 ==> events[n - 1].now < m)
    requires var sched := Meaning(subs[k].updateCron).value;
             var last := StateAfter(subs, zone, events, n).0;
             FiresEveryYear(sched) || subs[k].name !in last || m < Limit(last[subs[k].name], zone)
    ensures Served(subs, zone, events, k, n)
  {
    hide Meaning, Limit, Fires, FiresEveryYear, Parsed;
    var sched := Meaning(subs[k].updateCron).value;
    var last := StateAfter(subs, zone, events, n).0;
    var from := From(last, subs[k].name, events[n].now);
    LastIsATick(subs, zone, events, k, n);
    assert n > 0 ==> events[n - 1 + 1].now <= events[n - 1].now + MINUTE;
    FourYearsAreLong(from, zone);
    MeaningIsParsed(subs[k].updateCron);
    NextFinds(sched, zone, from, m);
  }

  // ---- what a refresh needs, and what it leaves ----

  /** Due exactly when the schedule fires after the starting point, up to now, and before
      the search from that point gives up. */
  lemma DueExactly(last: Last, name: string, sched: Schedule, zone: int, now: int)
    ensures var from := if name in last then last[name] else now - 60_000_000_000;
            Due(last, name, sched, zone, now) <==> exists m :: Fires(sched, zone, m) && from < m <= now && m < Limit(from, zone)
  {
    hide Fires, Limit, NextTime;
    var from := if name in last then last[name] else now - 60_000_000_000;
    NextIsLeast(sched, zone, from);
    var r := NextTime(sched, zone, from);
    if m :| Fires(sched, zone, m) && from < m <= now && m < Limit(from, zone) {
      assert r.Some? && r.value <= m;
    }
  }

  lemma {:induction false} NoLastBeforeFirst(subs: seq<Sub>, zone: int, events: seq<Event>, k: nat, n: nat)
    requires Run(events) && DistinctNames(subs) && n <= |events| && k < |subs|
    requires forall i :: 0 <= i < n ==> !Served(subs, zone, events, k, i)
    ensures subs[k].name !in StateAfter(subs, zone, events, n).0
    decreases n
  {
    hide Served, Fetched, LastAfterTick, SubsAfterTick;
    if n > 0 {
      NoLastBeforeFirst(subs, zone, events, k, n - 1);
      StepOfRun(subs, zone, events, k, n - 1);
    }
  }

  /** The first refresh of a subscription serves a scheduled minute of the last minute. */
  lemma FirstRefreshNeedsAFiring(subs: seq<Sub>, zone: int, events: seq<Event>, k: nat, n: nat)
    requires Run(events) && DistinctNames(subs) && n < |events| && k < |subs|
    requires Served(subs, zone, events, k, n) && forall i :: 0 <= i < n ==> !Served(subs, zone, events, k, i)
    ensures exists m :: Fires(Meaning(subs[k].updateCron).value, zone, m) && events[n].now - 60_000_000_000 < m <= events[n].now
  {
    hide Due, Fires, Meaning, Limit;
    NoLastBeforeFirst(subs, zone, events, k, n);
    DueExactly(StateAfter(subs, zone, events, n).0, subs[k].name, Meaning(subs[k].updateCron).value, zone, events[n].now);
  }

  /** What a tick makes of one record and of its last time, whatever fetch and save say. */
  lemma {:induction false} TickOnRecord(last: Last, subs: seq<Sub>, zone: int, now: int, w: World, k: nat)
    requires DistinctNames(subs) && k < |subs|
    ensures var sub, fetched := subs[k], Fetched(last, subs[k], zone, now);
            && SubsAfterTick(last, subs, zone, now, w)[k] == (if fetched then SubAfterRefresh(sub, now, w) else sub)
            && SameAt(LastAfterTick(last, subs, zone, now, w), if fetched then LastAfterRefresh(last, sub, now, w) else last, sub.name)
    decreases |subs|
  {
    hide Fetched, SubAfterRefresh;
    var sub, rest := subs[0], subs[1..];
    var next := if Fetched(last, sub, zone, now) then LastAfterRefresh(last, sub, now, w) else last;
    if k > 0 {
      TickOnRecord(next, rest, zone, now, w, k - 1);
      FetchedDependsOn(next, last, subs[k], subs[k], zone, now);
    } else {
      OthersKeepLast(next, rest, zone, now, w, sub.name);
    }
  }

  lemma {:induction false} OthersKeepLast(last: Last, subs: seq<Sub>, zone: int, now: int, w: World, name: string)
    requires forall i :: 0 <= i < |subs| ==> subs[i].name != name
    ensures SameAt(LastAfterTick(last, subs, zone, now, w), last, name)
    decreases |subs|
  {
    hide Fetched;
    if subs != [] {
      OthersKeepLast(if Fetched(last, subs[0], zone, now) then LastAfterRefresh(last, subs[0], now, w) else last, subs[1..], zone, now, w, name);
    }
  }

  /** A refresh whose fetch succeeds and whose save succeeds stores the content and the
      time in milliseconds and nothing else; every other record stays as it was. */
  lemma RecordAfterTick(last: Last, subs: seq<Sub>, zone: int, now: int, w: World, k: nat)
    requires DistinctNames(subs) && k < |subs|
    ensures var was, now' := subs[k], SubsAfterTick(last, subs, zone, now, w)[k];
            if Fetched(last, was, zone, now) && w.fetch(was).Some? && w.save(was.(cachedContent := w.fetch(was).value, cachedAt := UnixMilli(now)))
            then now' == was.(cachedContent := w.fetch(was).value, cachedAt := UnixMilli(now))
            else now' == was
  {
    hide Fetched;
    TickOnRecord(last, subs, zone, now, w, k);
  }

  /** A save that fails is tried again at the next tick, when there was a last time. */
  lemma FailedSaveIsRetried(last: Last, subs: seq<Sub>, zone: int, now: int, w: World, k: nat, later: int)
    requires DistinctNames(subs) && k < |subs| && now <= later && subs[k].name in last
    requires Fetched(last, subs[k], zone, now)
    requires w.fetch(subs[k]).Some? && forall s :: !w.save(s)
    ensures var after := LastAfterTick(last, subs, zone, now, w);
            subs[k].name in after && after[subs[k].name] == last[subs[k].name] && Fetched(after, subs[k], zone, later)
  {
    hide NextTime, Meaning;
    TickOnRecord(last, subs, zone, now, w, k);
  }

  /** A fetch that fails is not: the next refresh needs a firing after this tick. */
  lemma FailedFetchWaits(last: Last, subs: seq<Sub>, zone: int, now: int, w: World, k: nat)
    requires DistinctNames(subs) && k < |subs| && Fetched(last, subs[k], zone, now) && w.fetch(subs[k]).None?
    ensures var after := LastAfterTick(last, subs, zone, now, w);
            subs[k].name in after && after[subs[k].name] == now
  {
    hide Fetched;
    TickOnRecord(last, subs, zone, now, w, k);
  }

  /** Only remote subscriptions with a URL and a well-formed schedule are ever touched. */
  lemma {:induction false} OthersAreNeverTouched(subs: seq<Sub>, zone: int, events: seq<Event>, k: nat, n: nat)
    requires DistinctNames(subs) && n <= |events| && k < |subs|
    requires subs[k].source != "remote" || subs[k].url == "" || subs[k].updateCron == "" || Meaning(subs[k].updateCron).Err?
    ensures |StateAfter(subs, zone, events, n).1| == |subs| && StateAfter(subs, zone, events, n).1[k] == subs[k]
    decreases n
  {
    hide Meaning, Due, LastAfterTick, SubsAfterTick;
    if n > 0 {
      OthersAreNeverTouched(subs, zone, events, k, n - 1);
      IdentityKept(subs, zone, events, n - 1);
      var (last, now) := StateAfter(subs, zone, events, n - 1);
      forall i, j | 0 <= i < j < |now|
        ensures now[i].name != now[j].name
      {
        assert SameIdentity(now[i], subs[i]) && SameIdentity(now[j], subs[j]);
      }
      TickOnRecord(last, now, zone, events[n - 1].now, events[n - 1].w, k);
    }
  }
}
