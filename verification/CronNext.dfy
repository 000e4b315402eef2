/** When a schedule fires.  A time is a number of nanoseconds since midnight UTC,
    1 January of year 1; a zone is a fixed offset in nanoseconds. */
module CronNext {
  import opened GoStrings
  import opened Calendar
  import opened Cron

  const MINUTE := 60_000_000_000
  const DAYMINUTES := 1440
  const DAY := 86_400_000_000_000

  /** The running number of the local minute that a time falls in. */
  function LocalMinute(t: int, zone: int): int {
    (t + zone) / MINUTE
  }

  /** The day-of-month and day-of-week rule. */
  predicate DayMatches(s: Schedule, n: int) {
    var d := CivilDate(n);
    && d.month in s.months
    && (if |s.days| == 31 && |s.weekdays| == 7 then true
        else if |s.days| == 31 then Weekday(n) in s.weekdays
        else if |s.weekdays| == 7 then d.day in s.days
        else d.day in s.days || Weekday(n) in s.weekdays)
  }

  predicate MinuteMatches(s: Schedule, m: int) {
    && m % 60 in s.minutes
    && m / 60 % 24 in s.hours
    && DayMatches(s, m / DAYMINUTES)
  }

  /** matches */
  predicate Matches(s: Schedule, zone: int, t: int) {
    MinuteMatches(s, LocalMinute(t, zone))
  }

  /** The minute boundary after a time. */
  function NextBoundary(t: int): int {
    t / MINUTE * MINUTE + MINUTE
  }

  /** The same local date and time of day, `years` later. */
  function AddYears(t: int, zone: int, years: int): int {
    var n := (t + zone) / DAY;
    var d := CivilDate(n);
    t + (DayNumber(d.year + years, d.month, d.day) - n) * DAY
  }

  function Limit(after: int, zone: int): int {
    AddYears(after, zone, 4)
  }

  /** The first matching boundary from `t` on, below `limit`. */
  function Search(s: Schedule, zone: int, t: int, limit: int): Option<int>
    decreases limit - t
  {
    if t >= limit then None
    else if Matches(s, zone, t) then Some(t)
    else Search(s, zone, t + MINUTE, limit)
  }

  /** Schedule.Next; None is the zero time. */
  function NextTime(s: Schedule, zone: int, after: int): Option<int> {
    Search(s, zone, NextBoundary(after), Limit(after, zone))
  }

  method Next(s: Schedule, zone: int, after: int) returns (r: Option<int>)
    ensures r == NextTime(s, zone, after)
  {
    var t := NextBoundary(after);
    var limit := Limit(after, zone);
    while t < limit
      invariant Search(s, zone, t, limit) == NextTime(s, zone, after)
      decreases limit - t
    {
      if Matches(s, zone, t) {
        return Some(t);
      }
      t := t + MINUTE;
    }
    return None;
  }

  /** A minute boundary at which the schedule fires. */
  predicate Fires(s: Schedule, zone: int, t: int) {
    t % MINUTE == 0 && Matches(s, zone, t)
  }

  lemma {:induction false} SearchIsLeast(s: Schedule, zone: int, t: int, limit: int)
    requires t % MINUTE == 0
    ensures var r := Search(s, zone, t, limit);
            && (r.Some? ==> t <= r.value < limit && Fires(s, zone, r.value))
            && (forall u :: t <= u < (if r.Some? then r.value else limit) ==> !Fires(s, zone, u))
    decreases limit - t
  {
    hide Matches;
    if t < limit && !Matches(s, zone, t) {
      SearchIsLeast(s, zone, t + MINUTE, limit);
      forall u | t <= u < t + MINUTE
        ensures !Fires(s, zone, u)
      {
        OneBoundaryAMinute(t, u);
      }
    }
  }

  lemma OneBoundaryAMinute(t: int, u: int)
    requires t % MINUTE == 0 && t <= u < t + MINUTE
    ensures u % MINUTE == 0 ==> u == t
  {
  }

  lemma BoundaryAfter(after: int)
    ensures var t := NextBoundary(after);
            t % MINUTE == 0 && after < t <= after + MINUTE
    ensures forall u :: after < u < NextBoundary(after) ==> u % MINUTE != 0
  {
    var k := after / MINUTE;
    assert NextBoundary(after) == (k + 1) * MINUTE;
    forall u | after < u < NextBoundary(after)
      ensures u % MINUTE != 0
    {
      assert u == k * MINUTE + (u - k * MINUTE);
    }
  }

  /** Next is the least firing time after its argument and below the limit; it is zero
      only when there is none. */
  lemma NextIsLeast(s: Schedule, zone: int, after: int)
    ensures var r := NextTime(s, zone, after);
            && (r.Some? ==> after < r.value < Limit(after, zone) && Fires(s, zone, r.value))
            && (forall u :: after < u < (if r.Some? then r.value else Limit(after, zone)) ==> !Fires(s, zone, u))
  {
    hide Matches, Limit;
    BoundaryAfter(after);
    SearchIsLeast(s, zone, NextBoundary(after), Limit(after, zone));
  }

  // ---- the horizon ----

  /** The schedule restricts the weekday, or allows some month and day that every
      common year has. */
  predicate FiresEveryYear(s: Schedule) {
    |s.weekdays| != 7 || exists m, d :: m in s.months && d in s.days && 1 <= m <= 12 && 1 <= d <= MonthLength(false, m)
  }

  /** A date of a common year lies inside every year, and comes 365 or 366 days later in
      the next. */
  lemma CommonDate(y: int, m: int, d: int)
    requires 1 <= m <= 12 && 1 <= d <= MonthLength(false, m)
    ensures IsDate(y, m, d)
    ensures YearStart(y) <= DayNumber(y, m, d) < YearStart(y + 1)
    ensures DayNumber(y, m, d) + 365 <= DayNumber(y + 1, m, d) <= DayNumber(y, m, d) + 366
  {
    hide YearStart;
    YearStartStep(y);
    LeapsAreApart(y);
  }

  lemma LeapsAreApart(y: int)
    ensures !(IsLeap(y) && IsLeap(y + 1))
  {
  }

  /** In any 366 days there is one with a given date of a common year. */
  lemma DateWithinAYear(n: int, m: int, d: int) returns (r: int)
    requires 1 <= m <= 12 && 1 <= d <= MonthLength(false, m)
    ensures n <= r <= n + 365
    ensures CivilDate(r).month == m && CivilDate(r).day == d
  {
    hide YearStart, DayNumber, CivilDate, YearOf;
    var y := YearOf(n);
    YearOfBounds(n);
    YearStartStep(y);
    CommonDate(y, m, d);
    CommonDate(y + 1, m, d);
    r := if DayNumber(y, m, d) >= n then DayNumber(y, m, d) else DayNumber(y + 1, m, d);
    DayOfDate(y, m, d);
    DayOfDate(y + 1, m, d);
  }

  /** How far the next day with weekday `w` is. */
  function DaysUntil(n: int, w: int): (k: int)
    requires 0 <= w <= 6
    ensures 0 <= k <= 6 && Weekday(n + k) == w
  {
    var k := (w - Weekday(n)) % 7;
    WeekdayAdds(n, w);
    k
  }

  lemma WeekdayAdds(n: int, w: int)
    requires 0 <= w <= 6
    ensures Weekday(n + (w - Weekday(n)) % 7) == w
  {
    var a := Weekday(n);
    assert n + 1 == 7 * ((n + 1) / 7) + a;
    if w >= a {
      assert n + (w - a) + 1 == 7 * ((n + 1) / 7) + w;
    } else {
      assert n + (w - a + 7) + 1 == 7 * ((n + 1) / 7 + 1) + w;
    }
  }

  /** The first day with weekday `w` in a month. */
  function FirstWeekday(y: int, m: int, w: int): int
    requires 1 <= m <= 12 && 0 <= w <= 6
  {
    DayNumber(y, m, 1) + DaysUntil(DayNumber(y, m, 1), w)
  }

  lemma EarlyDayOfMonth(y: int, m: int, n: int)
    requires 1 <= m <= 12 && DayNumber(y, m, 1) <= n < DayNumber(y, m, 1) + 28
    ensures CivilDate(n).month == m && YearStart(y) <= n < YearStart(y + 1)
  {
    hide YearStart, CivilDate;
    var d := n - DayNumber(y, m, 1) + 1;
    CommonDate(y, m, d);
    DayOfDate(y, m, d);
  }

  lemma WeeksBetween(a: int, b: int)
    requires Weekday(a) == Weekday(b) && b <= a + 372
    ensures b <= a + 371
  {
    assert a + 1 == 7 * ((a + 1) / 7) + Weekday(a);
    assert b + 1 == 7 * ((b + 1) / 7) + Weekday(b);
  }

  /** In any 366 days there is one with a given weekday in a given month. */
  lemma WeekdayWithinAYear(n: int, m: int, w: int) returns (r: int)
    requires 1 <= m <= 12 && 0 <= w <= 6
    ensures n <= r <= n + 365
    ensures CivilDate(r).month == m && Weekday(r) == w
  {
    hide YearStart, DayNumber, CivilDate, YearOf, DaysUntil;
    var y := YearOf(n);
    YearOfBounds(n);
    YearStartStep(y);
    CommonDate(y, m, 1);
    var f, g := FirstWeekday(y, m, w), FirstWeekday(y + 1, m, w);
    EarlyDayOfMonth(y, m, f);
    EarlyDayOfMonth(y, m, f + 7);
    EarlyDayOfMonth(y + 1, m, g);
    WeeksBetween(f, g);
    r := if f >= n then f else if f + 7 >= n then f + 7 else g;
    assert Weekday(f + 7) == Weekday(f);
  }

  lemma Member<T>(s: set<T>) returns (x: T)
    requires s != {}
    ensures x in s
  {
    x :| x in s;
  }

  lemma DayWithinAYear(s: Schedule, n: int) returns (r: int)
    requires Parsed(s) && FiresEveryYear(s)
    ensures n <= r <= n + 365 && DayMatches(s, r)
  {
    if |s.weekdays| != 7 {
      var m := Member(s.months);
      var w := Member(s.weekdays);
      r := WeekdayWithinAYear(n, m, w);
    } else {
      var m, d :| m in s.months && d in s.days && 1 <= m <= 12 && 1 <= d <= MonthLength(false, m);
      r := DateWithinAYear(n, m, d);
    }
  }

  lemma MinuteOfDay(day: int, h: int, mn: int)
    requires 0 <= h <= 23 && 0 <= mn <= 59
    ensures var m := day * DAYMINUTES + h * 60 + mn;
            m % 60 == mn && m / 60 % 24 == h && m / DAYMINUTES == day
  {
    var m := day * DAYMINUTES + h * 60 + mn;
    assert m == 60 * (24 * day + h) + mn;
    assert m / 60 == 24 * day + h;
  }

  /** Some local minute of the next 366 days, counted from `m`, matches. */
  lemma MinuteWithinAYear(s: Schedule, m: int) returns (r: int)
    requires Parsed(s) && FiresEveryYear(s)
    ensures m <= r < m + 366 * DAYMINUTES && MinuteMatches(s, r)
  {
    var h := Member(s.hours);
    var mn := Member(s.minutes);
    var first := (m - h * 60 - mn + DAYMINUTES - 1) / DAYMINUTES;
    var day := DayWithinAYear(s, first);
    r := day * DAYMINUTES + h * 60 + mn;
    MinuteOfDay(day, h, mn);
  }

  lemma FourYearsAreLong(after: int, zone: int)
    ensures Limit(after, zone) >= after + 1460 * DAY
  {
    hide CivilDate, DayNumber;
    var n := (after + zone) / DAY;
    var d := CivilDate(n);
    DateOfDay(n);
    FourYears(d.year, d.month, d.day);
  }

  /** Four years on, a date comes at least 1460 days later. */
  lemma FourYears(y: int, m: int, d: int)
    requires 1 <= m <= 12
    ensures DayNumber(y + 4, m, d) >= DayNumber(y, m, d) + 1460
  {
    YearStartMonotone(y + 1, y + 4);
    YearStartStep(y);
  }

  /** The boundary whose local minute is `m`. */
  lemma BoundaryOfMinute(m: int, zone: int)
    ensures var t := (m - zone / MINUTE) * MINUTE;
            t % MINUTE == 0 && LocalMinute(t, zone) == m
  {
    var k := m - zone / MINUTE;
    var t := k * MINUTE;
    assert t + zone == MINUTE * (k + zone / MINUTE) + zone % MINUTE;
  }

  /** A schedule that fires every year is never cut off: Next is at most 366 days ahead
      of any starting time. */
  lemma NextWithinAYear(s: Schedule, zone: int, after: int)
    requires Parsed(s) && FiresEveryYear(s)
    ensures var r := NextTime(s, zone, after);
            r.Some? && r.value <= after + 366 * DAY
  {
    BoundaryAfter(after);
    var first := NextBoundary(after);
    var k := after / MINUTE + 1;
    assert first == k * MINUTE;
    var m := MinuteWithinAYear(s, k + zone / MINUTE);
    var t := (m - zone / MINUTE) * MINUTE;
    BoundaryOfMinute(m, zone);
    assert first <= t <= first - MINUTE + 366 * DAY;
    assert Fires(s, zone, t);
    FourYearsAreLong(after, zone);
    NextIsLeast(s, zone, after);
  }

  lemma {:induction false} SmallSet(s: set<int>, lo: int, hi: int)
    requires lo <= hi && forall v :: v in s ==> lo <= v < hi
    ensures |s| <= hi - lo
    decreases hi - lo
  {
    if lo == hi {
      assert s == {};
    } else {
      SmallSet(s - {hi - 1}, lo, hi - 1);
      assert s <= (s - {hi - 1}) + {hi - 1};
    }
  }

  lemma FirstOfMonth(s: Schedule, m: int)
    requires 1 <= m <= 12 && m in s.months && 1 in s.days
    ensures FiresEveryYear(s)
  {
  }

  /** A schedule that does not fire every year can fire on 29 February only. */
  lemma OnlyLeapDays(s: Schedule, n: int)
    requires Parsed(s) && !FiresEveryYear(s) && DayMatches(s, n)
    ensures var d := CivilDate(n); d.month == 2 && d.day == 29 && IsLeap(d.year)
  {
    hide CivilDate, DayNumber;
    DateOfDay(n);
    if 1 !in s.days {
      SmallSet(s.days, 2, 32);
    } else {
      var m := Member(s.months);
      FirstOfMonth(s, m);
    }
  }

  /** No 29 February lies between March 2096 and March 2100. */
  lemma NoLeapDayBefore2100(n: int)
    requires DayNumber(2096, 3, 1) <= n < DayNumber(2100, 3, 1)
    ensures var d := CivilDate(n); !(d.month == 2 && d.day == 29 && IsLeap(d.year))
  {
    hide YearStart, CivilDate;
    var d := CivilDate(n);
    DateOfDay(n);
    YearStartStep(d.year);
    if d.year < 2096 {
      YearStartMonotone(d.year + 1, 2096);
    } else if d.year > 2100 {
      YearStartMonotone(2101, d.year);
      YearStartStep(2100);
    }
  }

  /** A starting time from which such a schedule finds nothing within four years. */
  lemma CutOff(s: Schedule, zone: int) returns (after: int)
    requires Parsed(s) && !FiresEveryYear(s)
    ensures NextTime(s, zone, after) == None
  {
    hide CivilDate, DayNumber, Matches;
    var from := DayNumber(2096, 3, 1);
    after := from * DAY - zone;
    DayOfDate(2096, 3, 1);
    assert (after + zone) / DAY == from;
    var days := DayNumber(2100, 3, 1) - from;
    assert Limit(after, zone) == after + days * DAY;
    NextIsLeast(s, zone, after);
    if NextTime(s, zone, after).Some? {
      var u := NextTime(s, zone, after).value;
      var n := LocalMinute(u, zone) / DAYMINUTES;
      FiresOnMatchingDay(s, zone, u);
      DayOfTime(u + zone);
      assert from * DAY < u + zone < (from + days) * DAY;
      assert from <= n < from + days;
      OnlyLeapDays(s, n);
      NoLeapDayBefore2100(n);
    }
  }

  lemma FiresOnMatchingDay(s: Schedule, zone: int, u: int)
    requires Fires(s, zone, u)
    ensures DayMatches(s, LocalMinute(u, zone) / DAYMINUTES)
  {
  }

  lemma DayOfTime(t: int)
    ensures t / MINUTE / DAYMINUTES == t / DAY
  {
    var m := t / MINUTE;
    assert t == MINUTE * m + t % MINUTE;
    assert m == DAYMINUTES * (m / DAYMINUTES) + m % DAYMINUTES;
    assert t == DAY * (m / DAYMINUTES) + (MINUTE * (m % DAYMINUTES) + t % MINUTE);
  }

  /** The four-year limit never cuts a schedule off exactly when it fires every year. */
  lemma HorizonExactly(s: Schedule, zone: int)
    requires Parsed(s)
    ensures (forall after :: NextTime(s, zone, after).Some?) <==> FiresEveryYear(s)
  {
    if FiresEveryYear(s) {
      forall after
        ensures NextTime(s, zone, after).Some?
      {
        NextWithinAYear(s, zone, after);
      }
    } else {
      var after := CutOff(s, zone);
      assert NextTime(s, zone, after).None?;
    }
  }
}
