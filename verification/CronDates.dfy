/** Schedules read on the civil calendar and the clock. */
module CronDates {
  import opened GoStrings
  import opened Numerals
  import opened Calendar
  import opened Cron
  import opened CronNext

  /** A date and a time of day, to the minute. */
  datatype Clock = Clock(year: int, month: int, day: int, hour: int, minute: int)

  predicate IsClock(c: Clock) {
    IsDate(c.year, c.month, c.day) && 0 <= c.hour < 24 && 0 <= c.minute < 60
  }

  /** The time at which the clocks of a zone show this, in nanoseconds. */
  function TimeAt(c: Clock, zone: int): int
    requires IsClock(c)
  {
    ((DayNumber(c.year, c.month, c.day) * 24 + c.hour) * 60 + c.minute) * 60_000_000_000 - zone
  }

  /** What a crontab line asks of the clock: the month, hour and minute are listed; of day
      and weekday one listed is enough when both are restricted, else the restricted one
      must be listed. */
  predicate Asks(s: Schedule, c: Clock)
    requires IsClock(c)
  {
    var day, weekday := c.day in s.days, (Zeller(c.year, c.month, c.day) + 6) % 7 in s.weekdays;
    && c.minute in s.minutes && c.hour in s.hours && c.month in s.months
    && if |s.days| != 31 && |s.weekdays| != 7 then day || weekday
       else (|s.days| != 31 ==> day) && (|s.weekdays| != 7 ==> weekday)
  }

  /** The clock's minute, hour and day, from a running number of minutes. */
  lemma MinuteParts(n: int, h: int, mi: int)
    requires 0 <= h < 24 && 0 <= mi < 60
    ensures var m := (n * 24 + h) * 60 + mi;
            m % 60 == mi && m / 60 % 24 == h && m / 1440 == n
  {
    var m := (n * 24 + h) * 60 + mi;
    assert m == 60 * (n * 24 + h) + mi;
    assert m / 60 == n * 24 + h;
    assert m == 1440 * n + (60 * h + mi);
  }

  /** Within a clock minute a schedule fires exactly when it asks for that minute. */
  lemma MatchesExactly(s: Schedule, c: Clock, zone: int, within: int)
    requires IsClock(c) && 0 <= within < 60_000_000_000
    ensures Matches(s, zone, TimeAt(c, zone) + within) <==> Asks(s, c)
  {
    hide CivilDate, DayNumber, Weekday, Zeller;
    var n := DayNumber(c.year, c.month, c.day);
    var m := (n * 24 + c.hour) * 60 + c.minute;
    MinuteParts(n, c.hour, c.minute);
    DayOfDate(c.year, c.month, c.day);
    WeekdayOfDate(c.year, c.month, c.day);
    assert TimeAt(c, zone) + within + zone == 60_000_000_000 * m + within;
    assert LocalMinute(TimeAt(c, zone) + within, zone) == m;
  }

  /** What the clocks show at a time. */
  function ClockAt(t: int, zone: int): (c: Clock)
    ensures IsClock(c)
  {
    var m := LocalMinute(t, zone);
    var d := CivilDate(m / 1440);
    DateOfDay(m / 1440);
    Clock(d.year, d.month, d.day, m / 60 % 24, m % 60)
  }

  /** The clock at a time is the one whose minute the time falls in. */
  lemma ClockAtIs(t: int, zone: int)
    ensures TimeAt(ClockAt(t, zone), zone) <= t < TimeAt(ClockAt(t, zone), zone) + 60_000_000_000
  {
    hide CivilDate, DayNumber, IsDate;
    var m := LocalMinute(t, zone);
    DateOfDay(m / 1440);
    assert m == 60 * (m / 60) + m % 60 && m / 60 == 24 * (m / 60 / 24) + m / 60 % 24;
    assert m / 60 / 24 == m / 1440;
  }

  /** Next returns the start of the first clock minute after its argument that the schedule
      asks for: it asks for that one, and for none in between. */
  lemma NextAsks(s: Schedule, zone: int, after: int)
    requires zone % 60_000_000_000 == 0
    ensures var r := NextTime(s, zone, after);
            && (r.Some? ==> r.value == TimeAt(ClockAt(r.value, zone), zone) && Asks(s, ClockAt(r.value, zone)))
            && (forall c :: IsClock(c) && after < TimeAt(c, zone) < (if r.Some? then r.value else Limit(after, zone)) ==> !Asks(s, c))
  {
    hide Asks, Matches, TimeAt, ClockAt, IsClock, Limit;
    var r := NextTime(s, zone, after);
    NextIsLeast(s, zone, after);
    if r.Some? {
      var c := ClockAt(r.value, zone);
      ClockAtIs(r.value, zone);
      MatchesExactly(s, c, zone, r.value - TimeAt(c, zone));
      OnTheMinute(c, zone);
      OneBoundaryAMinute(TimeAt(c, zone), r.value);
    }
    forall c | IsClock(c) && after < TimeAt(c, zone) < (if r.Some? then r.value else Limit(after, zone))
      ensures !Asks(s, c)
    {
      OnTheMinute(c, zone);
      MatchesExactly(s, c, zone, 0);
      assert !Fires(s, zone, TimeAt(c, zone));
    }
  }

  lemma OnTheMinute(c: Clock, zone: int)
    requires IsClock(c) && zone % 60_000_000_000 == 0
    ensures TimeAt(c, zone) % MINUTE == 0
  {
    hide DayNumber, MonthLength;
    var m := (DayNumber(c.year, c.month, c.day) * 24 + c.hour) * 60 + c.minute;
    assert TimeAt(c, zone) == 60_000_000_000 * (m - zone / 60_000_000_000);
  }

  /** A schedule that only restricts the weekday is only served on those days. */
  lemma OnlyOnWeekdays(s: Schedule, zone: int, after: int)
    requires zone % 60_000_000_000 == 0 && |s.days| == 31 && |s.weekdays| != 7
    ensures var r := NextTime(s, zone, after);
            r.Some? ==> var c := ClockAt(r.value, zone); (Zeller(c.year, c.month, c.day) + 6) % 7 in s.weekdays
  {
    hide Zeller, ClockAt;
    NextAsks(s, zone, after);
  }

  // ---- the limit ----

  /** Four years later on the calendar, at the same time of day; 29 February becomes
      1 March when the later year has none. */
  function FourYearsOn(c: Clock): Clock {
    if IsDate(c.year + 4, c.month, c.day) then c.(year := c.year + 4) else c.(year := c.year + 4, month := 3, day := 1)
  }

  lemma LimitIsFourYears(c: Clock, zone: int, within: int)
    requires IsClock(c) && 0 <= within < 60_000_000_000
    ensures IsClock(FourYearsOn(c))
    ensures Limit(TimeAt(c, zone) + within, zone) == TimeAt(FourYearsOn(c), zone) + within
  {
    hide CivilDate, DayNumber;
    var n, l := DayNumber(c.year, c.month, c.day), DayNumber(c.year + 4, c.month, c.day);
    LaterDay(c);
    DayOfDate(c.year, c.month, c.day);
    DayOfClock(n, c.hour, c.minute, within);
    ClockShift(n, l, c.hour, c.minute);
    LimitIs(TimeAt(c, zone) + within, zone, n);
  }

  lemma LimitIs(t: int, zone: int, n: int)
    requires (t + zone) / DAY == n
    ensures var d := CivilDate(n); Limit(t, zone) == t + (DayNumber(d.year + 4, d.month, d.day) - n) * DAY
  {
  }

  lemma ClockShift(n: int, l: int, h: int, mi: int)
    ensures ((n * 24 + h) * 60 + mi) * 60_000_000_000 + (l - n) * DAY == ((l * 24 + h) * 60 + mi) * 60_000_000_000
  {
  }

  lemma DayOfClock(n: int, h: int, mi: int, within: int)
    requires 0 <= h < 24 && 0 <= mi < 60 && 0 <= within < 60_000_000_000
    ensures (((n * 24 + h) * 60 + mi) * 60_000_000_000 + within) / DAY == n
  {
    var r := (h * 60 + mi) * 60_000_000_000 + within;
    assert ((n * 24 + h) * 60 + mi) * 60_000_000_000 + within == DAY * n + r;
    assert 0 <= r < DAY;
  }

  lemma LaterDay(c: Clock)
    requires IsClock(c)
    ensures var f := FourYearsOn(c); IsClock(f) && f.hour == c.hour && f.minute == c.minute && DayNumber(f.year, f.month, f.day) == DayNumber(c.year + 4, c.month, c.day)
  {
  }
}
