/** The proleptic Gregorian calendar, as the standard time package computes it.
    Day 0 is 1 January of year 1, a Monday. */
module Calendar {

  datatype Date = Date(year: int, month: int, day: int)

  predicate IsLeap(y: int) {
    y % 4 == 0 && (y % 100 != 0 || y % 400 == 0)
  }

  function YearLength(y: int): int {
    if IsLeap(y) then 366 else 365
  }

  /** The day number of 1 January of year `y`. */
  function YearStart(y: int): int {
    var p := y - 1;
    365 * p + p / 4 - p / 100 + p / 400
  }

  function MonthLength(leap: bool, m: int): int
    requires 1 <= m <= 12
  {
    if m == 2 then (if leap then 29 else 28)
    else if m == 4 || m == 6 || m == 9 || m == 11 then 30
    else 31
  }

  /** Days of the year in front of month `m`. */
  function MonthStart(leap: bool, m: int): int
    requires 1 <= m <= 12
  {
    [0, 31, 59, 90, 120, 151, 181, 212, 243, 273, 304, 334][m - 1] + if leap && m > 2 then 1 else 0
  }

  /** The day number of a date.  A day past the end of its month runs on into the next,
      as the time package normalises it. */
  function DayNumber(y: int, m: int, d: int): int
    requires 1 <= m <= 12
  {
    YearStart(y) + MonthStart(IsLeap(y), m) + d - 1
  }

  predicate IsDate(y: int, m: int, d: int) {
    1 <= m <= 12 && 1 <= d <= MonthLength(IsLeap(y), m)
  }

  /** The year of a day, by 400-, 100-, 4- and 1-year cycles. */
  function YearOf(n: int): int {
    var q, r := n / 146097, n % 146097;
    var c := if r / 36524 == 4 then 3 else r / 36524;
    var r2 := r - 36524 * c;
    var f := r2 / 1461;
    var r3 := r2 - 1461 * f;
    var a := if r3 / 365 == 4 then 3 else r3 / 365;
    400 * q + 100 * c + 4 * f + a + 1
  }

  /** The last month that starts on or before day `e` of the year. */
  function MonthOf(leap: bool, e: int): (m: int)
    ensures 1 <= m <= 12
  {
    if e >= MonthStart(leap, 12) then 12 else if e >= MonthStart(leap, 11) then 11
    else if e >= MonthStart(leap, 10) then 10 else if e >= MonthStart(leap, 9) then 9
    else if e >= MonthStart(leap, 8) then 8 else if e >= MonthStart(leap, 7) then 7
    else if e >= MonthStart(leap, 6) then 6 else if e >= MonthStart(leap, 5) then 5
    else if e >= MonthStart(leap, 4) then 4 else if e >= MonthStart(leap, 3) then 3
    else if e >= MonthStart(leap, 2) then 2 else 1
  }

  function CivilDate(n: int): Date {
    var y := YearOf(n);
    var e := n - YearStart(y);
    var m := MonthOf(IsLeap(y), e);
    Date(y, m, e - MonthStart(IsLeap(y), m) + 1)
  }

  /** 0 is Sunday. */
  function Weekday(n: int): int {
    (n + 1) % 7
  }

  lemma Div4Step(y: int)
    ensures y / 4 == (y - 1) / 4 + if y % 4 == 0 then 1 else 0
  {
  }

  lemma Div100Step(y: int)
    ensures y / 100 == (y - 1) / 100 + if y % 100 == 0 then 1 else 0
  {
  }

  lemma Div400Step(y: int)
    ensures y / 400 == (y - 1) / 400 + if y % 400 == 0 then 1 else 0
  {
  }

  lemma CenturyIsFourth(y: int)
    ensures y % 100 == 0 ==> y % 4 == 0
    ensures y % 400 == 0 ==> y % 100 == 0
  {
    if y % 100 == 0 {
      Mod4(y, 25 * (y / 100) - 1, 4);
    }
    if y % 400 == 0 {
      Mod100(y, 4 * (y / 400) - 1, 100);
    }
  }

  lemma YearStartStep(y: int)
    ensures YearStart(y + 1) == YearStart(y) + YearLength(y)
  {
    Div4Step(y);
    Div100Step(y);
    Div400Step(y);
    CenturyIsFourth(y);
  }

  lemma {:induction false} YearStartMonotone(y: int, z: int)
    requires y <= z
    ensures YearStart(y) + 365 * (z - y) <= YearStart(z)
    decreases z - y
  {
    if y < z {
      YearStartStep(y);
      YearStartMonotone(y + 1, z);
    }
  }

  lemma CyclesOfYear(q: int, c: int, f: int, a: int)
    requires 0 <= c <= 3 && 0 <= f <= 24 && 0 <= a <= 3
    ensures YearStart(400 * q + 100 * c + 4 * f + a + 1) == 146097 * q + 36524 * c + 1461 * f + 365 * a
  {
    var p := 400 * q + 100 * c + 4 * f + a;
    assert p / 4 == 100 * q + 25 * c + f;
    assert p / 100 == 4 * q + c;
    assert p / 400 == q;
  }

  /** Day `e` of the cycle year: only leap years reach day 365. */
  lemma CycleDays(q: int, c: int, f: int, a: int, e: int)
    requires 0 <= c <= 3 && 0 <= f <= 24 && 0 <= a <= 3 && 0 <= e <= 365
    requires e == 365 ==> a == 3 && (f == 24 ==> c == 3)
    ensures var y := 400 * q + 100 * c + 4 * f + a + 1;
            YearStart(y) <= 146097 * q + 36524 * c + 1461 * f + 365 * a + e < YearStart(y + 1)
  {
    hide YearStart;
    var y := 400 * q + 100 * c + 4 * f + a + 1;
    CyclesOfYear(q, c, f, a);
    YearStartStep(y);
    LeapOfCycles(q, c, f, a);
  }

  /** The year of a day is the one whose days include it. */
  lemma YearOfBounds(n: int)
    ensures YearStart(YearOf(n)) <= n < YearStart(YearOf(n) + 1)
  {
    hide YearStart;
    var q, r := n / 146097, n % 146097;
    var c := if r / 36524 == 4 then 3 else r / 36524;
    var r2 := r - 36524 * c;
    var f := r2 / 1461;
    var r3 := r2 - 1461 * f;
    var a := if r3 / 365 == 4 then 3 else r3 / 365;
    CycleDays(q, c, f, a, r3 - 365 * a);
  }

  lemma LeapOfCycles(q: int, c: int, f: int, a: int)
    requires 0 <= c <= 3 && 0 <= f <= 24 && 0 <= a <= 3
    ensures IsLeap(400 * q + 100 * c + 4 * f + a + 1) <==> a == 3 && (f != 24 || c == 3)
  {
    var y := 400 * q + 100 * c + 4 * f + a + 1;
    assert y % 4 == 0 <==> a == 3 by { Mod4(y, 100 * q + 25 * c + f, a + 1); }
    assert y % 100 == 0 <==> f == 24 && a == 3 by { Mod100(y, 4 * q + c, 4 * f + a + 1); }
    assert y % 400 == 0 <==> c == 3 && f == 24 && a == 3 by { Mod400(y, q, 100 * c + 4 * f + a + 1); }
  }

  lemma Mod4(y: int, q: int, r: int)
    requires y == 4 * q + r && 1 <= r <= 4
    ensures y % 4 == 0 <==> r == 4
  {
  }

  lemma Mod100(y: int, q: int, r: int)
    requires y == 100 * q + r && 1 <= r <= 100
    ensures y % 100 == 0 <==> r == 100
  {
  }

  lemma Mod400(y: int, q: int, r: int)
    requires y == 400 * q + r && 1 <= r <= 400
    ensures y % 400 == 0 <==> r == 400
  {
  }

  lemma YearOfIs(n: int, y: int)
    requires YearStart(y) <= n < YearStart(y + 1)
    ensures YearOf(n) == y
  {
    YearOfBounds(n);
    var z := YearOf(n);
    if y < z {
      YearStartMonotone(y + 1, z);
    } else if z < y {
      YearStartMonotone(z + 1, y);
    }
  }

  /** Every day has a date, and the date determines the day. */
  lemma DateOfDay(n: int)
    ensures var d := CivilDate(n); IsDate(d.year, d.month, d.day) && DayNumber(d.year, d.month, d.day) == n
  {
    YearOfBounds(n);
    YearStartStep(YearOf(n));
  }

  /** Every date is the date of its day number. */
  lemma DayOfDate(y: int, m: int, d: int)
    requires IsDate(y, m, d)
    ensures CivilDate(DayNumber(y, m, d)) == Date(y, m, d)
  {
    YearStartStep(y);
    YearOfIs(DayNumber(y, m, d), y);
  }

  // ---- days of the week ----

  /** Zeller's congruence: 0 is Saturday. */
  function Zeller(y: int, m: int, d: int): int
    requires 1 <= m <= 12
  {
    var a, b := if m <= 2 then y - 1 else y, if m <= 2 then m + 12 else m;
    (d + 13 * (b + 1) / 5 + a + a / 4 - a / 100 + a / 400) % 7
  }

  lemma SevenApart(x: int, y: int, k: int)
    requires x == y + 7 * k
    ensures x % 7 == y % 7
  {
  }

  /** January and February count as months of the year before. */
  lemma EarlyMonths(y: int, m: int, d: int)
    requires 1 <= m <= 2
    ensures (DayNumber(y, m, d) + 1) % 7 == (Zeller(y, m, d) + 6) % 7
  {
    var a, b := y - 1, m + 12;
    var z, n := d + 13 * (b + 1) / 5 + a + a / 4 - a / 100 + a / 400, DayNumber(y, m, d);
    var gap := if m == 1 then 42 else 14;
    SevenApart(z + 6, z % 7 + 6, z / 7);
    assert z + 6 == n + 1 + gap - 364 * (y - 1);
    SevenApart(z + 6, n + 1, gap / 7 - 52 * (y - 1));
  }

  /** From March on a day is reached from the end of the year's leap day. */
  lemma LateDay(y: int, m: int, d: int)
    requires 3 <= m <= 12
    ensures DayNumber(y, m, d) == 365 * (y - 1) + y / 4 - y / 100 + y / 400 + MonthStart(false, m) + d - 1
  {
    YearStartStep(y);
    assert MonthStart(IsLeap(y), m) == MonthStart(false, m) + YearLength(y) - 365;
  }

  lemma LateMonths(y: int, m: int, d: int)
    requires 3 <= m <= 12
    ensures (DayNumber(y, m, d) + 1) % 7 == (Zeller(y, m, d) + 6) % 7
  {
    var z, n := d + 13 * (m + 1) / 5 + y + y / 4 - y / 100 + y / 400, DayNumber(y, m, d);
    var gap := 13 * (m + 1) / 5 + 6 - MonthStart(false, m);
    LateDay(y, m, d);
    SevenApart(z + 6, z % 7 + 6, z / 7);
    MonthGap(m);
    hide DayNumber, MonthStart;
    assert z + 6 == n + 1 + gap + 365 - 364 * y;
    SevenApart(z + 6, n + 1, (gap + 365) / 7 - 52 * y);
  }

  /** The weekday of every date is the one Zeller's congruence gives. */
  lemma WeekdayOfDate(y: int, m: int, d: int)
    requires 1 <= m <= 12
    ensures Weekday(DayNumber(y, m, d)) == (Zeller(y, m, d) + 6) % 7
  {
    hide DayNumber, Zeller;
    if m <= 2 {
      EarlyMonths(y, m, d);
    } else {
      LateMonths(y, m, d);
    }
  }

  lemma MonthGap(m: int)
    requires 3 <= m <= 12
    ensures (13 * (m + 1) / 5 + 6 - MonthStart(false, m) + 365) % 7 == 0
  {
  }

  /** The next day has the next weekday, and 1 January 1970 was a Thursday. */
  lemma WeekdaysPass(n: int)
    ensures Weekday(n + 1) == (Weekday(n) + 1) % 7
    ensures DayNumber(1970, 1, 1) == 719162 && Weekday(719162) == 4
  {
  }
}
