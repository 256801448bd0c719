/** gmtime and mktime: 32-bit seconds since 1970 to broken-down Gregorian time and back. */
module Calendar {
  import opened Words

  const DAYS_OF_MONTH: seq<int> := [31, 28, 31, 30, 31, 30, 31, 31, 30, 31, 30, 31]

  /** Fields as in struct tm: mon counts from 0, year from 1900. */
  datatype Tm = Tm(sec: int, min: int, hour: int, mday: int, mon: int, year: int, wday: int, yday: int)

  predicate IsLeapYear(year: int) {
    if year % 100 == 0 then year % 400 == 0 else year % 4 == 0
  }

  function DaysOfYear(year: int): (d: nat)
    ensures 365 <= d <= 366
  {
    if IsLeapYear(year) then 366 else 365
  }

  function DaysOfMonth(month: int, year: int): (d: nat)
    requires 0 <= month < 12
    ensures 28 <= d <= 31
  {
    if month == 1 && IsLeapYear(year) then 29 else DAYS_OF_MONTH[month]
  }

  /** Days from 1970-01-01 to the first day of the year. */
  ghost function YearStart(year: int): (d: nat)
    requires 1970 <= year
    ensures 365 * (year - 1970) <= d <= 366 * (year - 1970)
    decreases year
  {
    if year == 1970 then 0 else YearStart(year - 1) + DaysOfYear(year - 1)
  }

  /** Days from the first day of the year to the first day of the month. */
  ghost function MonthStart(month: int, year: int): (d: nat)
    requires 0 <= month <= 12
    decreases month
  {
    if month == 0 then 0 else MonthStart(month - 1, year) + DaysOfMonth(month - 1, year)
  }

  lemma TwelveMonthsAreAYear(year: int)
    ensures MonthStart(12, year) == DaysOfYear(year)
  {
    assert MonthStart(3, year) == 59 + DaysOfMonth(1, year) - 28 + 31;
    assert MonthStart(6, year) == MonthStart(3, year) + 91;
    assert MonthStart(9, year) == MonthStart(6, year) + 92;
    assert MonthStart(12, year) == MonthStart(9, year) + 92;
  }

  lemma {:induction false} MonthsAscend(m: int, m': int, year: int)
    requires 0 <= m < m' <= 12
    ensures MonthStart(m, year) + DaysOfMonth(m, year) <= MonthStart(m', year)
    decreases m'
  {
    if m + 1 < m' {
      MonthsAscend(m, m' - 1, year);
    }
  }

  lemma {:induction false} YearsAscend(y: int, y': int)
    requires 1970 <= y < y'
    ensures YearStart(y) + DaysOfYear(y) <= YearStart(y')
    decreases y'
  {
    if y + 1 < y' {
      YearsAscend(y, y' - 1);
    }
  }

  /** A date and time that exists, from 1970 on. */
  predicate Exists(tm: Tm) {
    && 70 <= tm.year && 0 <= tm.mon < 12 && 1 <= tm.mday <= DaysOfMonth(tm.mon, 1900 + tm.year)
    && 0 <= tm.hour < 24 && 0 <= tm.min < 60 && 0 <= tm.sec < 60
  }

  ghost function DayNumber(tm: Tm): (d: nat)
    requires Exists(tm)
  {
    YearStart(1900 + tm.year) + MonthStart(tm.mon, 1900 + tm.year) + (tm.mday - 1)
  }

  ghost function Seconds(tm: Tm): (t: nat)
    requires Exists(tm)
  {
    ((DayNumber(tm) * 24 + tm.hour) * 60 + tm.min) * 60 + tm.sec
  }

  /** tm is what gmtime must produce for t. */
  ghost predicate Represents(tm: Tm, t: int) {
    && Exists(tm) && Seconds(tm) == t
    && tm.wday == (DayNumber(tm) + 4) % 7
    && tm.yday == MonthStart(tm.mon, 1900 + tm.year) + tm.mday - 1
  }

  lemma RepresentsMeans(tm: Tm, t: int)
    requires Represents(tm, t)
    ensures Exists(tm) && Seconds(tm) == t
  {
  }

  /** The order of the six date and time fields, most significant first. */
  predicate Before(a: Tm, b: Tm) {
    a.year < b.year || (a.year == b.year &&
    (a.mon < b.mon || (a.mon == b.mon &&
    (a.mday < b.mday || (a.mday == b.mday &&
    (a.hour < b.hour || (a.hour == b.hour &&
    (a.min < b.min || (a.min == b.min && a.sec < b.sec)))))))))
  }

  predicate SameFields(a: Tm, b: Tm) {
    (a.year, a.mon, a.mday, a.hour, a.min, a.sec) == (b.year, b.mon, b.mday, b.hour, b.min, b.sec)
  }

  lemma DayWithinYear(tm: Tm)
    requires Exists(tm)
    ensures MonthStart(tm.mon, 1900 + tm.year) + (tm.mday - 1) < DaysOfYear(1900 + tm.year)
    ensures DayNumber(tm) < YearStart(1901 + tm.year)
  {
    TwelveMonthsAreAYear(1900 + tm.year);
    MonthsAscend(tm.mon, 12, 1900 + tm.year);
  }

  lemma DaysAscend(a: Tm, b: Tm)
    requires Exists(a) && Exists(b)
    requires a.year < b.year || (a.year == b.year && (a.mon < b.mon || (a.mon == b.mon && a.mday < b.mday)))
    ensures DayNumber(a) < DayNumber(b)
  {
    hide YearStart, IsLeapYear, DaysOfMonth, DaysOfYear;
    if a.year < b.year {
      DayWithinYear(a);
      YearsAscend(1900 + a.year, 1900 + b.year);
    } else if a.mon < b.mon {
      MonthsAscend(a.mon, b.mon, 1900 + a.year);
    }
  }

  /** The seconds count is strictly increasing in the fields, taken lexicographically. */
  lemma SecondsAscend(a: Tm, b: Tm)
    requires Exists(a) && Exists(b)
    ensures Before(a, b) <==> Seconds(a) < Seconds(b)
    ensures SameFields(a, b) <==> Seconds(a) == Seconds(b)
  {
    if Before(a, b) {
      BeforeIsLess(a, b);
    } else if Before(b, a) {
      BeforeIsLess(b, a);
    }
  }

  lemma BeforeIsLess(a: Tm, b: Tm)
    requires Exists(a) && Exists(b) && Before(a, b)
    ensures Seconds(a) < Seconds(b)
  {
    var da, db := DayNumber(a), DayNumber(b);
    if (a.year, a.mon, a.mday) != (b.year, b.mon, b.mday) {
      DaysAscend(a, b);
      assert da + 1 <= db;
    }
  }

  /** A time lies in or after a year exactly when its seconds reach the start of that year. */
  lemma YearReached(tm: Tm, year: int)
    requires Exists(tm) && 1970 <= year
    ensures year <= 1900 + tm.year <==> YearStart(year) * 86400 <= Seconds(tm)
  {
    hide YearStart, MonthStart, DaysOfYear;
    var d, y := DayNumber(tm), 1900 + tm.year;
    DayWithinYear(tm);
    if y + 1 < year {
      YearsAscend(y + 1, year);
    } else if year < y {
      YearsAscend(year, y);
    }
    assert d * 86400 <= Seconds(tm) < (d + 1) * 86400;
  }

  // ---------- the weekday, against an independent rule ----------

  /** Leap years among the years 1 to y. */
  function LeapsUpTo(y: int): int {
    y / 4 - y / 100 + y / 400
  }

  lemma {:induction false} YearStartClosed(year: int)
    requires 1970 <= year
    ensures YearStart(year) == 365 * (year - 1970) + LeapsUpTo(year - 1) - LeapsUpTo(1969)
    decreases year
  {
    if year > 1970 {
      YearStartClosed(year - 1);
      OneMoreLeap(year - 1);
    }
  }

  lemma OneMoreLeap(y: int)
    ensures LeapsUpTo(y) == LeapsUpTo(y - 1) + if IsLeapYear(y) then 1 else 0
  {
    Quotient(y, 4);
    Quotient(y, 100);
    Quotient(y, 400);
    Multiples(y);
  }

  lemma Multiples(y: int)
    ensures y % 400 == 0 ==> y % 100 == 0
    ensures y % 100 == 0 ==> y % 4 == 0
  {
    FourDividesHundred(y / 100);
    HundredDividesFourHundred(y / 400);
  }

  lemma FourDividesHundred(q: int)
    ensures 100 * q % 4 == 0
  {
    assert 100 * q == 4 * (25 * q);
  }

  lemma HundredDividesFourHundred(q: int)
    ensures 400 * q % 100 == 0
  {
    assert 400 * q == 100 * (4 * q);
  }

  lemma Quotient(y: int, k: int)
    requires k == 4 || k == 100 || k == 400
    ensures y / k == (y - 1) / k + if y % k == 0 then 1 else 0
  {
  }

  const MONTH_SHIFT: seq<int> := [0, 3, 2, 5, 0, 3, 5, 1, 4, 6, 2, 4]

  /** The day of the week by the usual table rule, in which January and February belong to the year before. */
  function WeekdayByRule(year: int, month: int, day: int): int
    requires 0 <= month < 12
  {
    var y := if month < 2 then year - 1 else year;
    (y + y / 4 - y / 100 + y / 400 + MONTH_SHIFT[month] + day) % 7
  }

  lemma WeekdayAgrees(tm: Tm, t: int)
    requires Represents(tm, t)
    ensures tm.wday == WeekdayByRule(1900 + tm.year, tm.mon, tm.mday)
  {
    hide YearStart, MonthStart, IsLeapYear, DaysOfMonth;
    var year := 1900 + tm.year;
    YearStartClosed(year);
    OneMoreLeap(year);
    var y := if tm.mon < 2 then year - 1 else year;
    MonthShifts(tm.mon, year);
    assert LeapsUpTo(1969) == 477;
    var a := DayNumber(tm) + 4;
    var b := y + LeapsUpTo(y) + MONTH_SHIFT[tm.mon] + tm.mday;
    SameRemainder(a, b, 52 * (year - 1970) - 349 + MONTH_WEEKS[tm.mon]);
  }

  const MONTH_WEEKS: seq<int> := [0, 4, 8, 12, 17, 21, 25, 30, 34, 38, 43, 47]

  lemma MonthShifts(month: int, year: int)
    requires 0 <= month < 12
    ensures MonthStart(month, year) - (if month < 2 then 0 else if IsLeapYear(year) then 2 else 1)
         == MONTH_SHIFT[month] + 7 * MONTH_WEEKS[month]
  {
    assert MonthStart(2, year) == 31 + DaysOfMonth(1, year);
    assert MonthStart(4, year) == MonthStart(2, year) + 61;
    assert MonthStart(6, year) == MonthStart(4, year) + 61;
    assert MonthStart(8, year) == MonthStart(6, year) + 62;
    assert MonthStart(10, year) == MonthStart(8, year) + 61;
  }

  lemma SameRemainder(a: int, b: int, k: int)
    requires a == b + 7 * k
    ensures a % 7 == b % 7
  {
  }

  // ---------- the two functions ----------

  /** What mktime answers. */
  ghost function MktimeResult(tm: Tm): int {
    if Exists(tm) && tm.year <= 139 then Seconds(tm) else -1
  }

  const END_OF_2039: int := 25567 * 86400

  lemma EndOf2039()
    ensures YearStart(2040) == 25567
  {
    hide YearStart;
    YearStartClosed(2040);
  }

  /** mktime undoes gmtime exactly for the times before 2040. */
  lemma MktimeUndoesGmtimeIff(tm: Tm, t: word)
    requires Represents(tm, t)
    ensures MktimeResult(tm) == t <==> t < END_OF_2039
  {
    EndOf2039();
    YearReached(tm, 2040);
  }

  /** gmtime undoes mktime: all six fields come back, for every tm that mktime accepts. */
  lemma GmtimeUndoesMktime(tm: Tm, tm': Tm)
    requires MktimeResult(tm) != -1 && Represents(tm', MktimeResult(tm))
    ensures SameFields(tm', tm)
  {
    SecondsAscend(tm, tm');
  }

  /** gmtime is strictly increasing, so one time has one representation. */
  lemma GmtimeAscends(a: Tm, t: int, b: Tm, u: int)
    requires Represents(a, t) && Represents(b, u)
    ensures t < u <==> Before(a, b)
    ensures t == u <==> a == b
  {
    hide Exists, Seconds, Represents;
    RepresentsMeans(a, t);
    RepresentsMeans(b, u);
    SecondsAscend(a, b);
    if SameFields(a, b) {
      SameDay(a, t, b, u);
    }
  }

  lemma SameDay(a: Tm, t: int, b: Tm, u: int)
    requires Represents(a, t) && Represents(b, u) && SameFields(a, b)
    ensures a == b
  {
    hide YearStart, MonthStart, Exists, Seconds;
  }

  class Clock {
    var tm: Tm

    method Gmtime(timer: int) returns (ok: bool)
      modifies this
      ensures ok == (0 <= timer < 0x1_0000_0000)
      ensures if ok then Represents(tm, timer) else tm == old(tm)
    {
      hide IsLeapYear, DaysOfYear, DaysOfMonth, Represents;
      if timer < 0 || timer > 0xFFFF_FFFF {
        return false;
      }
      var time: word := timer;
      tm := tm.(sec := time % 60);
      time := time / 60;
      tm := tm.(min := time % 60);
      time := time / 60;
      tm := tm.(hour := time % 24);
      time := time / 24;
      ghost var day := time;
      tm := tm.(wday := (time + 4) % 7);

      ghost var tm1 := tm;
      var year := 1970;
      while time >= DaysOfYear(year)
        invariant 1970 <= year && time + YearStart(year) == day && tm == tm1
        decreases time
      {
        time := time - DaysOfYear(year);
        year := year + 1;
      }
      tm := tm.(year := year - 1900, yday := time);

      TwelveMonthsAreAYear(year);
      ghost var tm2 := tm;
      ghost var yday := time;
      var month := 0;
      while time >= DaysOfMonth(month, year)
        invariant 0 <= month < 12 && time + MonthStart(month, year) == yday && tm == tm2
        decreases time
      {
        time := time - DaysOfMonth(month, year);
        month := month + 1;
      }
      tm := tm.(mon := month, mday := time + 1);
      Assembled(tm, timer, day);
      return true;
    }
  }

  lemma Assembled(tm: Tm, t: nat, day: nat)
    requires day == t / 60 / 60 / 24 && tm.hour == t / 60 / 60 % 24 && tm.min == t / 60 % 60 && tm.sec == t % 60
    requires 70 <= tm.year && 0 <= tm.mon < 12 && 1 <= tm.mday <= DaysOfMonth(tm.mon, 1900 + tm.year)
    requires YearStart(1900 + tm.year) + tm.yday == day && MonthStart(tm.mon, 1900 + tm.year) + tm.mday - 1 == tm.yday
    requires tm.wday == (day + 4) % 7
    ensures Represents(tm, t)
  {
    assert DayNumber(tm) == day;
    HoursMinutesSeconds(t);
  }

  lemma HoursMinutesSeconds(t: nat)
    ensures ((t / 60 / 60 / 24 * 24 + t / 60 / 60 % 24) * 60 + t / 60 % 60) * 60 + t % 60 == t
  {
  }

  /** The sum is a uint32 throughout: that every intermediate value is a word is part of what is proved here. */
  method Mktime(tm: Tm) returns (time: int)
    ensures time == MktimeResult(tm)
  {
    hide IsLeapYear, DaysOfYear, DaysOfMonth;
    if tm.year < 70 || tm.year > 139 {
      return -1;
    }
    var targetYear := 1900 + tm.year;
    var result: word := 0;
    for year := 1970 to targetYear
      invariant result == YearStart(year)
    {
      result := result + DaysOfYear(year);
    }
    if tm.mon < 0 || tm.mon > 11 {
      return -1;
    }
    for month := 0 to tm.mon
      invariant result == YearStart(targetYear) + MonthStart(month, targetYear) <= 25620 + 31 * month
    {
      result := result + DaysOfMonth(month, targetYear);
    }
    if tm.mday < 1 || tm.mday > DaysOfMonth(tm.mon, targetYear) {
      return -1;
    }
    result := result + (tm.mday - 1);
    result := result * 24;
    if tm.hour < 0 || tm.hour > 23 {
      return -1;
    }
    result := result + tm.hour;
    result := result * 60;
    if tm.min < 0 || tm.min > 59 {
      return -1;
    }
    result := result + tm.min;
    result := result * 60;
    if tm.sec < 0 || tm.sec > 59 {
      return -1;
    }
    result := result + tm.sec;
    return result;
  }
}
