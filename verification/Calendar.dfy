/**
 * Day numbers and calendar dates as section 21.4.1 of ECMA-262 defines them, in UTC. Everything
 * but the leap-year rule itself holds for any leap-year rule, and is proved that way.
 */
module Calendar {

  /** A calendar date; months run from 1 to 12. */
  datatype Date = Date(year: int, month: int, day: int)

  /** The days of a common year before a month; 13 stands for the year's end. */
  function CommonDaysBefore(m: int): int
    requires 1 <= m <= 13
  {
    if m == 1 then 0 else if m == 2 then 31 else if m == 3 then 59 else if m == 4 then 90
    else if m == 5 then 120 else if m == 6 then 151 else if m == 7 then 181 else if m == 8 then 212
    else if m == 9 then 243 else if m == 10 then 273 else if m == 11 then 304 else if m == 12 then 334 else 365
  }

  /** The calendar order, year then month then day. */
  predicate Earlier(a: Date, b: Date)
  {
    a.year < b.year || (a.year == b.year && (a.month < b.month || (a.month == b.month && a.day < b.day)))
  }

  /** A date's month counted from the beginning of year 0. */
  function MonthIndex(d: Date): int { 12 * d.year + d.month - 1 }

  /** A day of the month with a given index. */
  function InMonth(index: int, day: int): (d: Date)
    ensures 1 <= d.month <= 12 && MonthIndex(d) == index && d.day == day
  {
    Date(index / 12, index % 12 + 1, day)
  }

  lemma SameMonth(d: Date)
    requires 1 <= d.month <= 12
    ensures InMonth(MonthIndex(d), d.day) == d
  {
  }

  /** Month m counted from 0 is the month after month m counted from 1. */
  lemma MonthAfter(y: int, m: int, day: int)
    requires 1 <= m <= 12
    ensures InMonth(12 * y + m, day) == if m == 12 then Date(y + 1, 1, day) else Date(y, m + 1, day)
  {
    SameMonth(if m == 12 then Date(y + 1, 1, day) else Date(y, m + 1, day));
  }

  function Clamp(day: int, last: int): int { if day <= last then day else last }

  /** A calendar with some rule for which years are leap years. */
  datatype Rule = Rule(leap: int -> bool) {

    function LeapDay(y: int): int { if leap(y) then 1 else 0 }

    function DaysInMonth(m: int, y: int): (n: int)
      requires 1 <= m <= 12
      ensures 28 <= n <= 31
    {
      if m == 2 then 28 + LeapDay(y)
      else if m == 4 || m == 6 || m == 9 || m == 11 then 30
      else 31
    }

    predicate IsDate(d: Date) { 1 <= d.month <= 12 && 1 <= d.day <= DaysInMonth(d.month, d.year) }

    /** The day number of 1 January, counting whole years from 1970. */
    function DayFromYear(y: int): int
      decreases if y >= 1970 then y - 1970 else 1970 - y
    {
      if y == 1970 then 0
      else if y > 1970 then DayFromYear(y - 1) + 365 + LeapDay(y - 1)
      else DayFromYear(y + 1) - 365 - LeapDay(y)
    }

    function DaysBefore(m: int, y: int): int
      requires 1 <= m <= 13
    {
      CommonDaysBefore(m) + if m > 2 then LeapDay(y) else 0
    }

    function DayNumber(d: Date): int
      requires 1 <= d.month <= 12
    {
      DayFromYear(d.year) + DaysBefore(d.month, d.year) + d.day - 1
    }

    // ---- Years ----

    lemma YearLength(y: int)
      ensures DayFromYear(y + 1) == DayFromYear(y) + 365 + LeapDay(y)
    {
    }

    lemma {:induction false} YearsApart(y: int, z: int)
      requires y <= z
      ensures DayFromYear(y) + 365 * (z - y) <= DayFromYear(z)
      decreases z - y
    {
      if y < z {
        YearLength(y);
        YearsApart(y + 1, z);
      }
    }

    function YearAfter(t: int, y: int): (r: int)
      requires DayFromYear(y) <= t
      ensures DayFromYear(r) <= t < DayFromYear(r + 1)
      decreases t - DayFromYear(y)
    {
      YearLength(y);
      if t < DayFromYear(y + 1) then y else YearAfter(t, y + 1)
    }

    function YearBefore(t: int, y: int): (r: int)
      requires t < DayFromYear(y + 1)
      ensures DayFromYear(r) <= t < DayFromYear(r + 1)
      decreases DayFromYear(y + 1) - t
    {
      YearLength(y);
      if DayFromYear(y) <= t then y else YearBefore(t, y - 1)
    }

    /** The year a day falls in. */
    function YearOf(t: int): (y: int)
      ensures DayFromYear(y) <= t < DayFromYear(y + 1)
    {
      if t >= DayFromYear(1970) then YearAfter(t, 1970) else YearBefore(t, 1969)
    }

    lemma YearIsUnique(t: int, y: int, z: int)
      requires DayFromYear(y) <= t < DayFromYear(y + 1) && DayFromYear(z) <= t < DayFromYear(z + 1)
      ensures y == z
    {
      if y < z {
        YearsApart(y + 1, z);
      } else if z < y {
        YearsApart(z + 1, y);
      }
    }

    // ---- Months ----

    lemma MonthLength(m: int, y: int)
      requires 1 <= m <= 12
      ensures DaysBefore(m + 1, y) == DaysBefore(m, y) + DaysInMonth(m, y)
    {
    }

    /** The month a day of the year falls in, looking from month m on. */
    function MonthFrom(y: int, n: int, m: int): (r: int)
      requires 1 <= m <= 12 && DaysBefore(m, y) <= n < DaysBefore(13, y)
      ensures 1 <= r <= 12 && DaysBefore(r, y) <= n < DaysBefore(r + 1, y)
      decreases 12 - m
    {
      if n < DaysBefore(m + 1, y) then m else MonthFrom(y, n, m + 1)
    }

    lemma {:induction false} MonthsApart(y: int, m: int, k: int)
      requires 1 <= m <= k <= 13
      ensures DaysBefore(m, y) <= DaysBefore(k, y)
      decreases k - m
    {
      if m < k {
        MonthLength(m, y);
        MonthsApart(y, m + 1, k);
      }
    }

    lemma MonthIsUnique(y: int, n: int, m: int, k: int)
      requires 1 <= m <= 12 && 1 <= k <= 12
      requires DaysBefore(m, y) <= n < DaysBefore(m + 1, y) && DaysBefore(k, y) <= n < DaysBefore(k + 1, y)
      ensures m == k
    {
      if m < k {
        MonthsApart(y, m + 1, k);
      } else if k < m {
        MonthsApart(y, k + 1, m);
      }
    }

    // ---- Dates and day numbers determine each other ----

    /** The date of a day number. */
    function DateOf(t: int): (d: Date)
      ensures IsDate(d) && DayNumber(d) == t
    {
      var y := YearOf(t);
      YearLength(y);
      var n := t - DayFromYear(y);
      var m := MonthFrom(y, n, 1);
      MonthLength(m, y);
      Date(y, m, n - DaysBefore(m, y) + 1)
    }

    lemma WithinYear(d: Date)
      requires IsDate(d)
      ensures DayFromYear(d.year) <= DayNumber(d) < DayFromYear(d.year + 1)
      ensures DaysBefore(d.month, d.year) <= DayNumber(d) - DayFromYear(d.year) < DaysBefore(d.month + 1, d.year)
    {
      MonthLength(d.month, d.year);
      MonthsApart(d.year, d.month + 1, 13);
      MonthsApart(d.year, 1, d.month);
      YearLength(d.year);
    }

    /** Two dates with one day number are one date. */
    lemma SameDay(d: Date, e: Date)
      requires IsDate(d) && IsDate(e) && DayNumber(d) == DayNumber(e)
      ensures d == e
    {
      var t := DayNumber(d);
      WithinYear(d);
      WithinYear(e);
      YearIsUnique(t, d.year, e.year);
      MonthIsUnique(d.year, t - DayFromYear(d.year), d.month, e.month);
    }

    /** A day number has only one date. */
    lemma DateIsUnique(d: Date)
      requires IsDate(d)
      ensures DateOf(DayNumber(d)) == d
    {
      SameDay(d, DateOf(DayNumber(d)));
    }

    lemma EarlierIsLess(a: Date, b: Date)
      requires IsDate(a) && IsDate(b) && Earlier(a, b)
      ensures DayNumber(a) < DayNumber(b)
    {
      WithinYear(a);
      WithinYear(b);
      if a.year < b.year {
        YearsApart(a.year + 1, b.year);
      } else if a.month < b.month {
        MonthsApart(a.year, a.month + 1, b.month);
      }
    }

    /** Chronological order is the order of day numbers. */
    lemma OrderIsChronological(a: Date, b: Date)
      requires IsDate(a) && IsDate(b)
      ensures Earlier(a, b) <==> DayNumber(a) < DayNumber(b)
    {
      if Earlier(a, b) {
        EarlierIsLess(a, b);
      } else if Earlier(b, a) {
        EarlierIsLess(b, a);
      }
    }

    // ---- Setting days and months ----

    /** The day number of a date given by any month (from 0) and any day of the month. */
    function MakeDay(year: int, month: int, day: int): int
    {
      DayNumber(InMonth(12 * year + month, day))
    }

    /** setUTCDate: the same month, another day of it. */
    function SetDate(t: int, day: int): int
    {
      MakeDay(DateOf(t).year, DateOf(t).month - 1, day)
    }

    /** setUTCMonth: another month, the same day of the month. */
    function SetMonth(t: int, month: int): int
    {
      MakeDay(DateOf(t).year, month, DateOf(t).day)
    }

    lemma SetDateOn(d: Date, day: int)
      requires IsDate(d)
      ensures SetDate(DayNumber(d), day) == DayNumber(d) + day - d.day
    {
      DateIsUnique(d);
      SameMonth(Date(d.year, d.month, day));
    }

    lemma SetMonthOn(d: Date, month: int)
      requires IsDate(d)
      ensures SetMonth(DayNumber(d), month) == DayNumber(InMonth(12 * d.year + month, d.day))
    {
      DateIsUnique(d);
    }

    /** Day 0 of the next month is the last day of this one. */
    lemma DayZero(y: int, m: int)
      requires 1 <= m <= 12
      ensures MakeDay(y, m, 0) == DayNumber(Date(y, m, DaysInMonth(m, y)))
    {
      MonthLength(m, y);
      MonthAfter(y, m, 0);
      YearLength(y);
    }

    /** The same day of another month, or that month's last day. */
    function AddMonths(d: Date, months: int): (r: Date)
      requires IsDate(d)
      ensures IsDate(r) && MonthIndex(r) == MonthIndex(d) + months
      ensures r.day == Clamp(d.day, DaysInMonth(r.month, r.year))
    {
      var first := InMonth(MonthIndex(d) + months, 1);
      Date(first.year, first.month, Clamp(d.day, DaysInMonth(first.month, first.year)))
    }

    /** Adding months keeps dates in order, and more months never land earlier. */
    lemma AddMonthsMonotone(a: Date, b: Date, m: int, n: int)
      requires IsDate(a) && IsDate(b) && !Earlier(b, a) && m <= n
      ensures !Earlier(AddMonths(b, n), AddMonths(a, m))
    {
      var r, s := AddMonths(a, m), AddMonths(b, n);
      assert MonthIndex(a) <= MonthIndex(b);
      assert MonthIndex(r) <= MonthIndex(s);
      if MonthIndex(r) == MonthIndex(s) {
        assert r.year == s.year && r.month == s.month;
        assert MonthIndex(a) == MonthIndex(b) && a.year == b.year && a.month == b.month;
      }
    }
  }

  // ---- The real rule ----

  predicate IsLeapYear(y: int) { y % 4 == 0 && (y % 100 != 0 || y % 400 == 0) }

  const GREGORIAN: Rule := Rule(IsLeapYear)

  /** The formula of section 21.4.1.3 of ECMA-262 for the day number of 1 January. */
  function DayFromYearFormula(y: int): int
  {
    365 * (y - 1970) + (y - 1969) / 4 - (y - 1901) / 100 + (y - 1601) / 400
  }

  lemma Step4(y: int)
    ensures (y - 1968) / 4 - (y - 1969) / 4 == if y % 4 == 0 then 1 else 0
  {
  }

  lemma Step100(y: int)
    ensures (y - 1900) / 100 - (y - 1901) / 100 == if y % 100 == 0 then 1 else 0
  {
  }

  lemma Step400(y: int)
    ensures (y - 1600) / 400 - (y - 1601) / 400 == if y % 400 == 0 then 1 else 0
  {
  }

  lemma Centuries(y: int)
    ensures y % 400 == 0 ==> y % 100 == 0
    ensures y % 100 == 0 ==> y % 4 == 0
  {
  }

  lemma FormulaSteps(y: int)
    ensures DayFromYearFormula(y + 1) == DayFromYearFormula(y) + 365 + if IsLeapYear(y) then 1 else 0
  {
    Step4(y);
    Step100(y);
    Step400(y);
    Centuries(y);
  }

  /** Counting years up from 1970 comes to the standard's formula, before 1970 as well as after. */
  lemma {:induction false} DayFromYearIsFormula(y: int)
    ensures GREGORIAN.DayFromYear(y) == DayFromYearFormula(y)
    decreases if y >= 1970 then y - 1970 else 1970 - y
  {
    if y > 1970 {
      DayFromYearIsFormula(y - 1);
      FormulaSteps(y - 1);
    } else if y < 1970 {
      DayFromYearIsFormula(y + 1);
      FormulaSteps(y);
    }
  }

  /** The days of a year that begins in March before month m of it, counted from 0. */
  function DaysFromMarch(m: int): int { (153 * m + 2) / 5 }

  /** A date's day number by a formula over years that begin in March, so that leap days fall at the end. */
  function CivilDayNumber(d: Date): int
  {
    var y := if d.month <= 2 then d.year - 1 else d.year;
    var m := if d.month <= 2 then d.month + 9 else d.month - 3;
    365 * y + y / 4 - y / 100 + y / 400 + DaysFromMarch(m) + d.day - 1 - 719468
  }

  lemma DaysFromMarchValues(m: int)
    requires 1 <= m <= 12
    ensures m <= 2 ==> DaysFromMarch(m + 9) == 306 + CommonDaysBefore(m)
    ensures m > 2 ==> DaysFromMarch(m - 3) == CommonDaysBefore(m) - 59
  {
  }

  lemma YearStart(y: int)
    ensures DayFromYearFormula(y) == 365 * (y - 1) + (y - 1) / 4 - (y - 1) / 100 + (y - 1) / 400 - 719162
  {
    assert (y - 1969) / 4 == (y - 1) / 4 - 492;
    assert (y - 1901) / 100 == (y - 1) / 100 - 19;
    assert (y - 1601) / 400 == (y - 1) / 400 - 4;
  }

  /** Every real date has the day number that formula gives it. */
  lemma DayNumberIsCivil(d: Date)
    requires GREGORIAN.IsDate(d)
    ensures GREGORIAN.DayNumber(d) == CivilDayNumber(d)
  {
    DayFromYearIsFormula(d.year);
    DaysFromMarchValues(d.month);
    YearStart(d.year);
    if d.month > 2 {
      FormulaSteps(d.year);
      YearStart(d.year + 1);
    }
  }

  /** A Date object holding one day, changed in place by its setters. */
  class UtcDate {
    const rule: Rule
    var t: int

    constructor (rule: Rule, d: Date)
      requires rule.IsDate(d)
      ensures this.rule == rule && t == rule.DayNumber(d)
    {
      this.rule := rule;
      t := rule.DayNumber(d);
    }

    method SetUtcDate(day: int, ghost d: Date)
      requires rule.IsDate(d) && t == rule.DayNumber(d)
      modifies this
      ensures t == old(t) + day - d.day
      ensures t == rule.DayNumber(Date(d.year, d.month, day))
    {
      rule.SetDateOn(d, day);
      t := rule.SetDate(t, day);
    }

    method SetUtcMonth(month: int, ghost d: Date)
      requires rule.IsDate(d) && t == rule.DayNumber(d)
      modifies this
      ensures t == rule.DayNumber(InMonth(12 * d.year + month, d.day))
    {
      rule.SetMonthOn(d, month);
      t := rule.SetMonth(t, month);
    }

    /** The date the object shows. */
    method Show(ghost d: Date) returns (shown: Date)
      requires rule.IsDate(d) && t == rule.DayNumber(d)
      ensures shown == d
    {
      rule.DateIsUnique(d);
      shown := rule.DateOf(t);
    }
  }

  /** The last day of a month, read off day 0 of the next. */
  method LastDay(rule: Rule, y: int, m: int) returns (last: int)
    requires 1 <= m <= 12
    ensures last == rule.DaysInMonth(m, y)
  {
    rule.DayZero(y, m);
    rule.DateIsUnique(Date(y, m, rule.DaysInMonth(m, y)));
    last := rule.DateOf(rule.MakeDay(y, m, 0)).day;
  }

  /** Adding days the source's way: move the day of the month by as many. */
  method MoveDays(rule: Rule, from: Date, days: int) returns (to: Date)
    requires rule.IsDate(from)
    ensures rule.IsDate(to) && rule.DayNumber(to) == rule.DayNumber(from) + days
  {
    var d := new UtcDate(rule, from);
    var shown := d.Show(from);
    d.SetUtcDate(shown.day + days, from);
    to := d.Show(rule.DateOf(d.t));
  }

  /** Adding months the source's way: go to the first, move the month, clamp the day. */
  method MoveMonths(rule: Rule, from: Date, months: int) returns (to: Date)
    requires rule.IsDate(from)
    ensures to == rule.AddMonths(from, months)
  {
    var d := new UtcDate(rule, from);
    var shown := d.Show(from);
    var day := shown.day;
    ghost var first, r := Date(from.year, from.month, 1), rule.AddMonths(from, months);
    d.SetUtcDate(1, from);
    shown := d.Show(first);
    d.SetUtcMonth(shown.month - 1 + months, first);
    ghost var target := Date(r.year, r.month, 1);
    shown := d.Show(target);
    var last := LastDay(rule, shown.year, shown.month);
    d.SetUtcDate(Clamp(day, last), target);
    to := d.Show(r);
  }
}
