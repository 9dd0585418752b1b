/** The proleptic Gregorian calendar, by day numbers counted from 1970. */
module Calendar {
  datatype Date = Date(year: int, month: int, day: int)

  predicate Leap(year: int) {
    year % 4 == 0 && (year % 100 != 0 || year % 400 == 0)
  }

  function MonthLength(year: int, month: int): (n: int)
    ensures 28 <= n <= 31
  {
    if month == 2 then (if Leap(year) then 29 else 28)
    else if month == 4 || month == 6 || month == 9 || month == 11 then 30
    else 31
  }

  predicate ValidDate(d: Date) {
    1 <= d.month <= 12 && 1 <= d.day <= MonthLength(d.year, d.month)
  }

  function YearDays(year: int): (n: int)
    ensures n > 0
  {
    if Leap(year) then 366 else 365
  }

  /** Days from the first day of 1970 to the first day of the given year. */
  function YearStart(year: int): int
    decreases if year < 1970 then 1970 - year else year - 1970
  {
    if year == 1970 then 0
    else if year > 1970 then YearStart(year - 1) + YearDays(year - 1)
    else YearStart(year + 1) - YearDays(year)
  }

  function MonthStart(year: int, month: int): int
    requires 1 <= month <= 13
    decreases month
  {
    if month == 1 then 0 else MonthStart(year, month - 1) + MonthLength(year, month - 1)
  }

  /** Days from the first day of 1970. */
  function DayNumber(d: Date): int
    requires 1 <= d.month <= 12
  {
    YearStart(d.year) + MonthStart(d.year, d.month) + d.day - 1
  }

  lemma YearStep(year: int)
    ensures YearStart(year + 1) == YearStart(year) + YearDays(year)
  {
  }

  lemma MonthStep(year: int, month: int)
    requires 1 <= month <= 12
    ensures MonthStart(year, month + 1) == MonthStart(year, month) + MonthLength(year, month)
  {
  }

  /** The months fill the year. */
  lemma YearLength(year: int)
    ensures MonthStart(year, 13) == YearDays(year)
    ensures YearStart(year + 1) == YearStart(year) + MonthStart(year, 13)
  {
    MonthStep(year, 1);
    MonthStep(year, 2);
    MonthStep(year, 3);
    MonthStep(year, 4);
    MonthStep(year, 5);
    MonthStep(year, 6);
    MonthStep(year, 7);
    MonthStep(year, 8);
    MonthStep(year, 9);
    MonthStep(year, 10);
    MonthStep(year, 11);
    MonthStep(year, 12);
    YearStep(year);
    hide Leap, YearStart;
  }

  lemma {:induction false} YearsAscend(y: int, z: int)
    requires y < z
    ensures YearStart(y + 1) <= YearStart(z)
    decreases z - y
  {
    if y + 1 < z {
      YearsAscend(y, z - 1);
      YearStep(z - 1);
    }
  }

  lemma {:induction false} MonthsAscend(year: int, m: int, n: int)
    requires 1 <= m < n <= 13
    ensures MonthStart(year, m) + MonthLength(year, m) <= MonthStart(year, n)
    decreases n
  {
    if m < n - 1 {
      MonthsAscend(year, m, n - 1);
    }
  }

  predicate Earlier(a: Date, b: Date) {
    a.year < b.year || (a.year == b.year && (a.month < b.month || (a.month == b.month && a.day < b.day)))
  }

  lemma DayNumbersAscend(a: Date, b: Date)
    requires ValidDate(a) && ValidDate(b) && Earlier(a, b)
    ensures DayNumber(a) < DayNumber(b)
  {
    if a.year < b.year {
      YearLength(a.year);
      YearsAscend(a.year, b.year);
      MonthsAscend(a.year, a.month, 13);
      if b.month > 1 { MonthsAscend(b.year, 1, b.month); }
    } else if a.month < b.month {
      MonthsAscend(a.year, a.month, b.month);
    }
  }

  /** A day number belongs to one date only. */
  lemma DayNumberInjective(a: Date, b: Date)
    requires ValidDate(a) && ValidDate(b) && DayNumber(a) == DayNumber(b)
    ensures a == b
  {
    if Earlier(a, b) { DayNumbersAscend(a, b); }
    if Earlier(b, a) { DayNumbersAscend(b, a); }
  }

  function Next(d: Date): (r: Date)
    requires ValidDate(d)
    ensures ValidDate(r)
  {
    if d.day < MonthLength(d.year, d.month) then d.(day := d.day + 1)
    else if d.month < 12 then Date(d.year, d.month + 1, 1)
    else Date(d.year + 1, 1, 1)
  }

  function Previous(d: Date): (r: Date)
    requires ValidDate(d)
    ensures ValidDate(r)
  {
    if d.day > 1 then d.(day := d.day - 1)
    else if d.month > 1 then Date(d.year, d.month - 1, MonthLength(d.year, d.month - 1))
    else Date(d.year - 1, 12, 31)
  }

  lemma NextDay(d: Date)
    requires ValidDate(d)
    ensures DayNumber(Next(d)) == DayNumber(d) + 1
  {
    MonthStep(d.year, d.month);
    hide YearStart, Leap, MonthLength;
    if d.day == MonthLength(d.year, d.month) && d.month == 12 { YearLength(d.year); }
  }

  lemma PreviousDay(d: Date)
    requires ValidDate(d)
    ensures DayNumber(Previous(d)) == DayNumber(d) - 1
  {
    hide YearStart, Leap;
    if d.day == 1 {
      if d.month > 1 {
        MonthStep(d.year, d.month - 1);
      } else {
        YearLength(d.year - 1);
        MonthStep(d.year - 1, 12);
      }
    }
    hide MonthStart;
  }

  /** The date with the given day number, counted out from the epoch. */
  function DateOf(n: int): (d: Date)
    ensures ValidDate(d)
    decreases if n < 0 then -n else n
  {
    if n == 0 then Date(1970, 1, 1) else if n > 0 then Next(DateOf(n - 1)) else Previous(DateOf(n + 1))
  }

  lemma {:induction false} DateOfCounts(n: int)
    ensures DayNumber(DateOf(n)) == n
    decreases if n < 0 then -n else n
  {
    if n > 0 {
      DateOfCounts(n - 1);
      NextDay(DateOf(n - 1));
    } else if n < 0 {
      DateOfCounts(n + 1);
      PreviousDay(DateOf(n + 1));
    }
  }

  lemma DateOfDay(d: Date)
    requires ValidDate(d)
    ensures DateOf(DayNumber(d)) == d
  {
    DateOfCounts(DayNumber(d));
    DayNumberInjective(DateOf(DayNumber(d)), d);
  }

  lemma DaysApart(year: int, month: int, day: int)
    requires 1 <= month <= 12
    ensures DayNumber(Date(year, month, day)) == DayNumber(Date(year, month, 1)) + day - 1
  {
    hide YearStart, MonthStart;
  }

  /** Counting days from the first of a month gives a date of that month within its length. */
  lemma WithinMonth(year: int, month: int, day: int)
    requires 1 <= month <= 12 && 1 <= day <= MonthLength(year, month)
    ensures DateOf(DayNumber(Date(year, month, 1)) + day - 1) == Date(year, month, day)
  {
    hide DayNumber, DateOf, MonthLength;
    DaysApart(year, month, day);
    DateOfDay(Date(year, month, day));
    assert DayNumber(Date(year, month, 1)) + day - 1 == DayNumber(Date(year, month, day));
  }

  /** Past its length the month or the day differs. */
  lemma PastMonth(year: int, month: int, day: int)
    requires 1 <= month <= 12 && day > MonthLength(year, month)
    ensures var d := DateOf(DayNumber(Date(year, month, 1)) + day - 1);
            d.month != month || d.day != day
  {
    var n := DayNumber(Date(year, month, 1)) + day - 1;
    var d := DateOf(n);
    DateOfCounts(n);
    if d.month == month && d.day == day {
      DaysApart(d.year, month, day);
      assert ValidDate(Date(d.year, month, 1)) && ValidDate(Date(year, month, 1));
      assert d == Date(d.year, month, day);
      DayNumberInjective(Date(d.year, month, 1), Date(year, month, 1));
      assert false;
    }
  }

  /** Counting past the end of a month is noticed by looking at month and day alone. */
  lemma OverflowShows(year: int, month: int, day: int)
    requires 1 <= month <= 12 && 1 <= day
    ensures var d := DateOf(DayNumber(Date(year, month, 1)) + day - 1);
            && (d.month == month && d.day == day <==> day <= MonthLength(year, month))
            && (day <= MonthLength(year, month) ==> d == Date(year, month, day))
  {
    if day <= MonthLength(year, month) {
      WithinMonth(year, month, day);
    } else {
      PastMonth(year, month, day);
    }
    hide DayNumber, DateOf, MonthLength;
  }
}
