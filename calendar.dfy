/** Calendar arithmetic of the habit tracker: month names and the number of
    days in a month, as the JavaScript Date object computes it. Months are
    0-based throughout (0 = January, 11 = December). */
module Calendar {

  datatype Option<T> = None | Some(value: T)

  /** The month names, indexed by 0-based month number. */
  const MonthNames: seq<string> :=
    ["January", "February", "March", "April", "May", "June", "July",
     "August", "September", "October", "November", "December"]

  /** monthToStr: indexing the name table; an index outside it yields
      JavaScript's `undefined`, modelled as None. */
  function MonthToStr(month: int): (r: Option<string>)
    ensures r.Some? <==> 0 <= month < 12
    ensures r.Some? ==> r.value in MonthNames && |r.value| >= 3
  {
    if 0 <= month < |MonthNames| then Some(MonthNames[month]) else None
  }

  /** Different months get different names, so the name identifies the month. */
  lemma MonthToStrInjective(m1: int, m2: int)
    requires MonthToStr(m1).Some? && MonthToStr(m1) == MonthToStr(m2)
    ensures m1 == m2
  {
  }

  /** The Date constructor reads a year 0..99 as 1900..1999. */
  function FullYear(year: int): int
  {
    if 0 <= year <= 99 then 1900 + year else year
  }

  /** The Gregorian leap-year rule (Date uses the proleptic Gregorian calendar). */
  predicate IsLeapYear(y: int)
  {
    y % 4 == 0 && (y % 100 != 0 || y % 400 == 0)
  }

  /** Length of month m (0..11) of year y in the Gregorian calendar. */
  function MonthLength(m: int, y: int): int
    requires 0 <= m < 12
  {
    if m == 1 then (if IsLeapYear(y) then 29 else 28)
    else if m == 3 || m == 5 || m == 8 || m == 10 then 30
    else 31
  }

  /** getDaysInMonth(month, year) = new Date(year, month + 1, 0).getDate():
      the constructor carries a month outside 0..11 into the year, and day 0
      of the following month is the last day of the month asked about. */
  function DaysInMonth(month: int, year: int): (r: int)
    ensures 28 <= r <= 31
  {
    var y := FullYear(year) + (month + 1) / 12;
    var m := (month + 1) % 12;
    if m == 0 then MonthLength(11, y - 1) else MonthLength(m - 1, y)
  }

  /** For any month number, the result is the length of that month once the
      month number has been carried into the year. */
  lemma DaysInMonthNormalised(month: int, year: int)
    ensures DaysInMonth(month, year) == MonthLength(month % 12, FullYear(year) + month / 12)
  {
  }

  /** With a month in range and a four-digit year the result is the plain
      Gregorian month length; February has 29 days exactly in leap years. */
  lemma DaysInMonthGregorian(month: int, year: int)
    requires 0 <= month < 12 && !(0 <= year <= 99)
    ensures DaysInMonth(month, year) == MonthLength(month, year)
    ensures month == 1 ==> (DaysInMonth(month, year) == 29 <==> IsLeapYear(year))
    ensures month != 1 ==> DaysInMonth(month, year) >= 30
  {
  }

  /** Days in the first n months of year y, as getDaysInMonth counts them. */
  function DaysBefore(n: nat, year: int): int
    requires n <= 12
  {
    if n == 0 then 0 else DaysBefore(n - 1, year) + DaysInMonth(n - 1, year)
  }

  /** Partner of DaysInMonth: the twelve months of a year add up to the
      Gregorian year length, 366 days in a leap year and 365 otherwise. */
  lemma YearLength(year: int)
    ensures DaysBefore(12, year) == if IsLeapYear(FullYear(year)) then 366 else 365
  {
    forall m | 0 <= m < 12
      ensures DaysInMonth(m, year) == MonthLength(m, FullYear(year))
    {
      DaysInMonthNormalised(m, year);
      assert m / 12 == 0 && m % 12 == m;
    }
    // the first day of each month, counted from the start of the year
    var leap := if IsLeapYear(FullYear(year)) then 1 else 0;
    assert DaysBefore(1, year) == 31;
    assert DaysBefore(2, year) == 59 + leap;
    assert DaysBefore(3, year) == 90 + leap;
    assert DaysBefore(4, year) == 120 + leap;
    assert DaysBefore(6, year) == 181 + leap;
    assert DaysBefore(8, year) == 243 + leap;
    assert DaysBefore(10, year) == 304 + leap;
  }
}
