/** The proleptic Gregorian calendar as Python's `datetime.date` has it:
    years 1 to 9999, day number ("ordinal") 1 is 0001-01-01, and
    `date + timedelta(days=n)` is the date whose ordinal is n more, or an
    OverflowError when that ordinal falls outside the representable range. */
module Calendar {
  import opened Wrappers

  const MinYear: int := 1
  const MaxYear: int := 9999
  /** The ordinal of 9999-12-31, the last representable date. */
  const MaxOrdinal: int := 3652059

  datatype Date = Date(year: int, month: int, day: int)

  predicate IsLeapYear(y: int) {
    y % 4 == 0 && (y % 100 != 0 || y % 400 == 0)
  }

  function DaysInYear(y: int): int {
    if IsLeapYear(y) then 366 else 365
  }

  function DaysInMonth(y: int, m: int): int
    requires 1 <= m <= 12
  {
    if m == 2 then (if IsLeapYear(y) then 29 else 28)
    else if m == 4 || m == 6 || m == 9 || m == 11 then 30
    else 31
  }

  /** Number of days of year y that lie in the months before month m. */
  function DaysBeforeMonth(y: int, m: int): (n: int)
    requires 1 <= m <= 12
    ensures 0 <= n
  {
    if m == 1 then 0 else DaysBeforeMonth(y, m - 1) + DaysInMonth(y, m - 1)
  }

  /** Number of days in the years 1 .. y-1 (closed form, as in Python's datetime). */
  function DaysBeforeYear(y: int): int {
    var p := y - 1;
    p * 365 + p / 4 - p / 100 + p / 400
  }

  /** A well-formed date from year 1 on, without the upper bound on the year. */
  predicate IsProleptic(d: Date) {
    MinYear <= d.year && 1 <= d.month <= 12 && 1 <= d.day <= DaysInMonth(d.year, d.month)
  }

  /** A date `datetime.date` can represent. */
  predicate IsValid(d: Date) {
    IsProleptic(d) && d.year <= MaxYear
  }

  type CalendarDate = d: Date | IsValid(d) witness Date(1, 1, 1)

  /** `date.toordinal()`. */
  function ToOrdinal(d: Date): int
    requires 1 <= d.month <= 12
  {
    DaysBeforeYear(d.year) + DaysBeforeMonth(d.year, d.month) + d.day
  }

  /** Chronological order: year, then month, then day. */
  predicate Before(a: Date, b: Date) {
    a.year < b.year
    || (a.year == b.year && a.month < b.month)
    || (a.year == b.year && a.month == b.month && a.day < b.day)
  }

  // ---------------------------------------------------------------------
  // Facts about month and year lengths

  lemma YearLength(y: int)
    ensures DaysBeforeMonth(y, 12) + DaysInMonth(y, 12) == DaysInYear(y)
  {
    assert DaysBeforeMonth(y, 2) == 31;
    assert DaysBeforeMonth(y, 3) == 31 + DaysInMonth(y, 2);
    assert DaysBeforeMonth(y, 4) == DaysBeforeMonth(y, 3) + 31;
    assert DaysBeforeMonth(y, 5) == DaysBeforeMonth(y, 4) + 30;
    assert DaysBeforeMonth(y, 6) == DaysBeforeMonth(y, 5) + 31;
    assert DaysBeforeMonth(y, 7) == DaysBeforeMonth(y, 6) + 30;
    assert DaysBeforeMonth(y, 8) == DaysBeforeMonth(y, 7) + 31;
    assert DaysBeforeMonth(y, 9) == DaysBeforeMonth(y, 8) + 31;
    assert DaysBeforeMonth(y, 10) == DaysBeforeMonth(y, 9) + 30;
    assert DaysBeforeMonth(y, 11) == DaysBeforeMonth(y, 10) + 31;
    assert DaysBeforeMonth(y, 12) == DaysBeforeMonth(y, 11) + 30;
  }

  lemma NextYear(y: int)
    requires y >= MinYear
    ensures DaysBeforeYear(y + 1) == DaysBeforeYear(y) + DaysInYear(y)
  {
    Step4(y);
    Step100(y);
    Step400(y);
    var a, b, c := y / 4 - (y - 1) / 4, y / 100 - (y - 1) / 100, y / 400 - (y - 1) / 400;
    CenturyDivisibility(y);
    assert a - b + c == if IsLeapYear(y) then 1 else 0;
  }

  lemma CenturyDivisibility(y: int)
    ensures y % 100 == 0 ==> y % 4 == 0
    ensures y % 400 == 0 ==> y % 100 == 0
  {
    if y % 100 == 0 {
      var q := y / 100;
      assert y == 4 * (25 * q);
    }
    if y % 400 == 0 {
      var q := y / 400;
      assert y == 100 * (4 * q);
    }
  }

  lemma Step4(y: int)
    ensures y / 4 - (y - 1) / 4 == if y % 4 == 0 then 1 else 0
  {
  }

  lemma Step100(y: int)
    ensures y / 100 - (y - 1) / 100 == if y % 100 == 0 then 1 else 0
  {
  }

  lemma Step400(y: int)
    ensures y / 400 - (y - 1) / 400 == if y % 400 == 0 then 1 else 0
  {
  }

  lemma {:induction false} MonthsBefore(y: int, m1: int, m2: int)
    requires 1 <= m1 < m2 <= 12
    ensures DaysBeforeMonth(y, m1) + DaysInMonth(y, m1) <= DaysBeforeMonth(y, m2)
    decreases m2
  {
    if m1 < m2 - 1 {
      MonthsBefore(y, m1, m2 - 1);
    }
  }

  lemma {:induction false} YearsBefore(y1: int, y2: int)
    requires MinYear <= y1 < y2
    ensures DaysBeforeYear(y1) + DaysInYear(y1) <= DaysBeforeYear(y2)
    decreases y2 - y1
  {
    NextYear(y1);
    if y1 < y2 - 1 {
      YearsBefore(y1 + 1, y2);
    }
  }

  /** The position of a date inside its year lies between 1 and the year's length. */
  lemma DayOfYearBounds(d: Date)
    requires IsProleptic(d)
    ensures 1 <= DaysBeforeMonth(d.year, d.month) + d.day <= DaysInYear(d.year)
  {
    YearLength(d.year);
    if d.month < 12 {
      MonthsBefore(d.year, d.month, 12);
    }
  }

  // ---------------------------------------------------------------------
  // Ordinals respect chronological order

  lemma OrdinalMonotone(a: Date, b: Date)
    requires IsProleptic(a) && IsProleptic(b)
    requires Before(a, b)
    ensures ToOrdinal(a) < ToOrdinal(b)
  {
    if a.year < b.year {
      DayOfYearBounds(a);
      DayOfYearBounds(b);
      YearsBefore(a.year, b.year);
    } else if a.month < b.month {
      MonthsBefore(a.year, a.month, b.month);
    }
  }

  /** Ordinals order dates exactly as the calendar does. */
  lemma OrdinalOrder(a: Date, b: Date)
    requires IsProleptic(a) && IsProleptic(b)
    ensures Before(a, b) <==> ToOrdinal(a) < ToOrdinal(b)
    ensures a == b <==> ToOrdinal(a) == ToOrdinal(b)
  {
    if Before(a, b) {
      OrdinalMonotone(a, b);
    } else if Before(b, a) {
      OrdinalMonotone(b, a);
    }
  }

  // ---------------------------------------------------------------------
  // From ordinals back to dates (`date.fromordinal`)

  /** The date that is day k of month m of year y, counting on into later months. */
  function DateInMonth(y: int, m: int, k: int): (d: Date)
    requires MinYear <= y && 1 <= m <= 12
    requires 1 <= k <= DaysInYear(y) - DaysBeforeMonth(y, m)
    ensures IsProleptic(d) && d.year == y && m <= d.month
    ensures DaysBeforeMonth(y, d.month) + d.day == DaysBeforeMonth(y, m) + k
    decreases 12 - m
  {
    YearLength(y);
    if k <= DaysInMonth(y, m) then Date(y, m, k)
    else DateInMonth(y, m + 1, k - DaysInMonth(y, m))
  }

  /** The date that is day k of year y, counting on into later years. */
  function DateInYear(y: int, k: int): (d: Date)
    requires MinYear <= y && 1 <= k
    ensures IsProleptic(d) && y <= d.year
    ensures ToOrdinal(d) == DaysBeforeYear(y) + k
    decreases k
  {
    if k <= DaysInYear(y) then DateInMonth(y, 1, k)
    else
      NextYear(y);
      DateInYear(y + 1, k - DaysInYear(y))
  }

  /** `date.fromordinal(n)`, without the upper bound on the year. */
  function FromOrdinal(n: int): (d: Date)
    requires 1 <= n
    ensures IsProleptic(d) && ToOrdinal(d) == n
  {
    DateInYear(MinYear, n)
  }

  lemma FromOrdinalToOrdinal(d: Date)
    requires IsProleptic(d)
    ensures ToOrdinal(d) >= 1
    ensures FromOrdinal(ToOrdinal(d)) == d
  {
    DayOfYearBounds(d);
    if d.year > MinYear {
      YearsBefore(MinYear, d.year);
    }
    OrdinalOrder(FromOrdinal(ToOrdinal(d)), d);
  }

  /** The representable dates are exactly those with ordinals 1 .. MaxOrdinal. */
  lemma OrdinalRange(d: Date)
    requires IsProleptic(d)
    ensures IsValid(d) <==> ToOrdinal(d) <= MaxOrdinal
  {
    FromOrdinalToOrdinal(d);
    var last := Date(MaxYear, 12, 31);
    assert ToOrdinal(last) == MaxOrdinal;
    if IsValid(d) {
      if d != last {
        OrdinalOrder(d, last);
      }
    } else {
      OrdinalOrder(last, d);
    }
  }

  // ---------------------------------------------------------------------
  // date + timedelta(days=n)

  /** `d + timedelta(days=n)`: None stands for Python's OverflowError. */
  function AddDays(d: CalendarDate, n: int): (r: Option<CalendarDate>)
    ensures r.Some? ==> ToOrdinal(r.value) == ToOrdinal(d) + n
    ensures r.None? <==> forall e: CalendarDate :: ToOrdinal(e) != ToOrdinal(d) + n
  {
    var o := ToOrdinal(d) + n;
    if 1 <= o <= MaxOrdinal then
      OrdinalRange(FromOrdinal(o));
      Some(FromOrdinal(o))
    else
      AddDaysOutOfRange(o);
      None
  }

  lemma AddDaysOutOfRange(o: int)
    requires !(1 <= o <= MaxOrdinal)
    ensures forall e: CalendarDate :: ToOrdinal(e) != o
  {
    forall e: CalendarDate
      ensures ToOrdinal(e) != o
    {
      FromOrdinalToOrdinal(e);
      OrdinalRange(e);
    }
  }

  /** A representable date whose ordinal is n more than d's is d + n days. */
  lemma AddDaysIs(d: CalendarDate, n: int, e: CalendarDate)
    requires ToOrdinal(e) == ToOrdinal(d) + n
    ensures AddDays(d, n) == Some(e)
  {
    var r := AddDays(d, n);
    assert r.Some?;
    OrdinalOrder(r.value, e);
  }

  /** Adding days within one month only moves the day. */
  lemma AddDaysSameMonth(d: CalendarDate, n: int, e: CalendarDate)
    requires AddDays(d, n) == Some(e)
    requires e.year == d.year && e.month == d.month
    ensures e.day == d.day + n
  {
  }

  /** Crossing 31 December: for a window that ends in January, the end date is in the next year. */
  lemma AddDaysAcrossYearEnd(d: CalendarDate, n: int)
    requires d.month == 12 && d.year < MaxYear
    requires 31 < d.day + n <= 62
    ensures AddDays(d, n) == Some(Date(d.year + 1, 1, d.day + n - 31))
  {
    var e := Date(d.year + 1, 1, d.day + n - 31);
    NextYear(d.year);
    YearLength(d.year);
    AddDaysIs(d, n, e);
  }
}
