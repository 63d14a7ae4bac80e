/** The two birthday-window queries of the repository, written as the code
    has them, and a reference predicate ("the next birthday is at most n
    days away") that they are compared with. `today` is a parameter. */
module Birthdays {
  import opened Wrappers
  import opened Text
  import opened Calendar
  import opened Contacts

  /** The window both queries use when called without one. */
  const DefaultDaysRange: int := 7

  /** `date.strftime("%m-%d")`, and `to_char(birthday, 'MM-DD')` in the database. */
  function MonthDay(d: CalendarDate): string {
    MonthDayText(d.month, d.day)
  }

  /** (month, day) order, the year left aside. */
  predicate MonthDayLe(a: Date, b: Date) {
    a.month < b.month || (a.month == b.month && a.day <= b.day)
  }

  /** `x BETWEEN lo AND hi` on text: inclusive at both ends, false whenever lo > hi. */
  predicate Between(x: string, lo: string, hi: string) {
    LexLe(lo, x) && LexLe(x, hi)
  }

  /** Between on "MM-DD" strings is between on (month, day) pairs. */
  lemma BetweenMonthDays(lo: CalendarDate, hi: CalendarDate)
    ensures forall x: CalendarDate :: Between(MonthDay(x), MonthDay(lo), MonthDay(hi)) <==> MonthDayLe(lo, x) && MonthDayLe(x, hi)
  {
    forall x: CalendarDate
      ensures Between(MonthDay(x), MonthDay(lo), MonthDay(hi)) <==> MonthDayLe(lo, x) && MonthDayLe(x, hi)
    {
      MonthDayTextOrder(lo.month, lo.day, x.month, x.day);
      MonthDayTextOrder(x.month, x.day, hi.month, hi.day);
    }
  }

  // ---------------------------------------------------------------------
  // next_week_birthdays

  /** The filter of `next_week_birthdays`: owned, and the "MM-DD" of the
      birthday between the two period strings. */
  predicate InNextWeekWindow(c: Contact, userId: int, startPeriod: string, endPeriod: string) {
    OwnedBy(c, userId) && Between(MonthDay(c.birthday), startPeriod, endPeriod)
  }

  function NextWeekBirthdays(s: seq<Contact>, userId: int, today: CalendarDate, daysRange: int): (r: Result<seq<Contact>, Failure>)
    ensures r.Err? <==> AddDays(today, daysRange).None?
    ensures r.Err? ==> r.error == OverflowError
    ensures r.Ok? ==> forall c :: c in r.value <==>
      && c in s && OwnedBy(c, userId)
      && MonthDayLe(today, c.birthday) && MonthDayLe(c.birthday, AddDays(today, daysRange).value)
  {
    match AddDays(today, daysRange)
    case None => Err(OverflowError)
    case Some(endDate) =>
      var startPeriod := MonthDay(today);
      var endPeriod := MonthDay(endDate);
      BetweenMonthDays(today, endDate);
      Ok(Select(s, c => InNextWeekWindow(c, userId, startPeriod, endPeriod)))
  }

  /** A window that runs past 31 December into January selects nothing at
      all: its start "12-dd" sorts after its end "01-dd". */
  lemma NextWeekYearEndEmpty(s: seq<Contact>, userId: int, today: CalendarDate, daysRange: int)
    requires today.month == 12 && today.year < MaxYear
    requires 31 < today.day + daysRange <= 62
    ensures NextWeekBirthdays(s, userId, today, daysRange) == Ok([])
  {
    AddDaysAcrossYearEnd(today, daysRange);
    var endDate := Date(today.year + 1, 1, today.day + daysRange - 31);
    var startPeriod, endPeriod := MonthDay(today), MonthDay(endDate);
    BetweenMonthDays(today, endDate);
    SelectNone(s, c => InNextWeekWindow(c, userId, startPeriod, endPeriod));
  }

  // ---------------------------------------------------------------------
  // get_week_birthdays

  /** The filter of `get_week_birthdays`, clause for clause. */
  predicate InWeekWindow(c: Contact, userId: int, today: CalendarDate, endDate: CalendarDate) {
    (c.birthday.day >= today.day && c.birthday.month == today.month && OwnedBy(c, userId))
    || (c.birthday.day <= endDate.day && c.birthday.month == endDate.month && OwnedBy(c, userId))
  }

  function WeekBirthdays(s: seq<Contact>, userId: int, today: CalendarDate, days: int): (r: Result<seq<Contact>, Failure>)
    ensures r.Err? <==> AddDays(today, days).None?
    ensures r.Err? ==> r.error == OverflowError
    ensures r.Ok? ==> forall c :: c in r.value <==> c in s && InWeekWindow(c, userId, today, AddDays(today, days).value)
  {
    match AddDays(today, days)
    case None => Err(OverflowError)
    case Some(endDate) => Ok(Select(s, c => InWeekWindow(c, userId, today, endDate)))
  }

  /** Only the months of today and of the end date are ever matched. */
  lemma WeekWindowMonths(c: Contact, userId: int, today: CalendarDate, endDate: CalendarDate)
    requires InWeekWindow(c, userId, today, endDate)
    ensures OwnedBy(c, userId)
    ensures c.birthday.month == today.month || c.birthday.month == endDate.month
  {
  }

  /** When the window does not leave the current month, the two clauses
      together match every owned contact born in that month, whatever the day. */
  lemma WeekSameMonthWholeMonth(today: CalendarDate, days: int, endDate: CalendarDate)
    requires 0 <= days
    requires AddDays(today, days) == Some(endDate)
    requires endDate.year == today.year && endDate.month == today.month
    ensures forall c: Contact, userId: int :: InWeekWindow(c, userId, today, endDate) <==> OwnedBy(c, userId) && c.birthday.month == today.month
  {
    AddDaysSameMonth(today, days, endDate);
  }

  // ---------------------------------------------------------------------
  // Reference: days until the next birthday

  /** The birthday's month and day in year y; 29 February falls on
      28 February in a common year. */
  function InYear(b: CalendarDate, y: int): (d: Date)
    requires MinYear <= y
    ensures IsProleptic(d) && d.year == y && d.month == b.month
    ensures b.day <= DaysInMonth(y, b.month) ==> d.day == b.day
  {
    Date(y, b.month, if b.day <= DaysInMonth(y, b.month) then b.day else DaysInMonth(y, b.month))
  }

  /** Days from today to the next occurrence of the birthday (0 if it is today). */
  function DaysUntilBirthday(today: CalendarDate, b: CalendarDate): (n: int)
    ensures 0 <= n
  {
    var thisYear := InYear(b, today.year);
    if ToOrdinal(thisYear) >= ToOrdinal(today) then ToOrdinal(thisYear) - ToOrdinal(today)
    else
      var nextYear := InYear(b, today.year + 1);
      DayOfYearBounds(today);
      DayOfYearBounds(nextYear);
      NextYear(today.year);
      ToOrdinal(nextYear) - ToOrdinal(today)
  }

  /** Two years differ in the days before a month only by the leap day, and
      only for months after February. */
  lemma {:induction false} DaysBeforeMonthAcrossYears(y1: int, y2: int, m: int)
    requires 1 <= m <= 12
    ensures DaysBeforeMonth(y1, m) - DaysBeforeMonth(y2, m)
         == if m <= 2 then 0 else (if IsLeapYear(y1) then 1 else 0) - (if IsLeapYear(y2) then 1 else 0)
  {
    if m > 1 {
      DaysBeforeMonthAcrossYears(y1, y2, m - 1);
    }
  }

  /** The next birthday is never more than a year away. */
  lemma DaysUntilBirthdayWithinYear(today: CalendarDate, b: CalendarDate)
    ensures DaysUntilBirthday(today, b) <= DaysInYear(today.year)
  {
    var y := today.year;
    var thisYear := InYear(b, y);
    DayOfYearBounds(today);
    DayOfYearBounds(thisYear);
    if ToOrdinal(thisYear) < ToOrdinal(today) {
      var nextYear := InYear(b, y + 1);
      NextYear(y);
      DaysBeforeMonthAcrossYears(y + 1, y, b.month);
    }
  }

  /** The reference query: owned contacts whose next birthday is at most n days away. */
  function UpcomingBirthdays(s: seq<Contact>, userId: int, today: CalendarDate, days: int): (r: seq<Contact>)
    ensures forall c :: c in r <==> c in s && OwnedBy(c, userId) && DaysUntilBirthday(today, c.birthday) <= days
  {
    Select(s, c => OwnedBy(c, userId) && DaysUntilBirthday(today, c.birthday) <= days)
  }

  /** For a window that stays inside the current year, the reference matches
      exactly the birthdays whose (month, day) lies between today's and the
      end date's. */
  lemma ReferenceWithinYear(today: CalendarDate, days: int, endDate: CalendarDate, b: CalendarDate)
    requires 0 <= days
    requires AddDays(today, days) == Some(endDate)
    requires endDate.year == today.year
    requires b.day <= DaysInMonth(today.year, b.month)
    ensures DaysUntilBirthday(today, b) <= days <==> MonthDayLe(today, b) && MonthDayLe(b, endDate)
  {
    var y := today.year;
    var thisYear := Date(y, b.month, b.day);
    assert InYear(b, y) == thisYear;
    OrdinalOrder(today, thisYear);
    OrdinalOrder(thisYear, endDate);
    if ToOrdinal(thisYear) < ToOrdinal(today) {
      var nextYear := InYear(b, y + 1);
      DayOfYearBounds(endDate);
      DayOfYearBounds(nextYear);
      NextYear(y);
    }
  }

  /** Where no birthday on 29 February is involved and the window stays in
      the current year, next_week_birthdays returns what the reference does. */
  lemma NextWeekAgreesWithinYear(s: seq<Contact>, userId: int, today: CalendarDate, days: int, endDate: CalendarDate)
    requires 0 <= days
    requires AddDays(today, days) == Some(endDate)
    requires endDate.year == today.year
    requires forall c :: c in s ==> c.birthday.day <= DaysInMonth(today.year, c.birthday.month)
    ensures NextWeekBirthdays(s, userId, today, days) == Ok(UpcomingBirthdays(s, userId, today, days))
  {
    var startPeriod, endPeriod := MonthDay(today), MonthDay(endDate);
    BetweenMonthDays(today, endDate);
    forall c | c in s
      ensures InNextWeekWindow(c, userId, startPeriod, endPeriod) == (OwnedBy(c, userId) && DaysUntilBirthday(today, c.birthday) <= days)
    {
      ReferenceWithinYear(today, days, endDate, c.birthday);
    }
    SelectSame(s, c => InNextWeekWindow(c, userId, startPeriod, endPeriod),
                  c => OwnedBy(c, userId) && DaysUntilBirthday(today, c.birthday) <= days);
  }

  /** In the same-month case the reference collapses to one range of days;
      get_week_birthdays instead matches the whole month. */
  lemma ReferenceSameMonth(today: CalendarDate, days: int, endDate: CalendarDate, b: CalendarDate)
    requires 0 <= days
    requires AddDays(today, days) == Some(endDate)
    requires endDate.year == today.year && endDate.month == today.month
    requires b.day <= DaysInMonth(today.year, b.month)
    ensures DaysUntilBirthday(today, b) <= days <==> b.month == today.month && today.day <= b.day <= endDate.day
  {
    ReferenceWithinYear(today, days, endDate, b);
  }

  // ---------------------------------------------------------------------
  // Concrete cases

  /** today = 2023-12-28, window 7: the reference includes 01-02 and 12-28
      and excludes 12-20 and 01-05. */
  lemma ReferenceYearEnd(b: CalendarDate)
    ensures var today := Date(2023, 12, 28);
      && (b.month == 1 && b.day == 2 ==> DaysUntilBirthday(today, b) == 5)
      && (b.month == 12 && b.day == 28 ==> DaysUntilBirthday(today, b) == 0)
      && (b.month == 12 && b.day == 20 ==> DaysUntilBirthday(today, b) == 358)
      && (b.month == 1 && b.day == 5 ==> DaysUntilBirthday(today, b) == 8)
  {
    if b.month == 1 {
      assert InYear(b, 2023) == Date(2023, 1, b.day);
      assert InYear(b, 2024) == Date(2024, 1, b.day);
    } else if b.month == 12 {
      assert InYear(b, 2023) == Date(2023, 12, b.day);
      assert InYear(b, 2024) == Date(2024, 12, b.day);
    }
  }

  /** today = 2023-06-01, window 5: the reference includes 06-03 and excludes 06-10. */
  lemma ReferenceEarlyJune(b: CalendarDate)
    ensures var today := Date(2023, 6, 1);
      && (b.month == 6 && b.day == 3 ==> DaysUntilBirthday(today, b) == 2)
      && (b.month == 6 && b.day == 10 ==> DaysUntilBirthday(today, b) == 9)
  {
    if b.month == 6 {
      assert InYear(b, 2023) == Date(2023, 6, b.day);
    }
  }

  /** next_week_birthdays on 2023-12-28 misses a birthday on 2 January. */
  lemma NextWeekMissesNewYear(c: Contact, userId: int)
    requires OwnedBy(c, userId) && c.birthday.month == 1 && c.birthday.day == 2
    ensures NextWeekBirthdays([c], userId, Date(2023, 12, 28), DefaultDaysRange) == Ok([])
    ensures UpcomingBirthdays([c], userId, Date(2023, 12, 28), DefaultDaysRange) == [c]
  {
    NextWeekYearEndEmpty([c], userId, Date(2023, 12, 28), DefaultDaysRange);
    ReferenceYearEnd(c.birthday);
  }

  /** get_week_birthdays on 2023-06-01 with a 5-day window returns a
      birthday on 10 June, nine days away. */
  lemma WeekIncludesLaterInMonth(c: Contact, userId: int)
    requires OwnedBy(c, userId) && c.birthday.month == 6 && c.birthday.day == 10
    ensures WeekBirthdays([c], userId, Date(2023, 6, 1), 5) == Ok([c])
    ensures UpcomingBirthdays([c], userId, Date(2023, 6, 1), 5) == []
  {
    var today, endDate := Date(2023, 6, 1), Date(2023, 6, 6);
    AddDaysIs(today, 5, endDate);
    assert InWeekWindow(c, userId, today, endDate);
    assert Select([c], x => InWeekWindow(x, userId, today, endDate)) == [c];
    ReferenceEarlyJune(c.birthday);
    assert UpcomingBirthdays([c], userId, today, 5) == [] by {
      var r := UpcomingBirthdays([c], userId, today, 5);
      assert c !in r;
    }
  }

  /** get_week_birthdays on 2023-01-31 with a 30-day window (ending 2023-03-02)
      skips February entirely. */
  lemma WeekSkipsMiddleMonth(c: Contact, userId: int)
    requires OwnedBy(c, userId) && c.birthday.month == 2 && c.birthday.day == 15
    ensures WeekBirthdays([c], userId, Date(2023, 1, 31), 30) == Ok([])
    ensures UpcomingBirthdays([c], userId, Date(2023, 1, 31), 30) == [c]
  {
    AddDaysIs(Date(2023, 1, 31), 30, Date(2023, 3, 2));
    assert DaysUntilBirthday(Date(2023, 1, 31), c.birthday) == 15;
  }
}
