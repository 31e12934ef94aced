/** Dates of the proleptic Gregorian calendar (section 3.2.1 of ISO 8601:2004) in range. */
module Dates {
  import opened Results

  const MIN_YEAR: int := -262143
  const MAX_YEAR: int := 262142

  datatype Date = Date(year: int, month: int, day: int)

  const MIN_DATE := Date(MIN_YEAR, 1, 1)

  predicate IsLeap(year: int) {
    year % 4 == 0 && (year % 100 != 0 || year % 400 == 0)
  }

  function DaysInMonth(year: int, month: int): int {
    if month == 2 then (if IsLeap(year) then 29 else 28)
    else if month == 4 || month == 6 || month == 9 || month == 11 then 30
    else 31
  }

  predicate InRange(d: Date) {
    MIN_YEAR <= d.year <= MAX_YEAR && 1 <= d.month <= 12 && 1 <= d.day <= DaysInMonth(d.year, d.month)
  }

  function FromYmd(year: int, month: int, day: int): Option<Date> {
    if InRange(Date(year, month, day)) then Some(Date(year, month, day)) else None
  }

  predicate Before(a: Date, b: Date) {
    a.year < b.year || (a.year == b.year && (a.month < b.month || (a.month == b.month && a.day < b.day)))
  }

  predicate NotAfter(a: Date, b: Date) { !Before(b, a) }

  /** One month later, on the last day of that month when it has no such day. */
  function AddMonth(d: Date): Option<Date> {
    var (year, month) := if d.month == 12 then (d.year + 1, 1) else (d.year, d.month + 1);
    var last := DaysInMonth(year, month);
    FromYmd(year, month, if d.day <= last then d.day else last)
  }

  function NextDay(d: Date): Option<Date> {
    if d.day < DaysInMonth(d.year, d.month) then FromYmd(d.year, d.month, d.day + 1)
    else if d.month < 12 then FromYmd(d.year, d.month + 1, 1)
    else FromYmd(d.year + 1, 1, 1)
  }

  function PreviousDay(d: Date): Option<Date> {
    if d.day > 1 then FromYmd(d.year, d.month, d.day - 1)
    else if d.month > 1 then FromYmd(d.year, d.month - 1, DaysInMonth(d.year, d.month - 1))
    else FromYmd(d.year - 1, 12, 31)
  }

  function AddDays(d: Date, n: nat): Option<Date>
    decreases n
  {
    if n == 0 then Some(d)
    else
      match NextDay(d)
      case Some(next) => AddDays(next, n - 1)
      case None => None
  }

  /** The next day is the least date after this one, and only the last date has none. */
  lemma NextDayLeast(d: Date)
    requires InRange(d)
    ensures NextDay(d).Some? ==> InRange(NextDay(d).value) && Before(d, NextDay(d).value)
    ensures NextDay(d).Some? ==> forall e | InRange(e) && Before(d, e) :: NotAfter(NextDay(d).value, e)
    ensures NextDay(d).None? ==> forall e | InRange(e) :: NotAfter(e, d)
  {
  }

  /** The previous day undoes the next day; only the first date has none. */
  lemma PreviousDayInverse(d: Date)
    requires InRange(d)
    ensures PreviousDay(d).None? <==> d == MIN_DATE
    ensures PreviousDay(d).Some? ==> InRange(PreviousDay(d).value) && NextDay(PreviousDay(d).value) == Some(d)
  {
  }

  lemma {:induction false} AddDaysLater(d: Date, n: nat)
    requires InRange(d)
    ensures AddDays(d, n).Some? ==> InRange(AddDays(d, n).value)
    ensures AddDays(d, n).Some? && n > 0 ==> Before(d, AddDays(d, n).value)
    decreases n
  {
    if n > 0 {
      NextDayLeast(d);
      if NextDay(d).Some? {
        AddDaysLater(NextDay(d).value, n - 1);
      }
    }
  }

  // ---------------------------------------------------------------------------------------------
  // Counting days
  // ---------------------------------------------------------------------------------------------

  /** The days before a year that starts in March. */
  function YearStart(y: int): int { 365 * y + y / 4 - y / 100 + y / 400 }

  /** The days of such a year before its `m`-th month: months have 30.6 days. */
  function MonthStart(m: int): int { (306 * m + 5) / 10 }

  /** The days of a date since 1 March of year 0. */
  function DayNumber(d: Date): int {
    if d.month <= 2 then YearStart(d.year - 1) + MonthStart(d.month + 9) + d.day - 1
    else YearStart(d.year) + MonthStart(d.month - 3) + d.day - 1
  }

  lemma YearLength(y: int)
    ensures YearStart(y) - YearStart(y - 1) == 365 + if IsLeap(y) then 1 else 0
  {
    assert y / 4 - (y - 1) / 4 == if y % 4 == 0 then 1 else 0;
    assert y / 100 - (y - 1) / 100 == if y % 100 == 0 then 1 else 0;
    assert y / 400 - (y - 1) / 400 == if y % 400 == 0 then 1 else 0;
  }

  lemma MonthLength(year: int, month: int)
    requires 1 <= month < 12 && month != 2
    ensures var m := if month == 1 then 10 else month - 3;
            MonthStart(m + 1) - MonthStart(m) == DaysInMonth(year, month)
  {
  }

  lemma NextMonthNumber(d: Date)
    requires InRange(d) && NextDay(d).Some? && d.day == DaysInMonth(d.year, d.month)
    ensures DayNumber(NextDay(d).value) == DayNumber(d) + 1
  {
    if d.month == 2 {
      YearLength(d.year);
      assert NextDay(d).value == Date(d.year, 3, 1);
    } else if d.month < 12 {
      MonthLength(d.year, d.month);
      assert NextDay(d).value == Date(d.year, d.month + 1, 1);
    } else {
      assert NextDay(d).value == Date(d.year + 1, 1, 1);
    }
  }

  /** The number rises by one from day to day. */
  lemma NextDayNumber(d: Date)
    requires InRange(d) && NextDay(d).Some?
    ensures DayNumber(NextDay(d).value) == DayNumber(d) + 1
  {
    if d.day == DaysInMonth(d.year, d.month) {
      NextMonthNumber(d);
    } else {
      assert NextDay(d).value == Date(d.year, d.month, d.day + 1);
    }
  }

  lemma {:induction false} AddDaysNumber(d: Date, n: nat)
    requires InRange(d) && AddDays(d, n).Some?
    ensures DayNumber(AddDays(d, n).value) == DayNumber(d) + n
    decreases n
  {
    if n > 0 {
      NextDayLeast(d);
      NextDayNumber(d);
      AddDaysNumber(NextDay(d).value, n - 1);
    }
  }

  /** An upper bound on the steps from a date to the end of the calendar. */
  function StepsLeft(d: Date): int { ((MAX_YEAR - d.year) * 12 + 12 - d.month) * 31 + 31 - d.day }

  /** Every later date is some number of days ahead. */
  lemma {:induction false} DaysBetween(d: Date, e: Date) returns (n: nat)
    requires InRange(d) && InRange(e) && NotAfter(d, e)
    ensures AddDays(d, n) == Some(e)
    decreases StepsLeft(d)
  {
    if d == e {
      n := 0;
    } else {
      NextDayLeast(d);
      assert Before(d, e);
      n := DaysBetween(NextDay(d).value, e);
      n := n + 1;
    }
  }

  /** Later dates have greater numbers. */
  lemma DayNumberRises(d: Date, e: Date)
    requires InRange(d) && InRange(e)
    ensures Before(d, e) <==> DayNumber(d) < DayNumber(e)
    ensures d == e <==> DayNumber(d) == DayNumber(e)
  {
    if NotAfter(d, e) {
      var n := DaysBetween(d, e);
      AddDaysNumber(d, n);
    } else {
      var n := DaysBetween(e, d);
      AddDaysNumber(e, n);
    }
  }

  lemma {:induction false} AddDaysFails(d: Date, n: nat, e: Date)
    requires InRange(d) && InRange(e) && AddDays(d, n).None?
    ensures DayNumber(e) < DayNumber(d) + n
    decreases n
  {
    NextDayLeast(d);
    if NextDay(d).None? {
      DayNumberRises(d, e);
    } else {
      NextDayNumber(d);
      AddDaysFails(NextDay(d).value, n - 1, e);
    }
  }

  /** Adding `n` days gives the date whose number is greater by `n`, and fails only when there is none. */
  lemma AddDaysExactly(d: Date, n: nat, e: Date)
    requires InRange(d) && InRange(e)
    ensures AddDays(d, n) == Some(e) <==> DayNumber(e) == DayNumber(d) + n
  {
    if AddDays(d, n).Some? {
      AddDaysLater(d, n);
      AddDaysNumber(d, n);
      DayNumberRises(AddDays(d, n).value, e);
    } else {
      AddDaysFails(d, n, e);
    }
  }

  /** There is such a date as long as the calendar's last one has not been passed. */
  lemma AddDaysFits(d: Date, n: nat)
    requires InRange(d)
    ensures AddDays(d, n).Some? <==> DayNumber(d) + n <= DayNumber(Date(MAX_YEAR, 12, 31))
  {
    var last := Date(MAX_YEAR, 12, 31);
    if AddDays(d, n).Some? {
      AddDaysLater(d, n);
      AddDaysNumber(d, n);
      DayNumberRises(last, AddDays(d, n).value);
    } else {
      AddDaysFails(d, n, last);
    }
  }

  /** The range of the calendar in days, and a day of it known from elsewhere: day 0 of the Unix epoch. */
  lemma CalendarRange()
    ensures InRange(Date(-262143, 1, 1)) && PreviousDay(Date(-262143, 1, 1)) == None
    ensures InRange(Date(262142, 12, 31)) && NextDay(Date(262142, 12, 31)) == None
    ensures DayNumber(Date(1970, 1, 1)) == 719468
  {
  }

  // ---------------------------------------------------------------------------------------------
  // Least dates with a property
  // ---------------------------------------------------------------------------------------------

  /** `c` is the least date after `after` for which `on` holds. */
  ghost predicate IsNext(after: Date, on: Date -> bool, c: Date) {
    && InRange(c) && on(c) && Before(after, c)
    && forall d | InRange(d) && on(d) && Before(after, d) :: NotAfter(c, d)
  }

  ghost predicate NoneAfter(after: Date, on: Date -> bool) {
    forall d | InRange(d) && on(d) :: NotAfter(d, after)
  }

  /** `r` is the next date for which `on` holds, or nothing when there is none. */
  ghost predicate Answers(after: Date, on: Date -> bool, r: Option<Date>) {
    match r
    case Some(c) => IsNext(after, on, c)
    case None => NoneAfter(after, on)
  }

  lemma AnswersUnique(after: Date, on: Date -> bool, r: Option<Date>, q: Option<Date>)
    requires Answers(after, on, r) && Answers(after, on, q)
    ensures r == q
  {
  }

  /** From the day before `date`, the next date is `date` iff the property holds of it. */
  lemma NextFromDayBefore(date: Date, on: Date -> bool, r: Option<Date>)
    requires InRange(date) && PreviousDay(date).Some?
    requires Answers(PreviousDay(date).value, on, r)
    ensures r == Some(date) <==> on(date)
  {
    var after := PreviousDay(date).value;
    PreviousDayInverse(date);
    NextDayLeast(after);
    if on(date) {
      assert !NoneAfter(after, on) by {
        assert !NotAfter(date, after);
      }
    }
  }
}
