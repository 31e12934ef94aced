/** The business calendar: next due dates, and the events due on a date or after it. */
module Calendar {
  import opened Results
  import opened Sorting
  import opened Dates

  datatype RecurrenceRule =
    | Monthly(dayOfMonth: nat)
    | QuarterlyEstimated(quarterDay: nat)
    | Annual(month: nat, day: nat)
    | EveryNDays(n: nat)
    | CronExpr(text: string)

  datatype ScheduledEvent = ScheduledEvent(id: string, recurrence: RecurrenceRule, enabled: bool)

  // ---------------------------------------------------------------------------------------------
  // Monthly
  // ---------------------------------------------------------------------------------------------

  function OnDay(day: int): Date -> bool {
    (d: Date) => d.day == day
  }

  /** Months from year 0. */
  function MonthIndex(d: Date): int { d.year * 12 + d.month }

  /** One month later is the next month, and there is none only after the last month in range. */
  lemma AddMonthAdvances(d: Date)
    requires InRange(d)
    ensures AddMonth(d).None? ==> forall e | InRange(e) :: MonthIndex(e) <= MonthIndex(d)
    ensures AddMonth(d).Some? ==> InRange(AddMonth(d).value) && MonthIndex(AddMonth(d).value) == MonthIndex(d) + 1
  {
  }

  /** No later date on the day is in a month up to `m`. */
  ghost predicate OnlyLaterThan(after: Date, day: int, m: int) {
    forall d | InRange(d) && d.day == day && Before(after, d) :: m < MonthIndex(d)
  }

  lemma MonthLacksDay(after: Date, day: nat, base: Date)
    requires InRange(base) && OnlyLaterThan(after, day, MonthIndex(base) - 1)
    requires FromYmd(base.year, base.month, day).None?
    ensures OnlyLaterThan(after, day, MonthIndex(base))
    ensures 1 <= day ==> DaysInMonth(base.year, base.month) < day
  {
  }

  method NextMonthly(after: Date, dayOfMonth: nat) returns (r: Option<Date>)
    requires InRange(after)
    ensures Answers(after, OnDay(dayOfMonth), r)
  {
    var candidate := FromYmd(after.year, after.month, dayOfMonth);
    if candidate.Some? && Before(after, candidate.value) {
      return candidate;
    }
    var base := after;
    for i := 0 to 24
      invariant InRange(base) && MonthIndex(base) == MonthIndex(after) + i
      invariant OnlyLaterThan(after, dayOfMonth, MonthIndex(base))
      invariant 1 <= dayOfMonth <= 31 ==> i <= 1
      invariant 1 <= dayOfMonth && i == 1 ==> DaysInMonth(base.year, base.month) < dayOfMonth
    {
      var next := AddMonth(base);
      AddMonthAdvances(base);
      if next.None? {
        return None;
      }
      candidate := FromYmd(next.value.year, next.value.month, dayOfMonth);
      if candidate.Some? {
        return candidate;
      }
      MonthLacksDay(after, dayOfMonth, next.value);
      base := next.value;
    }
    r := None;
  }

  // ---------------------------------------------------------------------------------------------
  // Annual
  // ---------------------------------------------------------------------------------------------

  function OnMonthDay(month: int, day: int): Date -> bool {
    (d: Date) => d.month == month && d.day == day
  }

  function NextAnnual(after: Date, month: nat, day: nat): Option<Date> {
    var candidate := FromYmd(after.year, month, day);
    if candidate.Some? && Before(after, candidate.value) then candidate
    else FromYmd(after.year + 1, month, day)
  }

  /** The last leap year in range. */
  const LAST_LEAP_YEAR: int := 262140

  /** Neither what is left of this year nor the next year has a 29 February, but a later year has. */
  predicate LeapDayTooFar(after: Date) {
    && !(IsLeap(after.year) && Before(after, Date(after.year, 2, 29)))
    && !IsLeap(after.year + 1)
    && after.year + 1 < LAST_LEAP_YEAR
  }

  /** The annual rule is answered correctly, 29 February between leap years excepted. */
  lemma AnnualExactly(after: Date, month: nat, day: nat)
    requires InRange(after)
    ensures Answers(after, OnMonthDay(month, day), NextAnnual(after, month, day))
       <==> !(month == 2 && day == 29 && LeapDayTooFar(after))
  {
    var r, on := NextAnnual(after, month, day), OnMonthDay(month, day);
    if month == 2 && day == 29 && LeapDayTooFar(after) {
      assert r.None?;
      var later := Date(LAST_LEAP_YEAR, 2, 29);
      assert InRange(later) && on(later) && Before(after, later);
    } else if r.None? {
    }
  }

  /** After 29 February 2024 the next one, in 2028, is not found. */
  lemma LeapDayMissed(after: Date)
    requires after == Date(2024, 2, 29)
    ensures NextAnnual(after, 2, 29) == None
    ensures InRange(Date(2028, 2, 29)) && Before(after, Date(2028, 2, 29))
  {
  }

  // ---------------------------------------------------------------------------------------------
  // Quarterly estimated tax
  // ---------------------------------------------------------------------------------------------

  function QuarterMonth(k: nat): int
    requires k < 4
  {
    if k == 0 then 4 else if k == 1 then 6 else if k == 2 then 9 else 1
  }

  /** The date tried in pass `n / 4` for month `n % 4`: January always belongs to the next year. */
  function Candidate(baseYear: int, day: nat, n: nat): Option<Date>
    requires n < 8
  {
    var month := QuarterMonth(n % 4);
    FromYmd(if month == 1 then baseYear + 1 else baseYear + n / 4, month, day)
  }

  predicate IsQuarterDay(day: int, d: Date) {
    d.day == day && (d.month == 4 || d.month == 6 || d.month == 9 || d.month == 1)
  }

  function QuarterDay(day: int): Date -> bool {
    (d: Date) => IsQuarterDay(day, d)
  }

  /** The quarter days with January of `year` left out. */
  function QuarterDayBut(year: int, day: int): Date -> bool {
    (d: Date) => IsQuarterDay(day, d) && !(d.month == 1 && d.year == year)
  }

  method QuarterCandidates(baseYear: int, day: nat) returns (candidates: seq<Date>)
    ensures forall c :: c in candidates <==> exists n :: 0 <= n < 8 && Candidate(baseYear, day, n) == Some(c)
  {
    candidates := [];
    for yearOffset := 0 to 2
      invariant forall c :: c in candidates
                  <==> exists n :: 0 <= n < 4 * yearOffset && Candidate(baseYear, day, n) == Some(c)
    {
      for k := 0 to 4
        invariant forall c :: c in candidates
                    <==> exists n :: 0 <= n < 4 * yearOffset + k && Candidate(baseYear, day, n) == Some(c)
      {
        var month := QuarterMonth(k);
        var year := if month == 1 then baseYear + 1 else baseYear + yearOffset;
        var found := FromYmd(year, month, day);
        assert found == Candidate(baseYear, day, 4 * yearOffset + k);
        if found.Some? {
          candidates := candidates + [found.value];
        }
      }
    }
  }

  method FirstAfter(dates: seq<Date>, after: Date) returns (r: Option<Date>)
    requires Sorted(NotAfter, dates)
    ensures r.Some? ==> r.value in dates && Before(after, r.value)
    ensures forall d | d in dates && Before(after, d) :: r.Some? && NotAfter(r.value, d)
  {
    for i := 0 to |dates|
      invariant forall k | 0 <= k < i :: !Before(after, dates[k])
    {
      if Before(after, dates[i]) {
        return Some(dates[i]);
      }
    }
    r := None;
  }

  /** Whatever falls due later has a candidate that is due no later than it. */
  lemma QuarterCovered(after: Date, day: nat, d: Date, candidates: seq<Date>)
    requires InRange(after) && InRange(d) && Before(after, d)
    requires QuarterDayBut(after.year, day)(d)
    requires forall c :: c in candidates <==> exists n :: 0 <= n < 8 && Candidate(after.year, day, n) == Some(c)
    ensures exists c :: c in candidates && Before(after, c) && NotAfter(c, d)
  {
    var k := if d.month == 4 then 0 else if d.month == 6 then 1 else if d.month == 9 then 2 else 3;
    if d.year == after.year {
      assert k / 4 == 0 && k % 4 == k;
      assert Candidate(after.year, day, k) == Some(d);
    } else {
      var january := Date(after.year + 1, 1, day);
      assert Candidate(after.year, day, 3) == Some(january);
    }
  }

  method NextQuarterlyEstimated(after: Date, day: nat) returns (r: Option<Date>)
    requires InRange(after)
    ensures Answers(after, QuarterDayBut(after.year, day), r)
  {
    var baseYear := after.year;
    var candidates := QuarterCandidates(baseYear, day);
    var sorted := SortBy(NotAfter, candidates);
    SortBySorted(NotAfter, candidates);
    SameElements(candidates, sorted);
    r := FirstAfter(sorted, after);
    if r.Some? {
      var n :| 0 <= n < 8 && Candidate(baseYear, day, n) == r;
    }
    forall d | InRange(d) && QuarterDayBut(baseYear, day)(d) && Before(after, d)
      ensures r.Some? && NotAfter(r.value, d)
    {
      QuarterCovered(after, day, d, candidates);
    }
  }

  /** January's quarter day of the year of `after` is still to come, and the search never tries it. */
  predicate JanuarySkipped(after: Date, day: nat) {
    InRange(Date(after.year, 1, day)) && Before(after, Date(after.year, 1, day))
  }

  /** The quarterly rule is answered correctly, dates before the January quarter day excepted. */
  lemma QuarterlyExactly(after: Date, day: nat, r: Option<Date>)
    requires InRange(after)
    requires Answers(after, QuarterDayBut(after.year, day), r)
    ensures Answers(after, QuarterDay(day), r) <==> !JanuarySkipped(after, day)
  {
    var on, but := QuarterDay(day), QuarterDayBut(after.year, day);
    if JanuarySkipped(after, day) {
      var january := Date(after.year, 1, day);
      assert on(january);
      if r.Some? {
        assert but(r.value) && Before(january, r.value);
      }
    } else {
      forall d | InRange(d) && on(d) && Before(after, d)
        ensures but(d)
      {
        assert d.month == 1 && d.year == after.year ==> d == Date(after.year, 1, day);
      }
    }
  }

  // ---------------------------------------------------------------------------------------------
  // Any rule
  // ---------------------------------------------------------------------------------------------

  /** `r` is the library's answer to the rule, one rule at a time. */
  ghost predicate IsNextDue(rule: RecurrenceRule, after: Date, r: Option<Date>) {
    match rule
    case Monthly(d) => Answers(after, OnDay(d), r)
    case QuarterlyEstimated(d) => Answers(after, QuarterDayBut(after.year, d), r)
    case Annual(m, d) => r == NextAnnual(after, m, d)
    case EveryNDays(n) => r == AddDays(after, n)
    case CronExpr(_) => r == None
  }

  /** "Every `n` days" answers with the date `n` days on, if the calendar has one. */
  lemma EveryNDaysExactly(n: nat, after: Date, r: Option<Date>)
    requires InRange(after) && IsNextDue(EveryNDays(n), after, r)
    ensures forall d | InRange(d) :: r == Some(d) <==> DayNumber(d) == DayNumber(after) + n
    ensures r.None? <==> DayNumber(after) + n > DayNumber(Date(MAX_YEAR, 12, 31))
  {
    AddDaysFits(after, n);
    forall d | InRange(d)
      ensures r == Some(d) <==> DayNumber(d) == DayNumber(after) + n
    {
      AddDaysExactly(after, n, d);
    }
  }

  /** Two weeks after New Year 2024. */
  lemma FortnightLater(after: Date, r: Option<Date>)
    requires after == Date(2024, 1, 1) && IsNextDue(EveryNDays(14), after, r)
    ensures r == Some(Date(2024, 1, 15))
  {
    EveryNDaysExactly(14, after, r);
    assert InRange(Date(2024, 1, 15));
  }

  method NextDue(rule: RecurrenceRule, after: Date) returns (r: Option<Date>)
    requires InRange(after)
    ensures IsNextDue(rule, after, r)
    ensures rule.EveryNDays? ==> forall d | InRange(d) :: r == Some(d) <==> DayNumber(d) == DayNumber(after) + rule.n
  {
    if rule.EveryNDays? {
      EveryNDaysExactly(rule.n, after, AddDays(after, rule.n));
    }
    match rule
    case Monthly(d) => r := NextMonthly(after, d);
    case QuarterlyEstimated(d) => r := NextQuarterlyEstimated(after, d);
    case Annual(m, d) => r := NextAnnual(after, m, d);
    case EveryNDays(n) => r := AddDays(after, n);
    case CronExpr(_) => r := None;
  }

  /** The answer is in range, and strictly later unless the rule is "every 0 days". */
  lemma NextDueStrictlyAfter(rule: RecurrenceRule, after: Date, r: Option<Date>)
    requires InRange(after) && IsNextDue(rule, after, r) && r.Some?
    ensures InRange(r.value)
    ensures Before(after, r.value) <==> rule != EveryNDays(0)
  {
    if rule.EveryNDays? {
      AddDaysLater(after, rule.n);
    }
  }

  /** The answer is a function of the rule and the date. */
  lemma NextDueUnique(rule: RecurrenceRule, after: Date, r: Option<Date>, q: Option<Date>)
    requires IsNextDue(rule, after, r) && IsNextDue(rule, after, q)
    ensures r == q
  {
    match rule
    case Monthly(d) => AnswersUnique(after, OnDay(d), r, q);
    case QuarterlyEstimated(d) => AnswersUnique(after, QuarterDayBut(after.year, d), r, q);
    case _ =>
  }

  // ---------------------------------------------------------------------------------------------
  // Events
  // ---------------------------------------------------------------------------------------------

  /**
   When a rule counts as due on a date. A January quarter day other than the 1st never does, and on
   the very first date of the calendar only "every 0 days" does.
   */
  predicate DueOn(rule: RecurrenceRule, date: Date) {
    if date == MIN_DATE then rule == EveryNDays(0)
    else
      match rule
      case Monthly(d) => date.day == d
      case QuarterlyEstimated(d) =>
        date.day == d && (date.month == 4 || date.month == 6 || date.month == 9 || (date.month == 1 && d == 1))
      case Annual(m, d) => date.month == m && date.day == d
      case EveryNDays(n) => n == 1
      case CronExpr(_) => false
  }

  lemma AnnualFromDayBefore(date: Date, month: nat, day: nat)
    requires InRange(date) && PreviousDay(date).Some?
    ensures NextAnnual(PreviousDay(date).value, month, day) == Some(date) <==> date.month == month && date.day == day
  {
    PreviousDayInverse(date);
    NextDayLeast(PreviousDay(date).value);
  }

  lemma EveryFromDayBefore(date: Date, n: nat)
    requires InRange(date) && PreviousDay(date).Some?
    ensures AddDays(PreviousDay(date).value, n) == Some(date) <==> n == 1
  {
    PreviousDayInverse(date);
    NextDayLeast(PreviousDay(date).value);
    if n >= 1 {
      AddDaysLater(date, n - 1);
    }
  }

  lemma DueOnExactly(rule: RecurrenceRule, date: Date, r: Option<Date>)
    requires InRange(date)
    requires IsNextDue(rule, PreviousDay(date).GetOr(date), r)
    ensures r == Some(date) <==> DueOn(rule, date)
  {
    PreviousDayInverse(date);
    var after := PreviousDay(date).GetOr(date);
    if date == MIN_DATE {
      if r.Some? {
        NextDueStrictlyAfter(rule, date, r);
      }
    } else {
      match rule
      case Monthly(d) => NextFromDayBefore(date, OnDay(d), r);
      case QuarterlyEstimated(d) => NextFromDayBefore(date, QuarterDayBut(after.year, d), r);
      case Annual(m, d) => AnnualFromDayBefore(date, m, d);
      case EveryNDays(n) => EveryFromDayBefore(date, n);
      case CronExpr(_) =>
    }
  }

  predicate IsDueEvent(ev: ScheduledEvent, date: Date) {
    ev.enabled && DueOn(ev.recurrence, date)
  }

  function DueEvents(events: seq<ScheduledEvent>, date: Date): seq<ScheduledEvent> {
    if events == [] then []
    else
      var last := events[|events| - 1];
      DueEvents(events[..|events| - 1], date) + if IsDueEvent(last, date) then [last] else []
  }

  method EventsDueOn(events: seq<ScheduledEvent>, date: Date) returns (due: seq<ScheduledEvent>)
    requires InRange(date)
    ensures due == DueEvents(events, date)
  {
    due := [];
    for i := 0 to |events|
      invariant due == DueEvents(events[..i], date)
    {
      assert events[..i + 1][..i] == events[..i];
      var ev := events[i];
      if ev.enabled {
        PreviousDayInverse(date);
        var after := PreviousDay(date).GetOr(date);
        var next := NextDue(ev.recurrence, after);
        DueOnExactly(ev.recurrence, date, next);
        if next == Some(date) {
          due := due + [ev];
        }
      }
    }
    assert events[..|events|] == events;
  }

  /** The default January estimated-tax payment, on the 15th, is not what follows the day before it. */
  lemma JanuaryPaymentNeverDue(year: int, r: Option<Date>)
    requires MIN_YEAR <= year <= MAX_YEAR
    requires IsNextDue(QuarterlyEstimated(15), Date(year, 1, 14), r)
    ensures r != Some(Date(year, 1, 15))
    ensures r == FromYmd(year, 4, 15)
  {
    assert InRange(Date(year, 4, 15));
    assert QuarterDayBut(year, 15)(Date(year, 4, 15));
  }

  predicate DueNoLater(a: (Date, ScheduledEvent), b: (Date, ScheduledEvent)) {
    NotAfter(a.0, b.0)
  }

  /** The next due date, which is unique, as a function. */
  ghost function FirstDue(rule: RecurrenceRule, after: Date): (r: Option<Date>) {
    if exists q :: IsNextDue(rule, after, q) then
      var q :| IsNextDue(rule, after, q);
      q
    else None
  }

  ghost predicate ComesUp(ev: ScheduledEvent, from: Date, end: Date) {
    ev.enabled && FirstDue(ev.recurrence, from).Some? && NotAfter(FirstDue(ev.recurrence, from).value, end)
  }

  /** The enabled events whose next date is no later than `end`, each with that date, in calendar order. */
  ghost function Agenda(events: seq<ScheduledEvent>, from: Date, end: Date): seq<(Date, ScheduledEvent)> {
    if events == [] then []
    else
      var last := events[|events| - 1];
      Agenda(events[..|events| - 1], from, end)
      + if ComesUp(last, from, end) then [(FirstDue(last.recurrence, from).value, last)] else []
  }

  /** At most so many days on; a horizon past the end of the calendar is none. */
  predicate WithinDays(from: Date, days: nat, d: Date) {
    DayNumber(d) <= DayNumber(from) + if DayNumber(from) + days <= DayNumber(Date(MAX_YEAR, 12, 31)) then days else 0
  }

  lemma WithinIsNotAfter(from: Date, days: nat, d: Date)
    requires InRange(from) && InRange(d)
    ensures NotAfter(d, AddDays(from, days).GetOr(from)) <==> WithinDays(from, days, d)
  {
    AddDaysFits(from, days);
    if AddDays(from, days).Some? {
      AddDaysLater(from, days);
      AddDaysNumber(from, days);
    }
    DayNumberRises(AddDays(from, days).GetOr(from), d);
  }

  lemma {:induction false} AgendaMembers(events: seq<ScheduledEvent>, from: Date, end: Date, d: Date,
                                         ev: ScheduledEvent)
    ensures (d, ev) in Agenda(events, from, end)
       <==> ev in events && ComesUp(ev, from, end) && FirstDue(ev.recurrence, from) == Some(d)
  {
    if events != [] {
      var front, last := events[..|events| - 1], events[|events| - 1];
      AgendaMembers(front, from, end, d, ev);
      assert events == front + [last];
    }
  }

  /** The dates rise strictly, but for "every 0 days", which stays where it is. */
  lemma NextStep(rule: RecurrenceRule, after: Date)
    requires InRange(after) && FirstDue(rule, after).Some?
    ensures InRange(FirstDue(rule, after).value)
    ensures if rule == EveryNDays(0) then FirstDue(rule, after).value == after
            else Before(after, FirstDue(rule, after).value)
  {
    var r := FirstDue(rule, after);
    assert IsNextDue(rule, after, r);
    NextDueStrictlyAfter(rule, after, r);
  }

  /** An enabled event and its next date, at most so many days on. */
  ghost predicate InAgenda(events: seq<ScheduledEvent>, from: Date, days: nat, d: Date, ev: ScheduledEvent) {
    ev in events && ev.enabled && FirstDue(ev.recurrence, from) == Some(d) && WithinDays(from, days, d)
  }

  lemma AgendaExactly(events: seq<ScheduledEvent>, from: Date, days: nat, d: Date, ev: ScheduledEvent)
    requires InRange(from)
    ensures (d, ev) in Agenda(events, from, AddDays(from, days).GetOr(from)) <==> InAgenda(events, from, days, d, ev)
  {
    AgendaMembers(events, from, AddDays(from, days).GetOr(from), d, ev);
    if FirstDue(ev.recurrence, from) == Some(d) {
      NextStep(ev.recurrence, from);
      WithinIsNotAfter(from, days, d);
    }
  }

  method FindComing(events: seq<ScheduledEvent>, from: Date, end: Date) returns (found: seq<(Date, ScheduledEvent)>)
    requires InRange(from)
    ensures found == Agenda(events, from, end)
  {
    found := [];
    for i := 0 to |events|
      invariant found == Agenda(events[..i], from, end)
    {
      var ev := events[i];
      assert events[..i + 1][..i] == events[..i];
      if ev.enabled {
        var next := NextDue(ev.recurrence, from);
        NextDueUnique(ev.recurrence, from, next, FirstDue(ev.recurrence, from));
        if next.Some? && NotAfter(next.value, end) {
          found := found + [(next.value, ev)];
        }
      }
    }
    assert events[..|events|] == events;
  }

  lemma DueOrder()
    ensures TotalPreorder(DueNoLater)
  {
  }

  lemma AgendaRises(found: seq<(Date, ScheduledEvent)>)
    ensures var r := SortBy(DueNoLater, found); forall i, j | 0 <= i < j < |r| :: !Before(r[j].0, r[i].0)
  {
    DueOrder();
    SortBySorted(DueNoLater, found);
  }

  lemma SortedAgenda(events: seq<ScheduledEvent>, from: Date, days: nat, d: Date, ev: ScheduledEvent)
    requires InRange(from)
    ensures (d, ev) in SortBy(DueNoLater, Agenda(events, from, AddDays(from, days).GetOr(from)))
       <==> InAgenda(events, from, days, d, ev)
  {
    var found := Agenda(events, from, AddDays(from, days).GetOr(from));
    SameElements(found, SortBy(DueNoLater, found));
    AgendaExactly(events, from, days, d, ev);
  }

  /** The agenda up to the horizon, sorted by date; one past the last date is an empty window. */
  method Upcoming(events: seq<ScheduledEvent>, from: Date, horizonDays: nat) returns (r: seq<(Date, ScheduledEvent)>)
    requires InRange(from)
    ensures r == SortBy(DueNoLater, Agenda(events, from, AddDays(from, horizonDays).GetOr(from)))
    ensures forall i, j | 0 <= i < j < |r| :: !Before(r[j].0, r[i].0)
    ensures forall d, ev :: (d, ev) in r <==> InAgenda(events, from, horizonDays, d, ev)
  {
    var end := AddDays(from, horizonDays).GetOr(from);
    var found := FindComing(events, from, end);
    AgendaRises(found);
    forall d, ev
      ensures (d, ev) in SortBy(DueNoLater, found) <==> InAgenda(events, from, horizonDays, d, ev)
    {
      SortedAgenda(events, from, horizonDays, d, ev);
    }
    r := SortBy(DueNoLater, found);
  }

  // ---------------------------------------------------------------------------------------------
  // What the agenda leaves out
  // ---------------------------------------------------------------------------------------------

  /** The date that the rule leads to in `n + 1` steps. */
  ghost function NthDue(rule: RecurrenceRule, from: Date, n: nat): Option<Date> {
    if n == 0 then FirstDue(rule, from)
    else
      match NthDue(rule, from, n - 1)
      case Some(d) => FirstDue(rule, d)
      case None => None
  }

  /** The rule leads there in `n + 1` steps, no later than `end`. */
  ghost predicate DueBy(rule: RecurrenceRule, from: Date, n: nat, end: Date) {
    NthDue(rule, from, n).Some? && NotAfter(NthDue(rule, from, n).value, end)
  }

  /** The agenda holds every date up to `end` on which an enabled event falls due. */
  ghost predicate ListsAll(events: seq<ScheduledEvent>, from: Date, end: Date) {
    forall ev, n: nat | ev in events && ev.enabled && DueBy(ev.recurrence, from, n, end) ::
      (NthDue(ev.recurrence, from, n).value, ev) in Agenda(events, from, end)
  }

  /** A second, different date of an enabled event is still no later than `end`. */
  ghost predicate ComesUpAgain(ev: ScheduledEvent, from: Date, end: Date) {
    ev.enabled && DueBy(ev.recurrence, from, 1, end) && NthDue(ev.recurrence, from, 1) != NthDue(ev.recurrence, from, 0)
  }

  lemma {:induction false} LaterDue(rule: RecurrenceRule, from: Date, n: nat)
    requires InRange(from) && NthDue(rule, from, n).Some?
    ensures InRange(NthDue(rule, from, n).value)
    ensures NthDue(rule, from, 0).Some? && NotAfter(NthDue(rule, from, 0).value, NthDue(rule, from, n).value)
    ensures n > 0 ==> NthDue(rule, from, 1).Some? && NotAfter(NthDue(rule, from, 1).value, NthDue(rule, from, n).value)
    ensures rule == EveryNDays(0) ==> NthDue(rule, from, n) == Some(from)
  {
    if n == 0 {
      NextStep(rule, from);
    } else {
      LaterDue(rule, from, n - 1);
      NextStep(rule, NthDue(rule, from, n - 1).value);
    }
  }

  /** The agenda holds every due date up to `end` exactly when no enabled event comes up a second time by then. */
  lemma AgendaCompleteExactly(events: seq<ScheduledEvent>, from: Date, end: Date)
    requires InRange(from)
    ensures ListsAll(events, from, end) <==> forall ev | ev in events :: !ComesUpAgain(ev, from, end)
  {
    if ev :| ev in events && ComesUpAgain(ev, from, end) {
      AgendaMembers(events, from, end, NthDue(ev.recurrence, from, 1).value, ev);
      assert DueBy(ev.recurrence, from, 1, end);
    } else {
      forall ev, n: nat | ev in events && ev.enabled && DueBy(ev.recurrence, from, n, end)
        ensures (NthDue(ev.recurrence, from, n).value, ev) in Agenda(events, from, end)
      {
        LaterDue(ev.recurrence, from, n);
        if n > 0 {
          LaterDue(ev.recurrence, from, 1);
          NextStep(ev.recurrence, NthDue(ev.recurrence, from, 0).value);
        }
        AgendaMembers(events, from, end, NthDue(ev.recurrence, from, n).value, ev);
      }
    }
  }

  lemma DailyDue(after: Date)
    requires InRange(after)
    ensures FirstDue(EveryNDays(1), after) == AddDays(after, 1)
  {
    var rule := EveryNDays(1);
    assert IsNextDue(rule, after, AddDays(after, 1));
    NextDueUnique(rule, after, FirstDue(rule, after), AddDays(after, 1));
  }

  /** Of the two dates that a daily event has within two days only the first is listed. */
  lemma DailyListedOnce(from: Date, daily: ScheduledEvent)
    requires InRange(from) && AddDays(from, 2).Some? && daily.enabled && daily.recurrence == EveryNDays(1)
    ensures DueBy(daily.recurrence, from, 1, AddDays(from, 2).value)
    ensures !ListsAll([daily], from, AddDays(from, 2).value)
  {
    var end := AddDays(from, 2).value;
    DailyDue(from);
    var d := FirstDue(EveryNDays(1), from).value;
    NextStep(EveryNDays(1), from);
    DailyDue(d);
    NextStep(EveryNDays(1), d);
    assert AddDays(d, 1) == Some(end);
    assert NthDue(EveryNDays(1), from, 0) == Some(d);
    assert NthDue(EveryNDays(1), from, 1) == Some(end);
    AgendaCompleteExactly([daily], from, end);
    assert daily in [daily];
  }
}
