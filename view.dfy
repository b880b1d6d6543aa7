/**
 * The calendar helpers of App.tsx: the workdays of a month, the days the
 * grid shows in week and month view, the clearing of the shown period, and
 * the week-boundary marker of the month view.
 */
module CalendarView {
  import opened Calendar
  import opened Types
  import opened ScheduleStore

  datatype ViewMode = WeekView | MonthView

  /** The weekdays of the month of `anchor`, in calendar order. */
  function MonthWorkdays(anchor: Date): seq<Date> {
    Workdays(DaysBetween(StartOfMonth(anchor), EndOfMonth(anchor)))
  }

  /** The month's workdays are ascending and are exactly its Monday-to-Friday dates. */
  lemma MonthWorkdaysSpec(anchor: Date)
    ensures StrictlyAscending(MonthWorkdays(anchor))
    ensures forall x :: x in MonthWorkdays(anchor)
                    <==> x.year == anchor.year && x.month == anchor.month && !IsWeekend(x)
  {
    WorkdaysBetween(StartOfMonth(anchor), EndOfMonth(anchor));
    forall x: Date ensures x.year == anchor.year && x.month == anchor.month
                     <==> Ordinal(StartOfMonth(anchor)) <= Ordinal(x) <= Ordinal(EndOfMonth(anchor)) {
      InMonthIffBetween(anchor, x);
    }
  }

  /**
   * getMonthWorkdays: walk from the first to the last day of the month,
   * keeping the days that are not on a weekend.
   */
  method GetMonthWorkdays(monthStart: Date) returns (workdays: seq<Date>)
    ensures workdays == MonthWorkdays(monthStart)
    ensures StrictlyAscending(workdays)
    ensures forall x :: x in workdays
                    <==> x.year == monthStart.year && x.month == monthStart.month && !IsWeekend(x)
  {
    workdays := CollectWorkdays(StartOfMonth(monthStart), EndOfMonth(monthStart));
    MonthWorkdaysSpec(monthStart);
  }

  /** The loop of getMonthWorkdays: step a day at a time from `start` to `end`, keeping the weekdays. */
  method CollectWorkdays(start: Date, end: Date) returns (workdays: seq<Date>)
    ensures workdays == Workdays(DaysBetween(start, end))
  {
    ghost var all := DaysBetween(start, end);
    ghost var i := 0;
    workdays := [];
    var current := start;
    while Ordinal(current) <= Ordinal(end)
      invariant 0 <= i <= |all|
      invariant Ordinal(current) == Ordinal(start) + i
      invariant workdays == Workdays(all[..i])
      decreases Ordinal(end) - Ordinal(current)
    {
      assert all[..i + 1][..i] == all[..i];
      OrdinalInjective(current, all[i]);
      if !IsWeekend(current) {
        workdays := workdays + [current];
      }
      current := Next(current);
      i := i + 1;
    }
    assert all[..i] == all;
  }

  /** The five days of the week view: the anchor and the four days after it. */
  function WeekDays(weekStart: Date): (r: seq<Date>)
    ensures |r| == 5
    ensures forall i :: 0 <= i < 5 ==> Ordinal(r[i]) == Ordinal(weekStart) + i
  {
    seq(5, i requires 0 <= i < 5 => AddDays(weekStart, i))
  }

  lemma DayOfWeekShift(n: int, i: int)
    requires n % 7 == 1 && 0 <= i < 5
    ensures (n + i) % 7 == i + 1
  {
  }

  /** The day i days after a Monday, for i < 5, is the (i + 1)-th day of the week. */
  lemma ShiftedWeekday(monday: Date, x: Date, i: int)
    requires DayOfWeek(monday) == 1 && 0 <= i < 5 && Ordinal(x) == Ordinal(monday) + i
    ensures DayOfWeek(x) == i + 1
  {
    DayOfWeekShift(Ordinal(monday) + 1, i);
  }

  /** Anchored on a Monday, the week view shows Monday to Friday, in that order. */
  lemma WeekDaysFromMonday(weekStart: Date)
    requires DayOfWeek(weekStart) == 1
    ensures forall i :: 0 <= i < 5 ==> DayOfWeek(WeekDays(weekStart)[i]) == i + 1
    ensures forall i :: 0 <= i < 5 ==> !IsWeekend(WeekDays(weekStart)[i])
  {
    forall i | 0 <= i < 5
      ensures DayOfWeek(WeekDays(weekStart)[i]) == i + 1 && !IsWeekend(WeekDays(weekStart)[i])
    {
      ShiftedWeekday(weekStart, WeekDays(weekStart)[i], i);
    }
  }

  /** The week view holds exactly the dates whose day number is within five days of the anchor. */
  lemma InWeekDays(weekStart: Date, x: Date)
    ensures x in WeekDays(weekStart) <==> Ordinal(weekStart) <= Ordinal(x) < Ordinal(weekStart) + 5
  {
    if Ordinal(weekStart) <= Ordinal(x) < Ordinal(weekStart) + 5 {
      OrdinalInjective(WeekDays(weekStart)[Ordinal(x) - Ordinal(weekStart)], x);
    }
  }

  /**
   * The dates shown (and cleared) for a view mode and its two anchors: five
   * consecutive days from the week anchor, or the month's workdays in
   * ascending order.
   */
  function PeriodDates(mode: ViewMode, weekStart: Date, month: Date): (r: seq<Date>)
    ensures mode == WeekView ==>
              |r| == 5 && forall i :: 0 <= i < 5 ==> Ordinal(r[i]) == Ordinal(weekStart) + i
    ensures mode == MonthView ==> StrictlyAscending(r)
    ensures mode == MonthView ==>
              forall x :: x in r <==> x.year == month.year && x.month == month.month && !IsWeekend(x)
  {
    match mode
    case WeekView => WeekDays(weekStart)
    case MonthView => MonthWorkdaysSpec(month); MonthWorkdays(month)
  }

  /** Membership in the shown period, stated without enumerating it. */
  predicate InPeriod(mode: ViewMode, weekStart: Date, month: Date, x: Date) {
    match mode
    case WeekView => Ordinal(weekStart) <= Ordinal(x) < Ordinal(weekStart) + 5
    case MonthView => x.year == month.year && x.month == month.month && !IsWeekend(x)
  }

  lemma InPeriodDates(mode: ViewMode, weekStart: Date, month: Date, x: Date)
    ensures x in PeriodDates(mode, weekStart, month) <==> InPeriod(mode, weekStart, month, x)
  {
    match mode
    case WeekView => InWeekDays(weekStart, x);
    case MonthView => MonthWorkdaysSpec(month);
  }

  /**
   * displayDays: in week view the five consecutive days from the week
   * anchor, in month view the month's workdays.
   */
  method DisplayDays(mode: ViewMode, weekStart: Date, month: Date) returns (days: seq<Date>)
    ensures days == PeriodDates(mode, weekStart, month)
    ensures mode == WeekView ==>
              |days| == 5 && forall i :: 0 <= i < 5 ==> Ordinal(days[i]) == Ordinal(weekStart) + i
    ensures mode == MonthView ==> StrictlyAscending(days)
    ensures forall x :: x in days <==> InPeriod(mode, weekStart, month, x)
  {
    if mode == WeekView {
      days := WeekDays(weekStart);
    } else {
      days := GetMonthWorkdays(month);
    }
    forall x ensures x in days <==> InPeriod(mode, weekStart, month, x) {
      InPeriodDates(mode, weekStart, month, x);
    }
  }

  /**
   * clearPeriod (once confirmed): every employee loses the entries of the
   * shown period — the five days from the week anchor, or the month's
   * workdays — so those days read Office; every other entry is kept as it
   * was, and every other day reads as before.
   */
  method ClearPeriod(store: Store, mode: ViewMode, weekStart: Date, month: Date) returns (r: Store)
    ensures |r| == |store| && ScheduleIds(r) == ScheduleIds(store)
    ensures forall i :: 0 <= i < |store| ==>
              r[i].days.Keys == store[i].days.Keys - DateSet(PeriodDates(mode, weekStart, month))
    ensures forall i, x :: 0 <= i < |store| && x in r[i].days ==> r[i].days[x] == store[i].days[x]
    ensures forall id, x :: InPeriod(mode, weekStart, month, x) ==> GetDayStatus(r, id, x) == Office
    ensures forall id, x :: !InPeriod(mode, weekStart, month, x) ==>
              GetDayStatus(r, id, x) == GetDayStatus(store, id, x)
  {
    var datesToClear := DisplayDays(mode, weekStart, month);
    r := ClearDates(store, datesToClear);
  }

  /**
   * isNewWeek: in month view, whether the day at `index` starts a different
   * Monday-started week than the day before it.
   */
  predicate IsNewWeek(mode: ViewMode, days: seq<Date>, index: nat)
    requires index < |days|
    ensures IsNewWeek(mode, days, index) ==> mode == MonthView && index > 0
  {
    match mode
    case WeekView => false
    case MonthView => index > 0 && WeekKey(days[index]) != WeekKey(days[index - 1])
  }

  lemma MondayStartsWeekArith(p: int, o: int)
    requires p < o && (o + 1) % 7 == 1
    ensures p / 7 != o / 7
  {
  }

  lemma MidweekArith(o: int)
    requires (o + 1) % 7 != 0 && (o + 1) % 7 != 6 && (o + 1) % 7 != 1
    ensures (o - 1) / 7 == o / 7
    ensures o % 7 != 0 && o % 7 != 6
  {
  }

  /** A Monday's week differs from that of any earlier day. */
  lemma MondayStartsWeek(earlier: Date, monday: Date)
    requires Ordinal(earlier) < Ordinal(monday) && DayOfWeek(monday) == 1
    ensures WeekKey(earlier) != WeekKey(monday)
  {
    MondayStartsWeekArith(Ordinal(earlier), Ordinal(monday));
  }

  /** The day before a Tuesday to Friday is a weekday of the same week. */
  lemma MidweekFollowsWeekday(prev: Date, d: Date)
    requires Ordinal(prev) + 1 == Ordinal(d)
    requires !IsWeekend(d) && DayOfWeek(d) != 1
    ensures WeekKey(prev) == WeekKey(d) && !IsWeekend(prev)
  {
    MidweekArith(Ordinal(d));
  }

  /** Two neighbours in the workdays of [a, b]: both in the interval, ascending, the later one a weekday. */
  lemma WorkdayNeighbours(a: Date, b: Date, i: nat)
    requires 0 < i < |Workdays(DaysBetween(a, b))|
    ensures var ws := Workdays(DaysBetween(a, b));
            Ordinal(a) <= Ordinal(ws[i - 1]) < Ordinal(ws[i]) <= Ordinal(b) && !IsWeekend(ws[i])
  {
    var ws := Workdays(DaysBetween(a, b));
    WorkdaysBetween(a, b);
    assert ws[i] in ws && ws[i - 1] in ws;
  }

  /** In an ascending list, a listed day one day before the i-th one sits at position i - 1. */
  lemma AscendingPredecessor(ws: seq<Date>, i: nat, prev: Date)
    requires StrictlyAscending(ws)
    requires 0 < i < |ws| && prev in ws
    requires Ordinal(prev) + 1 == Ordinal(ws[i])
    ensures ws[i - 1] == prev
  {
    var j :| 0 <= j < |ws| && ws[j] == prev;
    var oi, oj, op := Ordinal(ws[i]), Ordinal(ws[j]), Ordinal(ws[i - 1]);
    assert i < j ==> oi < oj;
    assert j < i - 1 ==> oj < op;
    assert op < oi;
  }

  /** The day before a listed Tuesday to Friday is itself listed, in the same week. */
  lemma MidweekPreviousDayListed(a: Date, b: Date, i: nat) returns (prev: Date)
    requires 0 < i < |Workdays(DaysBetween(a, b))|
    requires DayOfWeek(Workdays(DaysBetween(a, b))[i]) != 1
    ensures var ws := Workdays(DaysBetween(a, b));
            prev in ws && Ordinal(prev) + 1 == Ordinal(ws[i]) && WeekKey(prev) == WeekKey(ws[i])
  {
    var all := DaysBetween(a, b);
    var d := Workdays(all)[i];
    WorkdayNeighbours(a, b, i);
    prev := all[Ordinal(d) - 1 - Ordinal(a)];
    MidweekFollowsWeekday(prev, d);
  }

  /** A listed Tuesday to Friday directly follows the listed day before it. */
  lemma MidweekWorkdayPredecessor(a: Date, b: Date, i: nat)
    requires 0 < i < |Workdays(DaysBetween(a, b))|
    requires DayOfWeek(Workdays(DaysBetween(a, b))[i]) != 1
    ensures var ws := Workdays(DaysBetween(a, b));
            WeekKey(ws[i - 1]) == WeekKey(ws[i])
  {
    var ws := Workdays(DaysBetween(a, b));
    var prev := MidweekPreviousDayListed(a, b, i);
    WorkdaysAscending(DaysBetween(a, b));
    AscendingPredecessor(ws, i, prev);
  }

  /**
   * Among the workdays of an interval, a day starts a new week exactly
   * when it is a Monday (and is not the first day listed).
   */
  lemma WeekBoundaryIsMonday(a: Date, b: Date, i: nat)
    requires 0 < i < |Workdays(DaysBetween(a, b))|
    ensures var ws := Workdays(DaysBetween(a, b));
            WeekKey(ws[i]) != WeekKey(ws[i - 1]) <==> DayOfWeek(ws[i]) == 1
  {
    var ws := Workdays(DaysBetween(a, b));
    if DayOfWeek(ws[i]) == 1 {
      WorkdayNeighbours(a, b, i);
      MondayStartsWeek(ws[i - 1], ws[i]);
    } else {
      MidweekWorkdayPredecessor(a, b, i);
    }
  }

  /** In month view, the week separator is drawn before every Monday but the first day. */
  lemma MonthViewNewWeekOnMonday(month: Date, index: nat)
    requires index < |MonthWorkdays(month)|
    ensures IsNewWeek(MonthView, MonthWorkdays(month), index)
            <==> index > 0 && DayOfWeek(MonthWorkdays(month)[index]) == 1
  {
    if index > 0 {
      WeekBoundaryIsMonday(StartOfMonth(month), EndOfMonth(month), index);
    }
  }
}
