/**
 * The proleptic Gregorian calendar the schedule works on: civil dates, a
 * day number for ordering and arithmetic, the day of the week, and the
 * date-fns helpers the application uses (addDays, startOfMonth/endOfMonth,
 * startOfYear/endOfYear, eachDayOfInterval, isWeekend, getDay, getWeek).
 *
 * A date is its own key: the application stores entries under the
 * 'yyyy-MM-dd' rendering of a date (ISO 8601 extended calendar date), which
 * is injective on dates, so the model keys maps by the date itself.
 */
module Calendar {

  datatype CivilDate = CivilDate(year: int, month: int, day: int)

  predicate IsLeapYear(y: int) {
    y % 4 == 0 && (y % 100 != 0 || y % 400 == 0)
  }

  function MonthLength(y: int, m: int): (n: int)
    requires 1 <= m <= 12
    ensures 28 <= n <= 31
    ensures n == 29 <==> m == 2 && IsLeapYear(y)
  {
    if m == 2 then (if IsLeapYear(y) then 29 else 28)
    else if m == 4 || m == 6 || m == 9 || m == 11 then 30
    else 31
  }

  predicate IsValidDate(d: CivilDate) {
    1 <= d.month <= 12 && 1 <= d.day <= MonthLength(d.year, d.month)
  }

  /** A real calendar date (a JavaScript Date at local midnight). */
  type Date = d: CivilDate | IsValidDate(d) witness CivilDate(2024, 1, 1)

  function YearLength(y: int): int {
    if IsLeapYear(y) then 366 else 365
  }

  /** Days of year `y` that lie before the first of month `m` (m = 13: the whole year). */
  function DaysBeforeMonth(y: int, m: int): int
    requires 1 <= m <= 13
  {
    var common :=
      if m == 1 then 0 else if m == 2 then 31 else if m == 3 then 59
      else if m == 4 then 90 else if m == 5 then 120 else if m == 6 then 151
      else if m == 7 then 181 else if m == 8 then 212 else if m == 9 then 243
      else if m == 10 then 273 else if m == 11 then 304 else if m == 12 then 334
      else 365;
    common + (if m > 2 && IsLeapYear(y) then 1 else 0)
  }

  lemma DaysBeforeMonthStep(y: int, m: int)
    requires 1 <= m <= 12
    ensures DaysBeforeMonth(y, m + 1) == DaysBeforeMonth(y, m) + MonthLength(y, m)
    ensures DaysBeforeMonth(y, 13) == YearLength(y)
  {
  }

  lemma DaysBeforeMonthMonotone(y: int, m1: int, m2: int)
    requires 1 <= m1 <= m2 <= 13
    ensures DaysBeforeMonth(y, m1) <= DaysBeforeMonth(y, m2)
  {
  }

  /** Days from 0001-01-01 to the first of January of year `y`. */
  function DaysBeforeYear(y: int): int {
    365 * (y - 1) + (y - 1) / 4 - (y - 1) / 100 + (y - 1) / 400
  }

  lemma DaysBeforeYearStep(y: int)
    ensures DaysBeforeYear(y + 1) == DaysBeforeYear(y) + YearLength(y)
  {
    LeapDivisions(y);
  }

  /** Going from y - 1 to y adds a multiple of 4, 100 or 400 exactly when y is one. */
  lemma LeapDivisions(y: int)
    ensures y / 4 - (y - 1) / 4 == if y % 4 == 0 then 1 else 0
    ensures y / 100 - (y - 1) / 100 == if y % 100 == 0 then 1 else 0
    ensures y / 400 - (y - 1) / 400 == if y % 400 == 0 then 1 else 0
    ensures y % 400 == 0 ==> y % 100 == 0
    ensures y % 100 == 0 ==> y % 4 == 0
  {
  }

  lemma {:induction false} DaysBeforeYearMonotone(y1: int, y2: int)
    requires y1 <= y2
    ensures DaysBeforeYear(y1) <= DaysBeforeYear(y2)
    decreases y2 - y1
  {
    if y1 < y2 {
      DaysBeforeYearStep(y1);
      DaysBeforeYearMonotone(y1 + 1, y2);
    }
  }

  /**
   * The day number of a date: 0 for 0001-01-01, one more for each later day.
   * Comparing two JavaScript Dates taken at the same time of day is
   * comparing their day numbers.
   */
  function Ordinal(d: Date): int {
    DaysBeforeYear(d.year) + DaysBeforeMonth(d.year, d.month) + d.day - 1
  }

  /** Lexicographic order on (year, month, day). */
  predicate Precedes(a: CivilDate, b: CivilDate) {
    a.year < b.year
    || (a.year == b.year && (a.month < b.month || (a.month == b.month && a.day < b.day)))
  }

  lemma OrdinalWithinYear(d: Date)
    ensures DaysBeforeYear(d.year) <= Ordinal(d) < DaysBeforeYear(d.year + 1)
  {
    DaysBeforeYearStep(d.year);
    DaysBeforeMonthStep(d.year, d.month);
    DaysBeforeMonthMonotone(d.year, d.month + 1, 13);
  }

  /** The day number orders dates as the calendar does. */
  lemma OrdinalRespectsOrder(a: Date, b: Date)
    requires Precedes(a, b)
    ensures Ordinal(a) < Ordinal(b)
  {
    if a.year < b.year {
      OrdinalWithinYear(a);
      OrdinalWithinYear(b);
      DaysBeforeYearMonotone(a.year + 1, b.year);
    } else if a.month < b.month {
      DaysBeforeMonthStep(a.year, a.month);
      DaysBeforeMonthMonotone(a.year, a.month + 1, b.month);
    }
  }

  /** Distinct dates have distinct day numbers: the day number is a key. */
  lemma OrdinalInjective(a: Date, b: Date)
    requires Ordinal(a) == Ordinal(b)
    ensures a == b
  {
    if Precedes(a, b) {
      OrdinalRespectsOrder(a, b);
    } else if Precedes(b, a) {
      OrdinalRespectsOrder(b, a);
    }
  }

  /** addDays(d, 1). */
  function Next(d: Date): (r: Date)
    ensures Ordinal(r) == Ordinal(d) + 1
  {
    if d.day < MonthLength(d.year, d.month) then
      CivilDate(d.year, d.month, d.day + 1)
    else if d.month < 12 then
      DaysBeforeMonthStep(d.year, d.month);
      CivilDate(d.year, d.month + 1, 1)
    else
      DaysBeforeYearStep(d.year);
      DaysBeforeMonthStep(d.year, d.month);
      CivilDate(d.year + 1, 1, 1)
  }

  /** addDays(d, n) for n >= 0. */
  function AddDays(d: Date, n: nat): (r: Date)
    ensures Ordinal(r) == Ordinal(d) + n
    decreases n
  {
    if n == 0 then d else AddDays(Next(d), n - 1)
  }

  /** date-fns getDay: 0 = Sunday, 1 = Monday, ..., 6 = Saturday. */
  function DayOfWeek(d: Date): (w: int)
    ensures 0 <= w < 7
  {
    (Ordinal(d) + 1) % 7
  }

  /** date-fns isWeekend: Saturday or Sunday. */
  predicate IsWeekend(d: Date) {
    DayOfWeek(d) == 0 || DayOfWeek(d) == 6
  }

  /**
   * The Monday-started week a date falls in. getWeek with weekStartsOn: 1
   * numbers these weeks; two dates of the same calendar month get the same
   * week number exactly when they share this key.
   */
  function WeekKey(d: Date): int {
    Ordinal(d) / 7
  }

  lemma MondayArith(o: int, i: int)
    requires (o + 1) % 7 == 1 && 0 <= i < 7
    ensures (o + i) / 7 == o / 7
    ensures ((o + i + 1) % 7 == 0 || (o + i + 1) % 7 == 6) <==> i >= 5
    ensures (o + i + 7) / 7 == o / 7 + 1
  {
  }

  /**
   * The week from a Monday: the seven days from it share its key, the first
   * five are weekdays and the last two weekend days, and the seven days
   * after them share the next key.
   */
  lemma MondayStartedWeek(monday: Date, i: nat)
    requires DayOfWeek(monday) == 1 && i < 7
    ensures WeekKey(AddDays(monday, i)) == WeekKey(monday)
    ensures IsWeekend(AddDays(monday, i)) <==> i >= 5
    ensures WeekKey(AddDays(monday, i + 7)) == WeekKey(monday) + 1
  {
    MondayWeekKeys(monday, i, AddDays(monday, i), AddDays(monday, i + 7));
    MondayWeekends(monday, i, AddDays(monday, i));
  }

  lemma MondayWeekKeys(monday: Date, i: nat, x: Date, y: Date)
    requires DayOfWeek(monday) == 1 && i < 7
    requires Ordinal(x) == Ordinal(monday) + i && Ordinal(y) == Ordinal(monday) + i + 7
    ensures WeekKey(x) == WeekKey(monday) && WeekKey(y) == WeekKey(monday) + 1
  {
    MondayArith(Ordinal(monday), i);
  }

  lemma MondayWeekends(monday: Date, i: nat, x: Date)
    requires DayOfWeek(monday) == 1 && i < 7
    requires Ordinal(x) == Ordinal(monday) + i
    ensures IsWeekend(x) <==> i >= 5
  {
    MondayArith(Ordinal(monday), i);
  }

  function StartOfMonth(d: Date): (r: Date)
    ensures r.year == d.year && r.month == d.month && r.day == 1
  {
    CivilDate(d.year, d.month, 1)
  }

  function EndOfMonth(d: Date): (r: Date)
    ensures r.year == d.year && r.month == d.month
    ensures r.day == MonthLength(d.year, d.month)
  {
    CivilDate(d.year, d.month, MonthLength(d.year, d.month))
  }

  function StartOfYear(d: Date): (r: Date)
    ensures r.year == d.year && r.month == 1 && r.day == 1
  {
    CivilDate(d.year, 1, 1)
  }

  function EndOfYear(d: Date): (r: Date)
    ensures r.year == d.year && r.month == 12 && r.day == 31
  {
    CivilDate(d.year, 12, 31)
  }

  /** A date lies in the month of `m` exactly when its day number lies between the month's first and last day. */
  lemma InMonthIffBetween(m: Date, x: Date)
    ensures x.year == m.year && x.month == m.month
        <==> Ordinal(StartOfMonth(m)) <= Ordinal(x) <= Ordinal(EndOfMonth(m))
  {
    if Precedes(x, StartOfMonth(m)) {
      OrdinalRespectsOrder(x, StartOfMonth(m));
    } else if Precedes(EndOfMonth(m), x) {
      OrdinalRespectsOrder(EndOfMonth(m), x);
    }
  }

  /** A date lies in the year of `y` exactly when its day number lies between 1 January and 31 December. */
  lemma InYearIffBetween(y: Date, x: Date)
    ensures x.year == y.year
        <==> Ordinal(StartOfYear(y)) <= Ordinal(x) <= Ordinal(EndOfYear(y))
  {
    if Precedes(x, StartOfYear(y)) {
      OrdinalRespectsOrder(x, StartOfYear(y));
    } else if Precedes(EndOfYear(y), x) {
      OrdinalRespectsOrder(EndOfYear(y), x);
    } else if x.year == y.year {
      if x != StartOfYear(y) { OrdinalRespectsOrder(StartOfYear(y), x); }
      if x != EndOfYear(y) { OrdinalRespectsOrder(x, EndOfYear(y)); }
    }
  }

  /** date-fns eachDayOfInterval({start: a, end: b}): every day from a to b, inclusive. */
  function DaysBetween(a: Date, b: Date): (r: seq<Date>)
    ensures |r| == if Ordinal(a) <= Ordinal(b) then Ordinal(b) - Ordinal(a) + 1 else 0
    ensures forall i :: 0 <= i < |r| ==> Ordinal(r[i]) == Ordinal(a) + i
    decreases Ordinal(b) - Ordinal(a) + 1
  {
    if Ordinal(b) < Ordinal(a) then [] else [a] + DaysBetween(Next(a), b)
  }

  /** Exactly the dates whose day number lies in [a, b] are listed, in calendar order. */
  lemma InDaysBetween(a: Date, b: Date, x: Date)
    ensures x in DaysBetween(a, b) <==> Ordinal(a) <= Ordinal(x) <= Ordinal(b)
  {
    var r := DaysBetween(a, b);
    if Ordinal(a) <= Ordinal(x) <= Ordinal(b) {
      var i := Ordinal(x) - Ordinal(a);
      OrdinalInjective(r[i], x);
    }
  }

  /** Strictly increasing day numbers: ascending, no repeats. */
  ghost predicate StrictlyAscending(ds: seq<Date>) {
    forall i, j :: 0 <= i < j < |ds| ==> Ordinal(ds[i]) < Ordinal(ds[j])
  }

  /** `days.filter(d => !isWeekend(d))`. */
  function Workdays(ds: seq<Date>): (r: seq<Date>)
    ensures |r| <= |ds|
    ensures forall x :: x in r <==> x in ds && !IsWeekend(x)
  {
    if ds == [] then []
    else
      var last := ds[|ds| - 1];
      Workdays(ds[..|ds| - 1]) + (if IsWeekend(last) then [] else [last])
  }

  lemma {:induction false} WorkdaysAscending(ds: seq<Date>)
    requires StrictlyAscending(ds)
    ensures StrictlyAscending(Workdays(ds))
  {
    if ds != [] {
      var init := ds[..|ds| - 1];
      var last := ds[|ds| - 1];
      assert StrictlyAscending(init);
      WorkdaysAscending(init);
      var w := Workdays(init);
      if IsWeekend(last) {
        assert Workdays(ds) == w + [];
      } else {
        forall x | x in w ensures Ordinal(x) < Ordinal(last) {
          var k :| 0 <= k < |init| && init[k] == x;
        }
        AscendingAppend(w, last);
      }
    }
  }

  lemma AscendingAppend(ds: seq<Date>, x: Date)
    requires StrictlyAscending(ds)
    requires forall y :: y in ds ==> Ordinal(y) < Ordinal(x)
    ensures StrictlyAscending(ds + [x])
  {
    forall i, j | 0 <= i < j < |ds| + 1 ensures Ordinal((ds + [x])[i]) < Ordinal((ds + [x])[j]) {
      if j == |ds| {
        assert ds[i] in ds;
      }
    }
  }

  /** The workdays of [a, b]: every Monday to Friday in the interval, in ascending order. */
  lemma WorkdaysBetween(a: Date, b: Date)
    ensures StrictlyAscending(Workdays(DaysBetween(a, b)))
    ensures forall x :: x in Workdays(DaysBetween(a, b))
                    <==> Ordinal(a) <= Ordinal(x) <= Ordinal(b) && !IsWeekend(x)
  {
    WorkdaysAscending(DaysBetween(a, b));
    forall x ensures x in DaysBetween(a, b) <==> Ordinal(a) <= Ordinal(x) <= Ordinal(b) {
      InDaysBetween(a, b, x);
    }
  }

  /** 2024-01-01 is a Monday, as in the calendar the application runs on. */
  lemma FirstOfJanuary2024IsMonday()
    ensures DayOfWeek(CivilDate(2024, 1, 1)) == 1
  {
  }
}
