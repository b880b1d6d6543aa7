/**
 * The statistics dashboard (components/StatisticsModal.tsx): the date range
 * of the chosen scope capped at today, the per-employee tallies over its
 * workdays, the overall totals, the office-attendance leaderboard, the
 * scale of the weekday heatmap and its colour bands.
 */
module Statistics {
  import opened Wrappers
  import opened Calendar
  import opened Types
  import opened ScheduleStore

  datatype Scope = MonthScope | YearScope

  /** The counted period: its first day, its last counted day, and its workdays in order. */
  datatype StatsRange = StatsRange(minDate: Date, maxDate: Date, workdays: seq<Date>)

  function WindowStart(current: Date, scope: Scope): Date {
    match scope
    case MonthScope => StartOfMonth(current)
    case YearScope => StartOfYear(current)
  }

  function WindowEnd(current: Date, scope: Scope): Date {
    match scope
    case MonthScope => EndOfMonth(current)
    case YearScope => EndOfYear(current)
  }

  /** Whether `x` lies in the month (or the year) of `current`. */
  predicate InScope(current: Date, scope: Scope, x: Date) {
    x.year == current.year && (scope == MonthScope ==> x.month == current.month)
  }

  lemma InScopeIffBetween(current: Date, scope: Scope, x: Date)
    ensures InScope(current, scope, x)
            <==> Ordinal(WindowStart(current, scope)) <= Ordinal(x) <= Ordinal(WindowEnd(current, scope))
  {
    match scope
    case MonthScope => InMonthIffBetween(current, x);
    case YearScope => InYearIffBetween(current, x);
  }

  /**
   * dateRange: the month or year of `current`, its end capped at `today`;
   * None when the whole window lies after today.
   */
  function DateRange(current: Date, scope: Scope, today: Date): (r: Option<StatsRange>)
    ensures r.None? <==> Ordinal(today) < Ordinal(WindowStart(current, scope))
    ensures r.Some? ==> r.value.minDate == WindowStart(current, scope)
    ensures r.Some? ==> Ordinal(r.value.maxDate) <= Ordinal(today)
                        && Ordinal(r.value.maxDate) <= Ordinal(WindowEnd(current, scope))
                        && (r.value.maxDate == today || r.value.maxDate == WindowEnd(current, scope))
  {
    var rangeStart := WindowStart(current, scope);
    var rangeEnd := WindowEnd(current, scope);
    var effectiveEnd := if Ordinal(rangeEnd) <= Ordinal(today) then rangeEnd else today;
    if Ordinal(today) < Ordinal(rangeStart) then None
    else Some(StatsRange(rangeStart, effectiveEnd, Workdays(DaysBetween(rangeStart, effectiveEnd))))
  }

  /**
   * The counted workdays are exactly the Monday-to-Friday dates of the
   * window up to and including today, in ascending order.
   */
  lemma DateRangeWorkdays(current: Date, scope: Scope, today: Date)
    requires DateRange(current, scope, today).Some?
    ensures StrictlyAscending(DateRange(current, scope, today).value.workdays)
    ensures forall x :: x in DateRange(current, scope, today).value.workdays
                    <==> InScope(current, scope, x) && Ordinal(x) <= Ordinal(today) && !IsWeekend(x)
  {
    var r := DateRange(current, scope, today).value;
    WorkdaysBetween(r.minDate, r.maxDate);
    forall x ensures InScope(current, scope, x)
                     <==> Ordinal(WindowStart(current, scope)) <= Ordinal(x) <= Ordinal(WindowEnd(current, scope)) {
      InScopeIffBetween(current, scope, x);
    }
  }

  /** The workdays counted for a range; none without one. */
  function RangeWorkdays(range: Option<StatsRange>): seq<Date> {
    match range
    case None => []
    case Some(r) => r.workdays
  }

  /** A record of one count per status. */
  datatype StatusCounts = StatusCounts(office: nat, wfh: nat, vacation: nat, sick: nat, event: nat, meeting: nat)
  {
    function Get(s: WorkStatus): nat {
      match s
      case Office => office
      case Wfh => wfh
      case Vacation => vacation
      case Sick => sick
      case Event => event
      case Meeting => meeting
    }

    /** `counts[s] += n`: only the count of `s` grows, by n. */
    function Add(s: WorkStatus, n: nat): (c: StatusCounts)
      ensures c.Get(s) == Get(s) + n
      ensures forall t :: t != s ==> c.Get(t) == Get(t)
      ensures c.Total() == Total() + n
    {
      match s
      case Office => this.(office := office + n)
      case Wfh => this.(wfh := wfh + n)
      case Vacation => this.(vacation := vacation + n)
      case Sick => this.(sick := sick + n)
      case Event => this.(event := event + n)
      case Meeting => this.(meeting := meeting + n)
    }

    /** The sum of the record's values. */
    function Total(): nat {
      office + wfh + vacation + sick + event + meeting
    }
  }

  const ZeroCounts := StatusCounts(0, 0, 0, 0, 0, 0)

  /** Number of days of `ws` that read status `s` in `days` (an absent entry reads Office). */
  function CountStatus(days: map<Date, DaySchedule>, ws: seq<Date>, s: WorkStatus): (n: nat)
    ensures n <= |ws|
  {
    if ws == [] then 0
    else
      CountStatus(days, ws[..|ws| - 1], s)
        + (if EffectiveStatus(days, ws[|ws| - 1]) == s then 1 else 0)
  }

  /** Number of days of `ws` that read Wfh and fall on weekday k (0 = Monday, ..., 4 = Friday). */
  function CountWfhOn(days: map<Date, DaySchedule>, ws: seq<Date>, k: nat): (n: nat)
    ensures n <= CountStatus(days, ws, Wfh)
  {
    if ws == [] then 0
    else
      var d := ws[|ws| - 1];
      CountWfhOn(days, ws[..|ws| - 1], k)
        + (if EffectiveStatus(days, d) == Wfh && DayOfWeek(d) == k + 1 then 1 else 0)
  }

  /** The per-status tally of a list of days. */
  function CountsOf(days: map<Date, DaySchedule>, ws: seq<Date>): StatusCounts {
    StatusCounts(CountStatus(days, ws, Office), CountStatus(days, ws, Wfh), CountStatus(days, ws, Vacation),
                 CountStatus(days, ws, Sick), CountStatus(days, ws, Event), CountStatus(days, ws, Meeting))
  }

  /** Every day is counted under exactly one status: the six counts add up to the number of days. */
  lemma {:induction false} CountsConservation(days: map<Date, DaySchedule>, ws: seq<Date>)
    ensures CountsOf(days, ws).Total() == |ws|
  {
    if ws != [] {
      CountsConservation(days, ws[..|ws| - 1]);
    }
  }

  /** Over Monday-to-Friday days, the Wfh counts per weekday add up to the Wfh count. */
  lemma {:induction false} WfhByWeekdaySum(days: map<Date, DaySchedule>, ws: seq<Date>)
    requires forall x :: x in ws ==> !IsWeekend(x)
    ensures CountWfhOn(days, ws, 0) + CountWfhOn(days, ws, 1) + CountWfhOn(days, ws, 2)
            + CountWfhOn(days, ws, 3) + CountWfhOn(days, ws, 4) == CountStatus(days, ws, Wfh)
  {
    if ws != [] {
      var init := ws[..|ws| - 1];
      assert forall x :: x in init ==> x in ws;
      WfhByWeekdaySum(days, init);
      assert !IsWeekend(ws[|ws| - 1]);
    }
  }

  /** Counting one more day adds one to the count of the status it reads. */
  lemma CountsOfStep(days: map<Date, DaySchedule>, ws: seq<Date>, i: nat)
    requires i < |ws|
    ensures CountsOf(days, ws[..i + 1]) == CountsOf(days, ws[..i]).Add(EffectiveStatus(days, ws[i]), 1)
    ensures forall k: nat :: CountWfhOn(days, ws[..i + 1], k)
                        == CountWfhOn(days, ws[..i], k)
                           + (if EffectiveStatus(days, ws[i]) == Wfh && DayOfWeek(ws[i]) == k + 1 then 1 else 0)
  {
    var p := ws[..i + 1];
    assert p[..|p| - 1] == ws[..i];
    assert p[|p| - 1] == ws[i];
  }

  /** One row of the statistics. */
  datatype EmployeeStats = EmployeeStats(employeeId: string, name: string, avatar: string, role: string,
                                         totalDays: nat, statusCounts: StatusCounts, dayOfWeekWfh: seq<nat>)

  /**
   * `st` is the row of `emp` over the workdays `ws`: the employee's
   * identity, the per-status tally of the days, its sum as the day total,
   * and the Wfh count of each weekday, Monday first.
   */
  ghost predicate IsStatsOf(st: EmployeeStats, emp: Employee, store: Store, ws: seq<Date>) {
    && st.employeeId == emp.id && st.name == emp.name && st.avatar == emp.avatar && st.role == emp.role
    && st.statusCounts == CountsOf(DaysOf(store, emp.id), ws)
    && st.totalDays == st.statusCounts.Total()
    && |st.dayOfWeekWfh| == 5
    && forall k :: 0 <= k < 5 ==> st.dayOfWeekWfh[k] == CountWfhOn(DaysOf(store, emp.id), ws, k)
  }

  /** A row's day total is the number of workdays. */
  lemma StatsTotal(st: EmployeeStats, emp: Employee, store: Store, ws: seq<Date>)
    requires IsStatsOf(st, emp, store, ws)
    ensures st.totalDays == |ws| && st.statusCounts.Total() == |ws|
  {
    CountsConservation(DaysOf(store, emp.id), ws);
  }

  /**
   * The per-employee step of the statistics memo: walk the range's
   * workdays, count each day under the status it reads (Office when it
   * has no entry), and count the Wfh days per weekday.
   */
  method EmployeeStatistics(emp: Employee, store: Store, range: Option<StatsRange>) returns (st: EmployeeStats)
    ensures IsStatsOf(st, emp, store, RangeWorkdays(range))
  {
    var days := DaysOf(store, emp.id);
    var ws := RangeWorkdays(range);
    var statusCounts := ZeroCounts;
    var dayOfWeekWfh: seq<nat> := [0, 0, 0, 0, 0];
    if range.Some? {
      for i := 0 to |ws|
        invariant statusCounts == CountsOf(days, ws[..i])
        invariant |dayOfWeekWfh| == 5
        invariant forall k :: 0 <= k < 5 ==> dayOfWeekWfh[k] == CountWfhOn(days, ws[..i], k)
      {
        CountsOfStep(days, ws, i);
        var date := ws[i];
        var status := EffectiveStatus(days, date);
        statusCounts := statusCounts.Add(status, 1);
        var dow := DayOfWeek(date);
        if dow >= 1 && dow <= 5 {
          var adjustedDow := dow - 1;
          if status == Wfh {
            dayOfWeekWfh := dayOfWeekWfh[adjustedDow := dayOfWeekWfh[adjustedDow] + 1];
          }
        }
      }
      assert ws[..|ws|] == ws;
    }
    assert statusCounts == CountsOf(days, ws);
    st := EmployeeStats(emp.id, emp.name, emp.avatar, emp.role, statusCounts.Total(), statusCounts, dayOfWeekWfh);
  }

  /** The statistics memo: one row per roster employee, in roster order. */
  method ComputeStatistics(store: Store, roster: seq<Employee>, range: Option<StatsRange>)
    returns (stats: seq<EmployeeStats>)
    ensures |stats| == |roster|
    ensures forall i :: 0 <= i < |roster| ==> IsStatsOf(stats[i], roster[i], store, RangeWorkdays(range))
  {
    stats := [];
    for i := 0 to |roster|
      invariant |stats| == i
      invariant forall j :: 0 <= j < i ==> IsStatsOf(stats[j], roster[j], store, RangeWorkdays(range))
    {
      var st := EmployeeStatistics(roster[i], store, range);
      stats := stats + [st];
      assert stats[i] == st;
    }
  }

  /** The sum over the rows of their count of `s`. */
  function SumStatus(stats: seq<EmployeeStats>, s: WorkStatus): nat {
    if stats == [] then 0
    else SumStatus(stats[..|stats| - 1], s) + stats[|stats| - 1].statusCounts.Get(s)
  }

  /** The sum over the rows of their day totals. */
  function SumTotalDays(stats: seq<EmployeeStats>): nat {
    if stats == [] then 0
    else SumTotalDays(stats[..|stats| - 1]) + stats[|stats| - 1].totalDays
  }

  /**
   * overallStats: per status, the sum of the rows' counts, and the grand
   * total of those sums.
   */
  method OverallStats(stats: seq<EmployeeStats>) returns (totals: StatusCounts, total: nat)
    ensures forall s :: totals.Get(s) == SumStatus(stats, s)
    ensures total == totals.Total()
  {
    totals := ZeroCounts;
    for i := 0 to |stats|
      invariant forall s :: totals.Get(s) == SumStatus(stats[..i], s)
    {
      assert stats[..i + 1][..i] == stats[..i];
      totals := AddCounts(totals, stats[i].statusCounts);
    }
    assert stats[..|stats|] == stats;
    total := totals.Total();
  }

  /** Position of a status in the order of the status records. */
  function StatusIndex(s: WorkStatus): (k: nat)
    ensures k < |AllStatuses| && AllStatuses[k] == s
  {
    match s
    case Office => 0
    case Wfh => 1
    case Vacation => 2
    case Sick => 3
    case Event => 4
    case Meeting => 5
  }

  /** The inner loop of overallStats: `totals[status] += counts[status]` for every status. */
  method AddCounts(totals: StatusCounts, counts: StatusCounts) returns (r: StatusCounts)
    ensures forall s :: r.Get(s) == totals.Get(s) + counts.Get(s)
  {
    r := totals;
    for j := 0 to |AllStatuses|
      invariant forall s :: r.Get(s) == totals.Get(s) + (if StatusIndex(s) < j then counts.Get(s) else 0)
    {
      var status := AllStatuses[j];
      assert StatusIndex(status) == j;
      r := r.Add(status, counts.Get(status));
    }
  }

  /** Summing per status then across statuses gives the sum of the rows' tally totals. */
  lemma {:induction false} SumStatusTotals(stats: seq<EmployeeStats>)
    ensures SumStatus(stats, Office) + SumStatus(stats, Wfh) + SumStatus(stats, Vacation)
            + SumStatus(stats, Sick) + SumStatus(stats, Event) + SumStatus(stats, Meeting)
            == SumCountTotals(stats)
  {
    if stats != [] {
      SumStatusTotals(stats[..|stats| - 1]);
    }
  }

  function SumCountTotals(stats: seq<EmployeeStats>): nat {
    if stats == [] then 0
    else SumCountTotals(stats[..|stats| - 1]) + stats[|stats| - 1].statusCounts.Total()
  }

  /**
   * For rows built by the statistics memo the grand total is the number of
   * employees times the number of counted workdays, and the overall count
   * of a status is the number of (employee, workday) pairs reading it.
   */
  lemma OverallTotalOfStatistics(store: Store, roster: seq<Employee>, ws: seq<Date>, stats: seq<EmployeeStats>)
    requires |stats| == |roster|
    requires forall i :: 0 <= i < |roster| ==> IsStatsOf(stats[i], roster[i], store, ws)
    ensures SumCountTotals(stats) == |roster| * |ws|
    ensures SumTotalDays(stats) == |roster| * |ws|
  {
    forall i | 0 <= i < |stats|
      ensures stats[i].totalDays == |ws| && stats[i].statusCounts.Total() == |ws|
    {
      StatsTotal(stats[i], roster[i], store, ws);
    }
    UniformTotals(stats, |ws|);
  }

  /**
   * The grand total overallStats reports for rows built by the statistics
   * memo: roster size × number of counted workdays.
   */
  lemma OverallStatsGrandTotal(store: Store, roster: seq<Employee>, ws: seq<Date>,
                               stats: seq<EmployeeStats>, totals: StatusCounts)
    requires |stats| == |roster|
    requires forall i :: 0 <= i < |roster| ==> IsStatsOf(stats[i], roster[i], store, ws)
    requires forall s :: totals.Get(s) == SumStatus(stats, s)
    ensures totals.Total() == |roster| * |ws|
  {
    assert totals.Get(Office) == SumStatus(stats, Office) && totals.Get(Wfh) == SumStatus(stats, Wfh);
    assert totals.Get(Vacation) == SumStatus(stats, Vacation) && totals.Get(Sick) == SumStatus(stats, Sick);
    assert totals.Get(Event) == SumStatus(stats, Event) && totals.Get(Meeting) == SumStatus(stats, Meeting);
    SumStatusTotals(stats);
    OverallTotalOfStatistics(store, roster, ws, stats);
  }

  lemma {:induction false} UniformTotals(stats: seq<EmployeeStats>, n: nat)
    requires forall i :: 0 <= i < |stats| ==> stats[i].totalDays == n && stats[i].statusCounts.Total() == n
    ensures SumCountTotals(stats) == |stats| * n
    ensures SumTotalDays(stats) == |stats| * n
  {
    if stats != [] {
      var m := |stats| - 1;
      UniformTotals(stats[..m], n);
      MultiplySucc(m, n);
    }
  }

  lemma MultiplySucc(m: nat, n: nat)
    ensures (m + 1) * n == m * n + n
  {
  }

  /**
   * maxWfhCount: the largest per-weekday Wfh count over all rows, and at
   * least 1 (so the heatmap never divides by zero).
   */
  method MaxWfhCount(stats: seq<EmployeeStats>) returns (max: nat)
    ensures max >= 1
    ensures forall i, k :: 0 <= i < |stats| && 0 <= k < |stats[i].dayOfWeekWfh| ==> stats[i].dayOfWeekWfh[k] <= max
    ensures max == 1 || exists i, k :: 0 <= i < |stats| && 0 <= k < |stats[i].dayOfWeekWfh|
                                       && stats[i].dayOfWeekWfh[k] == max
  {
    max := 1;
    for i := 0 to |stats|
      invariant max >= 1
      invariant forall i', k :: 0 <= i' < i && 0 <= k < |stats[i'].dayOfWeekWfh| ==> stats[i'].dayOfWeekWfh[k] <= max
      invariant max == 1 || exists i', k :: 0 <= i' < i && 0 <= k < |stats[i'].dayOfWeekWfh|
                                            && stats[i'].dayOfWeekWfh[k] == max
    {
      var counts := stats[i].dayOfWeekWfh;
      for k := 0 to |counts|
        invariant max >= 1
        invariant forall i', k' :: 0 <= i' < i && 0 <= k' < |stats[i'].dayOfWeekWfh| ==> stats[i'].dayOfWeekWfh[k'] <= max
        invariant forall k' :: 0 <= k' < k ==> counts[k'] <= max
        invariant max == 1 || exists i', k' :: 0 <= i' <= i && 0 <= k' < |stats[i'].dayOfWeekWfh|
                                               && stats[i'].dayOfWeekWfh[k'] == max
      {
        if counts[k] > max {
          max := counts[k];
        }
      }
    }
  }

  /** The colour bands of the weekday heatmap. */
  datatype HeatShade = Empty | Shade200 | Shade300 | Shade400 | Shade500

  function ShadeRank(h: HeatShade): nat {
    match h
    case Empty => 0
    case Shade200 => 1
    case Shade300 => 2
    case Shade400 => 3
    case Shade500 => 4
  }

  /**
   * getHeatmapColor: grey for a zero count, otherwise the band of
   * count / max above 0.75, 0.5 and 0.25 (compared without division; with
   * max = 0 a positive count is infinitely intense, the darkest band).
   */
  function HeatmapColor(count: nat, max: nat): (h: HeatShade)
    ensures h == Empty <==> count == 0
  {
    if count == 0 then Empty
    else if 4 * count > 3 * max then Shade500
    else if 2 * count > max then Shade400
    else if 4 * count > max then Shade300
    else Shade200
  }

  /** A larger count on the same scale never gets a lighter band. */
  lemma HeatmapMonotone(c1: nat, c2: nat, max: nat)
    requires c1 <= c2
    ensures ShadeRank(HeatmapColor(c1, max)) <= ShadeRank(HeatmapColor(c2, max))
  {
  }

  /**
   * The maximum itself is in the darkest band, and a positive count at most
   * a quarter of the maximum in the lightest.
   */
  lemma HeatmapExtremes(count: nat, max: nat)
    ensures count > 0 && count >= max ==> HeatmapColor(count, max) == Shade500
    ensures 0 < count && 4 * count <= max ==> HeatmapColor(count, max) == Shade200
  {
  }

  /** Office attendance rate of `a` is at least that of `b` (office / totalDays, cross-multiplied). */
  predicate RateAtLeast(a: EmployeeStats, b: EmployeeStats) {
    a.statusCounts.office * b.totalDays >= b.statusCounts.office * a.totalDays
  }

  /** `filter(s => s.totalDays > 0)`. */
  function Active(stats: seq<EmployeeStats>): (r: seq<EmployeeStats>)
    ensures forall x :: x in r <==> x in stats && x.totalDays > 0
    ensures forall x :: multiset(r)[x] == if x.totalDays > 0 then multiset(stats)[x] else 0
  {
    if stats == [] then []
    else
      var init, last := stats[..|stats| - 1], stats[|stats| - 1];
      assert stats == init + [last];
      Active(init) + (if last.totalDays > 0 then [last] else [])
  }

  /** Insert `x` into a list sorted by rate, after every row whose rate is at least that of `x`. */
  function Insert(x: EmployeeStats, s: seq<EmployeeStats>): (r: seq<EmployeeStats>)
    ensures multiset(r) == multiset(s) + multiset{x}
  {
    if s == [] then [x]
    else if RateAtLeast(s[0], x) then
      assert s == [s[0]] + s[1..];
      [s[0]] + Insert(x, s[1..])
    else [x] + s
  }

  /** A stable sort by descending rate (insertion sort, earlier rows first among ties). */
  function SortByRate(s: seq<EmployeeStats>): (r: seq<EmployeeStats>)
    ensures multiset(r) == multiset(s)
  {
    if s == [] then []
    else
      assert s == s[..|s| - 1] + [s[|s| - 1]];
      Insert(s[|s| - 1], SortByRate(s[..|s| - 1]))
  }

  /** leaderboard: the rows with at least one counted day, by descending office rate. */
  function Leaderboard(stats: seq<EmployeeStats>): (r: seq<EmployeeStats>)
    ensures forall x :: multiset(r)[x] == if x.totalDays > 0 then multiset(stats)[x] else 0
  {
    SortByRate(Active(stats))
  }

  ghost predicate Descending(s: seq<EmployeeStats>) {
    forall i :: 0 < i < |s| ==> RateAtLeast(s[i - 1], s[i])
  }

  lemma {:induction false} InsertSpec(x: EmployeeStats, s: seq<EmployeeStats>)
    requires Descending(s)
    ensures multiset(Insert(x, s)) == multiset(s) + multiset{x}
    ensures Descending(Insert(x, s))
    ensures |Insert(x, s)| > 0 && (Insert(x, s)[0] == x || (s != [] && Insert(x, s)[0] == s[0]))
    decreases |s|
  {
    if s != [] && RateAtLeast(s[0], x) {
      assert Descending(s[1..]);
      InsertSpec(x, s[1..]);
      assert s == [s[0]] + s[1..];
    }
  }

  lemma {:induction false} SortByRateSpec(s: seq<EmployeeStats>)
    ensures multiset(SortByRate(s)) == multiset(s)
    ensures Descending(SortByRate(s))
  {
    if s != [] {
      var init, last := s[..|s| - 1], s[|s| - 1];
      SortByRateSpec(init);
      InsertSpec(last, SortByRate(init));
      assert SortByRate(s) == Insert(last, SortByRate(init));
    }
  }

  /**
   * The leaderboard holds exactly the rows with a positive day total, each
   * as often as in the statistics, ordered by non-increasing office rate.
   */
  lemma LeaderboardSpec(stats: seq<EmployeeStats>)
    ensures multiset(Leaderboard(stats)) == multiset(Active(stats))
    ensures forall x :: x in Leaderboard(stats) <==> x in stats && x.totalDays > 0
    ensures Descending(Leaderboard(stats))
  {
    SortByRateSpec(Active(stats));
    forall x ensures x in Leaderboard(stats) <==> x in Active(stats) {
      assert x in Leaderboard(stats) <==> x in multiset(Leaderboard(stats));
    }
  }

  /** With no counted period (a window entirely in the future) the leaderboard is empty. */
  lemma LeaderboardEmptyWithoutRange(store: Store, roster: seq<Employee>, stats: seq<EmployeeStats>)
    requires |stats| == |roster|
    requires forall i :: 0 <= i < |roster| ==> IsStatsOf(stats[i], roster[i], store, [])
    ensures Leaderboard(stats) == []
  {
    forall i | 0 <= i < |stats| ensures stats[i].totalDays == 0 {
      StatsTotal(stats[i], roster[i], store, []);
    }
    NoActiveRows(stats);
  }

  lemma NoActiveRows(stats: seq<EmployeeStats>)
    requires forall i :: 0 <= i < |stats| ==> stats[i].totalDays == 0
    ensures Active(stats) == []
  {
  }
}
