/** Per-day office coverage of App.tsx: how much of the roster is in the office, and its label. */
module Coverage {
  import opened Calendar
  import opened Types
  import opened ScheduleStore
  import opened Percent

  /** Number of roster employees whose day reads Office (an absent entry counts as Office). */
  function OfficeCount(store: Store, roster: seq<Employee>, d: Date): (n: nat)
    ensures n <= |roster|
  {
    if roster == [] then 0
    else
      var last := roster[|roster| - 1];
      OfficeCount(store, roster[..|roster| - 1], d)
        + (if GetDayStatus(store, last.id, d) == Office then 1 else 0)
  }

  /** The whole roster is counted exactly when every roster employee reads Office. */
  lemma {:induction false} OfficeCountAll(store: Store, roster: seq<Employee>, d: Date)
    ensures OfficeCount(store, roster, d) == |roster|
            <==> forall e :: e in roster ==> GetDayStatus(store, e.id, d) == Office
  {
    if roster != [] {
      var init := roster[..|roster| - 1];
      var last := roster[|roster| - 1];
      OfficeCountAll(store, init, d);
      SnocMembers(roster);
    }
  }

  /** Nobody is counted exactly when no roster employee reads Office. */
  lemma {:induction false} OfficeCountNone(store: Store, roster: seq<Employee>, d: Date)
    ensures OfficeCount(store, roster, d) == 0
            <==> forall e :: e in roster ==> GetDayStatus(store, e.id, d) != Office
  {
    if roster != [] {
      var init := roster[..|roster| - 1];
      var last := roster[|roster| - 1];
      OfficeCountNone(store, init, d);
      SnocMembers(roster);
    }
  }

  /** A non-empty roster holds its last element and the members of the rest, and nothing else. */
  lemma SnocMembers(roster: seq<Employee>)
    requires roster != []
    ensures forall e :: e in roster <==> e in roster[..|roster| - 1] || e == roster[|roster| - 1]
  {
    assert roster == roster[..|roster| - 1] + [roster[|roster| - 1]];
  }

  datatype OfficeCoverage = OfficeCoverage(count: nat, total: nat, percentage: nat)

  /**
   * getOfficeCoverage: the office count, the roster size and the rounded
   * percentage of the one in the other. The roster is never empty.
   */
  function GetOfficeCoverage(store: Store, roster: seq<Employee>, d: Date): (c: OfficeCoverage)
    requires |roster| > 0
    ensures c.count == OfficeCount(store, roster, d)
    ensures c.total == |roster| && c.count <= c.total
    ensures IsRoundedPercent(c.percentage, c.count, c.total)
    ensures c.percentage <= 100
  {
    var count := OfficeCount(store, roster, d);
    OfficeCoverage(count, |roster|, RoundPercent(count, |roster|))
  }

  datatype CoverageLevel = Low | Fair | Good

  /** getCoverageStyle's label: Good from 60 percent, Fair from 40 percent, Low below. */
  function CoverageStyle(percentage: int): (l: CoverageLevel)
    ensures l == Good <==> percentage >= 60
    ensures l == Fair <==> 40 <= percentage < 60
    ensures l == Low <==> percentage < 40
  {
    if percentage >= 60 then Good
    else if percentage >= 40 then Fair
    else Low
  }

  function LevelRank(l: CoverageLevel): nat {
    match l
    case Low => 0
    case Fair => 1
    case Good => 2
  }

  /** A higher percentage never gets a worse label. */
  lemma CoverageStyleMonotone(p: int, q: int)
    requires p <= q
    ensures LevelRank(CoverageStyle(p)) <= LevelRank(CoverageStyle(q))
  {
  }

  /**
   * With the six-employee roster the label depends only on the head count:
   * Good from four in the office, Fair at three, Low at two or fewer.
   */
  lemma CoverageLabelForSix(store: Store, d: Date)
    ensures var c := GetOfficeCoverage(store, InitialEmployees, d);
            && (CoverageStyle(c.percentage) == Good <==> c.count >= 4)
            && (CoverageStyle(c.percentage) == Fair <==> c.count == 3)
            && (CoverageStyle(c.percentage) == Low <==> c.count <= 2)
  {
    var c := GetOfficeCoverage(store, InitialEmployees, d);
    assert c.total == 6;
    assert 12 * c.percentage <= 200 * c.count + 6 < 12 * (c.percentage + 1);
  }
}
