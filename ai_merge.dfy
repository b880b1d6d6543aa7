/**
 * The apply loop of handleGenerateSchedule in App.tsx: merge a generated
 * weekly rotation into the store, record by record, matching employees by
 * name and days by weekday name.
 *
 * The specification flattens the response into the list of single-entry
 * writes the loop performs, in order; the loop is proved to apply exactly
 * that list, and the list's effect is characterised by "the last write to
 * an (employee, date) wins, nothing else changes".
 */
module AiMerge {
  import opened Wrappers
  import opened Calendar
  import opened Types
  import opened ScheduleStore

  /** One write `newSchedules[index].days[date] = {date, status}`. */
  datatype Write = Write(index: nat, date: Date, status: WorkStatus)

  function ApplyWrite(store: Store, w: Write): Store {
    if w.index < |store| then
      store[w.index := store[w.index].(days := store[w.index].days[w.date := Entry(w.date, w.status)])]
    else store
  }

  /** The writes applied one after the other. */
  function ApplyWrites(store: Store, ws: seq<Write>): (r: Store)
    ensures |r| == |store| && ScheduleIds(r) == ScheduleIds(store)
  {
    if ws == [] then store
    else
      var r := ApplyWrite(ApplyWrites(store, ws[..|ws| - 1]), ws[|ws| - 1]);
      assert ScheduleIds(r) == ScheduleIds(ApplyWrites(store, ws[..|ws| - 1]));
      r
  }

  /** The status of the last write to (index, date), if any. */
  function LastWrite(ws: seq<Write>, index: nat, date: Date): Option<WorkStatus> {
    if ws == [] then None
    else
      var w := ws[|ws| - 1];
      if w.index == index && w.date == date then Some(w.status)
      else LastWrite(ws[..|ws| - 1], index, date)
  }

  /**
   * The last write to an (employee, date) decides its entry; an
   * (employee, date) that no write targets keeps its entry, or its absence.
   */
  lemma {:induction false} ApplyWritesAt(store: Store, ws: seq<Write>, i: nat, d: Date)
    requires i < |store|
    ensures LastWrite(ws, i, d).Some? ==>
              d in ApplyWrites(store, ws)[i].days
              && ApplyWrites(store, ws)[i].days[d] == Entry(d, LastWrite(ws, i, d).value)
    ensures LastWrite(ws, i, d).None? ==>
              (d in ApplyWrites(store, ws)[i].days <==> d in store[i].days)
              && (d in store[i].days ==> ApplyWrites(store, ws)[i].days[d] == store[i].days[d])
  {
    if ws != [] {
      ApplyWritesAt(store, ws[..|ws| - 1], i, d);
    }
  }

  /** The writes for one record's day list, into the schedule at `index`; unknown day names yield none. */
  function DayWrites(index: nat, weekStart: Date, days: seq<AiDay>): (ws: seq<Write>)
    ensures |ws| <= |days|
    ensures forall w :: w in ws ==>
              w.index == index && Ordinal(weekStart) <= Ordinal(w.date) < Ordinal(weekStart) + 5
  {
    if days == [] then []
    else
      DayWrites(index, weekStart, days[..|days| - 1]) + DayWrite(index, weekStart, days[|days| - 1])
  }

  /** The write for one day entry: at weekStart plus the weekday's index, none for an unknown day name. */
  function DayWrite(index: nat, weekStart: Date, t: AiDay): (ws: seq<Write>)
    ensures |ws| <= 1
    ensures forall w :: w in ws ==>
              w.index == index && Ordinal(weekStart) <= Ordinal(w.date) < Ordinal(weekStart) + 5
    ensures t.day !in WeekDayNames ==> ws == []
    ensures forall k :: 0 <= k < 5 && t.day == WeekDayNames[k] ==>
              ws == [Write(index, AddDays(weekStart, k), t.status)]
  {
    DistinctWeekDayNames();
    match IndexOf(WeekDayNames, t.day)
    case None => []
    case Some(k) => [Write(index, AddDays(weekStart, k), t.status)]
  }

  /**
   * The schedule a record's name resolves to: the first roster employee
   * with that name, then the first schedule with that employee's id.
   */
  function RecordTarget(store: Store, roster: seq<Employee>, name: string): (r: Option<nat>)
    ensures r.Some? ==> r.value < |store|
    ensures r.Some? ==> (name in EmployeeNames(roster)
              && store[r.value].employeeId == roster[IndexOf(EmployeeNames(roster), name).value].id)
  {
    match IndexOf(EmployeeNames(roster), name)
    case None => None
    case Some(e) => IndexOf(ScheduleIds(store), roster[e].id)
  }

  /**
   * The writes for one record: none unless its name is a roster name whose
   * id has a schedule; then at most one per day entry, all into the
   * schedule of the first roster employee with that name, inside the week.
   */
  function RecordWrites(store: Store, roster: seq<Employee>, weekStart: Date, rec: AiEmployeeSchedule): (ws: seq<Write>)
    ensures rec.employeeName !in EmployeeNames(roster) ==> ws == []
    ensures |ws| <= |rec.schedule|
    ensures forall w :: w in ws ==>
              var e := IndexOf(EmployeeNames(roster), rec.employeeName).value;
              w.index < |store| && store[w.index].employeeId == roster[e].id
              && Ordinal(weekStart) <= Ordinal(w.date) < Ordinal(weekStart) + 5
  {
    match RecordTarget(store, roster, rec.employeeName)
    case None => []
    case Some(idx) => DayWrites(idx, weekStart, rec.schedule)
  }

  /**
   * All writes of a response, in order. Each lands inside the week that
   * starts at `weekStart`, in the schedule of a roster employee; a response
   * naming nobody on the roster writes nothing.
   */
  function AiWrites(store: Store, roster: seq<Employee>, weekStart: Date, recs: seq<AiEmployeeSchedule>): (ws: seq<Write>)
    ensures forall w :: w in ws ==>
              w.index < |store|
              && store[w.index].employeeId in EmployeeIds(roster)
              && Ordinal(weekStart) <= Ordinal(w.date) < Ordinal(weekStart) + 5
    ensures (forall r :: r in recs ==> r.employeeName !in EmployeeNames(roster)) ==> ws == []
  {
    if recs == [] then []
    else
      var last := recs[|recs| - 1];
      assert forall r :: r in recs[..|recs| - 1] ==> r in recs;
      AiWrites(store, roster, weekStart, recs[..|recs| - 1]) + RecordWrites(store, roster, weekStart, last)
  }

  /**
   * The apply loop: for every record whose name is on the roster and whose
   * employee has a schedule, write each entry whose day is a weekday name
   * at weekStart plus that weekday's index, overwriting what was there.
   * The result is the response's writes applied in order.
   */
  method ApplyAiSchedule(store: Store, roster: seq<Employee>, weekStart: Date, result: AiScheduleResponse)
    returns (r: Store)
    ensures r == ApplyWrites(store, AiWrites(store, roster, weekStart, result.schedules))
    ensures |r| == |store| && ScheduleIds(r) == ScheduleIds(store)
  {
    var recs := result.schedules;
    r := store;
    for i := 0 to |recs|
      invariant r == ApplyWrites(store, AiWrites(store, roster, weekStart, recs[..i]))
    {
      ghost var before := AiWrites(store, roster, weekStart, recs[..i]);
      AiWritesStep(store, roster, weekStart, recs, i);
      var aiSch := recs[i];
      var emp := IndexOf(EmployeeNames(roster), aiSch.employeeName);
      if emp.Some? {
        var scheduleIdx := IndexOf(ScheduleIds(r), roster[emp.value].id);
        if scheduleIdx.Some? {
          assert RecordWrites(store, roster, weekStart, aiSch)
                 == DayWrites(scheduleIdx.value, weekStart, aiSch.schedule);
          ApplyWritesAppend(store, before, RecordWrites(store, roster, weekStart, aiSch));
          r := ApplyDays(r, scheduleIdx.value, weekStart, aiSch.schedule);
        } else {
          assert before + [] == before;
        }
      } else {
        assert before + [] == before;
      }
    }
    assert recs[..|recs|] == recs;
  }

  /** The inner loop: write each entry of one record whose day is a weekday name into the schedule at `idx`. */
  method ApplyDays(store: Store, idx: nat, weekStart: Date, days: seq<AiDay>) returns (r: Store)
    requires idx < |store|
    ensures r == ApplyWrites(store, DayWrites(idx, weekStart, days))
  {
    r := store;
    assert days[..0] == [];
    for j := 0 to |days|
      invariant r == ApplyWrites(store, DayWrites(idx, weekStart, days[..j]))
    {
      ghost var prefix := DayWrites(idx, weekStart, days[..j]);
      DayWritesStep(idx, weekStart, days, j);
      var daySch := days[j];
      var dayIndex := IndexOf(WeekDayNames, daySch.day);
      if dayIndex.Some? {
        var actualDate := AddDays(weekStart, dayIndex.value);
        ghost var w := Write(idx, actualDate, daySch.status);
        assert DayWrite(idx, weekStart, daySch) == [w];
        ApplyWritesSnoc(store, prefix, w);
        r := r[idx := r[idx].(days := r[idx].days[actualDate := Entry(actualDate, daySch.status)])];
      } else {
        assert DayWrite(idx, weekStart, daySch) == [];
        assert prefix + [] == prefix;
      }
    }
    assert days[..|days|] == days;
  }

  /** Applying two lists of writes one after the other is applying their concatenation. */
  lemma {:induction false} ApplyWritesAppend(store: Store, a: seq<Write>, b: seq<Write>)
    ensures ApplyWrites(store, a + b) == ApplyWrites(ApplyWrites(store, a), b)
    decreases |b|
  {
    if b == [] {
      assert a + b == a;
    } else {
      var init := b[..|b| - 1];
      ApplyWritesAppend(store, a, init);
      assert (a + b)[..|a + b| - 1] == a + init;
    }
  }

  lemma ApplyWritesSnoc(store: Store, ws: seq<Write>, w: Write)
    ensures ApplyWrites(store, ws + [w]) == ApplyWrite(ApplyWrites(store, ws), w)
  {
    assert (ws + [w])[..|ws|] == ws;
  }

  lemma DayWritesStep(index: nat, weekStart: Date, days: seq<AiDay>, j: nat)
    requires j < |days|
    ensures DayWrites(index, weekStart, days[..j + 1])
            == DayWrites(index, weekStart, days[..j]) + DayWrite(index, weekStart, days[j])
  {
    assert days[..j + 1][..j] == days[..j];
  }

  lemma DayWritesPrefix(index: nat, weekStart: Date, days: seq<AiDay>, n: nat)
    requires 0 < n <= |days|
    ensures DayWrites(index, weekStart, days[..n])
            == DayWrites(index, weekStart, days[..n - 1]) + DayWrite(index, weekStart, days[n - 1])
  {
    assert days[..n][..n - 1] == days[..n - 1];
  }

  lemma AiWritesPrefix(store: Store, roster: seq<Employee>, weekStart: Date, recs: seq<AiEmployeeSchedule>, n: nat)
    requires 0 < n <= |recs|
    ensures AiWrites(store, roster, weekStart, recs[..n])
            == AiWrites(store, roster, weekStart, recs[..n - 1]) + RecordWrites(store, roster, weekStart, recs[n - 1])
  {
    assert recs[..n][..n - 1] == recs[..n - 1];
  }

  lemma AiWritesStep(store: Store, roster: seq<Employee>, weekStart: Date, recs: seq<AiEmployeeSchedule>, i: nat)
    requires i < |recs|
    ensures AiWrites(store, roster, weekStart, recs[..i + 1])
            == AiWrites(store, roster, weekStart, recs[..i]) + RecordWrites(store, roster, weekStart, recs[i])
  {
    assert recs[..i + 1][..i] == recs[..i];
  }

  /**
   * What an employee of the store reads after the merge: the status of the
   * last write to that day when there is one; otherwise what it read before.
   * Days outside the target week, and employees not on the roster, are
   * never written.
   */
  lemma AiMergeReads(store: Store, roster: seq<Employee>, weekStart: Date,
                     recs: seq<AiEmployeeSchedule>, id: string, d: Date)
    requires id in ScheduleIds(store)
    ensures var ws := AiWrites(store, roster, weekStart, recs);
            var i := IndexOf(ScheduleIds(store), id).value;
            GetDayStatus(ApplyWrites(store, ws), id, d)
            == match LastWrite(ws, i, d)
               case Some(s) => s
               case None => GetDayStatus(store, id, d)
    ensures var ws := AiWrites(store, roster, weekStart, recs);
            !(Ordinal(weekStart) <= Ordinal(d) < Ordinal(weekStart) + 5) || id !in EmployeeIds(roster)
            ==> GetDayStatus(ApplyWrites(store, ws), id, d) == GetDayStatus(store, id, d)
  {
    var ws := AiWrites(store, roster, weekStart, recs);
    var r := ApplyWrites(store, ws);
    var i := IndexOf(ScheduleIds(store), id).value;
    SameIdsSameLookup(r, store, id);
    ApplyWritesAt(store, ws, i, d);
    if LastWrite(ws, i, d).Some? {
      var w :| w in ws && w.index == i && w.date == d by {
        LastWriteIsWrite(ws, i, d);
      }
    }
  }

  lemma {:induction false} LastWriteIsWrite(ws: seq<Write>, i: nat, d: Date)
    requires LastWrite(ws, i, d).Some?
    ensures exists w :: w in ws && w.index == i && w.date == d && w.status == LastWrite(ws, i, d).value
  {
    var w := ws[|ws| - 1];
    if !(w.index == i && w.date == d) {
      LastWriteIsWrite(ws[..|ws| - 1], i, d);
      var v :| v in ws[..|ws| - 1] && v.index == i && v.date == d && v.status == LastWrite(ws, i, d).value;
      assert v in ws;
    }
  }

  /** A response whose names are all unknown to the roster leaves the store as it was. */
  lemma UnknownNamesChangeNothing(store: Store, roster: seq<Employee>, weekStart: Date, recs: seq<AiEmployeeSchedule>)
    requires forall r :: r in recs ==> r.employeeName !in EmployeeNames(roster)
    ensures ApplyWrites(store, AiWrites(store, roster, weekStart, recs)) == store
  {
  }

  /**
   * Every entry of the response whose (employee, weekday) no later entry
   * targets decides that day: if record p names roster employee e, whose id
   * has a schedule, and its entry q names weekday k, and neither a later
   * entry of record p nor an entry of a later record resolving to the same
   * schedule names weekday k, then after the merge that employee's day
   * weekStart + k reads the status of entry q.
   */
  lemma LastEntryWins(store: Store, roster: seq<Employee>, weekStart: Date,
                      recs: seq<AiEmployeeSchedule>, p: nat, q: nat, e: nat, k: nat)
    requires p < |recs| && q < |recs[p].schedule|
    requires e < |roster| && roster[e].id in ScheduleIds(store)
    requires IndexOf(EmployeeNames(roster), recs[p].employeeName) == Some(e)
    requires k < 5 && recs[p].schedule[q].day == WeekDayNames[k]
    requires forall q' :: q < q' < |recs[p].schedule| ==> recs[p].schedule[q'].day != WeekDayNames[k]
    requires forall p', q' :: p < p' < |recs| && 0 <= q' < |recs[p'].schedule|
               && RecordTarget(store, roster, recs[p'].employeeName) == RecordTarget(store, roster, recs[p].employeeName)
               ==> recs[p'].schedule[q'].day != WeekDayNames[k]
    ensures GetDayStatus(ApplyWrites(store, AiWrites(store, roster, weekStart, recs)), roster[e].id, AddDays(weekStart, k))
            == recs[p].schedule[q].status
  {
    var idx := IndexOf(ScheduleIds(store), roster[e].id).value;
    var date := AddDays(weekStart, k);
    var later := recs[p + 1..];
    assert RecordTarget(store, roster, recs[p].employeeName) == Some(idx);
    DayEntryLast(idx, weekStart, recs[p].schedule, q, k);
    AiWritesPrefix(store, roster, weekStart, recs, p + 1);
    LastWriteAppend(AiWrites(store, roster, weekStart, recs[..p]),
                    RecordWrites(store, roster, weekStart, recs[p]), idx, date);
    assert forall p', q' :: 0 <= p' < |later| && 0 <= q' < |later[p'].schedule|
             && RecordTarget(store, roster, later[p'].employeeName) == Some(idx)
             ==> later[p'].schedule[q'].day != WeekDayNames[k] by {
      forall p', q' | 0 <= p' < |later| && 0 <= q' < |later[p'].schedule|
        && RecordTarget(store, roster, later[p'].employeeName) == Some(idx)
        ensures later[p'].schedule[q'].day != WeekDayNames[k]
      {
        assert later[p'] == recs[p + 1 + p'];
      }
    }
    AiWritesMiss(store, roster, weekStart, later, idx, k);
    AiWritesSplit(store, roster, weekStart, recs, p + 1);
    LastWriteKeep(AiWrites(store, roster, weekStart, recs[..p + 1]), AiWrites(store, roster, weekStart, later),
                  AiWrites(store, roster, weekStart, recs), idx, date);
    AiMergeReads(store, roster, weekStart, recs, roster[e].id, date);
  }


  /** The last write to (i, d) in a + b is the last one in b, or else the last one in a. */
  lemma {:induction false} LastWriteAppend(a: seq<Write>, b: seq<Write>, i: nat, d: Date)
    ensures LastWrite(a + b, i, d) == if LastWrite(b, i, d).Some? then LastWrite(b, i, d) else LastWrite(a, i, d)
    decreases |b|
  {
    if b == [] {
      assert a + b == a;
    } else {
      LastWriteAppend(a, b[..|b| - 1], i, d);
      assert (a + b)[..|a + b| - 1] == a + b[..|b| - 1];
    }
  }

  /** Writes none of which targets (i, d) have no last write to it. */
  lemma {:induction false} LastWriteNone(ws: seq<Write>, i: nat, d: Date)
    requires forall w :: w in ws ==> !(w.index == i && w.date == d)
    ensures LastWrite(ws, i, d) == None
  {
    if ws != [] {
      assert forall w :: w in ws[..|ws| - 1] ==> w in ws;
      LastWriteNone(ws[..|ws| - 1], i, d);
    }
  }

  /** Appending writes none of which targets (i, d) keeps the last write to it. */
  lemma LastWriteKeep(before: seq<Write>, here: seq<Write>, all: seq<Write>, i: nat, d: Date)
    requires all == before + here
    requires forall w :: w in here ==> !(w.index == i && w.date == d)
    ensures LastWrite(all, i, d) == LastWrite(before, i, d)
  {
    LastWriteNone(here, i, d);
    LastWriteAppend(before, here, i, d);
  }

  /** A write appended last is the last write to its own (index, date). */
  lemma LastWriteHit(before: seq<Write>, w: Write, all: seq<Write>)
    requires all == before + [w]
    ensures LastWrite(all, w.index, w.date) == Some(w.status)
  {
  }

  /** Day entries none of which names weekday k write nothing to weekStart + k. */
  lemma {:induction false} DayWritesMiss(index: nat, weekStart: Date, days: seq<AiDay>, k: nat)
    requires k < 5
    requires forall j :: 0 <= j < |days| ==> days[j].day != WeekDayNames[k]
    ensures forall w :: w in DayWrites(index, weekStart, days) ==> w.date != AddDays(weekStart, k)
  {
    if days != [] {
      DayWritesMiss(index, weekStart, days[..|days| - 1], k);
      DayWriteMiss(index, weekStart, days[|days| - 1], k);
    }
  }

  lemma DayWriteMiss(index: nat, weekStart: Date, t: AiDay, k: nat)
    requires k < 5 && t.day != WeekDayNames[k]
    ensures forall w :: w in DayWrite(index, weekStart, t) ==> w.date != AddDays(weekStart, k)
  {
    if t.day in WeekDayNames {
      var k' :| 0 <= k' < 5 && WeekDayNames[k'] == t.day;
      assert DayWrite(index, weekStart, t) == [Write(index, AddDays(weekStart, k'), t.status)];
    }
  }

  /**
   * Within one record: when entry q names weekday k and no later entry
   * does, the record's last write to weekStart + k is entry q's.
   */
  lemma DayEntryLast(index: nat, weekStart: Date, days: seq<AiDay>, q: nat, k: nat)
    requires q < |days| && k < 5 && days[q].day == WeekDayNames[k]
    requires forall j :: q < j < |days| ==> days[j].day != WeekDayNames[k]
    ensures LastWrite(DayWrites(index, weekStart, days), index, AddDays(weekStart, k)) == Some(days[q].status)
  {
    var date := AddDays(weekStart, k);
    var w := Write(index, date, days[q].status);
    DayWritesSplit(index, weekStart, days, q + 1);
    DayWritesPrefix(index, weekStart, days, q + 1);
    assert DayWrite(index, weekStart, days[q]) == [w];
    LastWriteHit(DayWrites(index, weekStart, days[..q]), w, DayWrites(index, weekStart, days[..q + 1]));
    DayWritesMiss(index, weekStart, days[q + 1..], k);
    LastWriteKeep(DayWrites(index, weekStart, days[..q + 1]), DayWrites(index, weekStart, days[q + 1..]),
                  DayWrites(index, weekStart, days), index, date);
  }

  /** A record's writes split at any entry position. */
  lemma {:induction false} DayWritesSplit(index: nat, weekStart: Date, days: seq<AiDay>, m: nat)
    requires m <= |days|
    ensures DayWrites(index, weekStart, days)
            == DayWrites(index, weekStart, days[..m]) + DayWrites(index, weekStart, days[m..])
    decreases |days|
  {
    if m == |days| {
      assert days[..m] == days;
      assert days[m..] == [];
    } else {
      DayWritesSplit(index, weekStart, days[..|days| - 1], m);
      DayWritesSplitStep(index, weekStart, days, m);
    }
  }

  lemma DayWritesSplitStep(index: nat, weekStart: Date, days: seq<AiDay>, m: nat)
    requires m < |days|
    requires DayWrites(index, weekStart, days[..|days| - 1])
             == DayWrites(index, weekStart, days[..|days| - 1][..m]) + DayWrites(index, weekStart, days[..|days| - 1][m..])
    ensures DayWrites(index, weekStart, days)
            == DayWrites(index, weekStart, days[..m]) + DayWrites(index, weekStart, days[m..])
  {
    var init, last := days[..|days| - 1], days[|days| - 1];
    SlicePrefix(days, m);
    SliceSnoc(days, m);
    DayWritesLastOf(index, weekStart, days, init, last);
    DayWritesLastOf(index, weekStart, days[m..], init[m..], last);
    JoinSplit(DayWrites(index, weekStart, days), DayWrites(index, weekStart, days[..m]),
              DayWrites(index, weekStart, init[m..]), DayWrites(index, weekStart, days[m..]),
              DayWrite(index, weekStart, last));
  }


  lemma DayWritesLastOf(index: nat, weekStart: Date, days: seq<AiDay>, init: seq<AiDay>, last: AiDay)
    requires days == init + [last]
    ensures DayWrites(index, weekStart, days) == DayWrites(index, weekStart, init) + DayWrite(index, weekStart, last)
  {
    assert days[..|days| - 1] == init;
  }

  lemma SliceSnoc<T>(s: seq<T>, m: nat)
    requires m < |s|
    ensures s[m..] == s[..|s| - 1][m..] + [s[|s| - 1]]
  {
  }

  lemma SlicePrefix<T>(s: seq<T>, m: nat)
    requires m < |s|
    ensures s[..|s| - 1][..m] == s[..m]
    ensures s == s[..|s| - 1] + [s[|s| - 1]]
  {
  }

  /** Regrouping (pre + mid) + x as pre + (mid + x). */
  lemma JoinSplit(all: seq<Write>, pre: seq<Write>, mid: seq<Write>, tail: seq<Write>, x: seq<Write>)
    requires all == (pre + mid) + x && tail == mid + x
    ensures all == pre + tail
  {
  }

  /** A response's writes split at any record position. */
  lemma {:induction false} AiWritesSplit(store: Store, roster: seq<Employee>, weekStart: Date,
                                         recs: seq<AiEmployeeSchedule>, m: nat)
    requires m <= |recs|
    ensures AiWrites(store, roster, weekStart, recs)
            == AiWrites(store, roster, weekStart, recs[..m]) + AiWrites(store, roster, weekStart, recs[m..])
    decreases |recs|
  {
    if m == |recs| {
      assert recs[..m] == recs;
      assert recs[m..] == [];
    } else {
      AiWritesSplit(store, roster, weekStart, recs[..|recs| - 1], m);
      AiWritesSplitStep(store, roster, weekStart, recs, m);
    }
  }

  lemma AiWritesSplitStep(store: Store, roster: seq<Employee>, weekStart: Date, recs: seq<AiEmployeeSchedule>, m: nat)
    requires m < |recs|
    requires AiWrites(store, roster, weekStart, recs[..|recs| - 1])
             == AiWrites(store, roster, weekStart, recs[..|recs| - 1][..m])
                + AiWrites(store, roster, weekStart, recs[..|recs| - 1][m..])
    ensures AiWrites(store, roster, weekStart, recs)
            == AiWrites(store, roster, weekStart, recs[..m]) + AiWrites(store, roster, weekStart, recs[m..])
  {
    var init, last := recs[..|recs| - 1], recs[|recs| - 1];
    SlicePrefix(recs, m);
    SliceSnoc(recs, m);
    AiWritesLastOf(store, roster, weekStart, recs, init, last);
    AiWritesLastOf(store, roster, weekStart, recs[m..], init[m..], last);
    JoinSplit(AiWrites(store, roster, weekStart, recs), AiWrites(store, roster, weekStart, recs[..m]),
              AiWrites(store, roster, weekStart, init[m..]), AiWrites(store, roster, weekStart, recs[m..]),
              RecordWrites(store, roster, weekStart, last));
  }


  lemma AiWritesLastOf(store: Store, roster: seq<Employee>, weekStart: Date,
                       recs: seq<AiEmployeeSchedule>, init: seq<AiEmployeeSchedule>, last: AiEmployeeSchedule)
    requires recs == init + [last]
    ensures AiWrites(store, roster, weekStart, recs)
            == AiWrites(store, roster, weekStart, init) + RecordWrites(store, roster, weekStart, last)
  {
    assert recs[..|recs| - 1] == init;
  }

  /** A record that resolves elsewhere, or names no weekday k, writes nothing to (idx, weekStart + k). */
  lemma RecordMiss(store: Store, roster: seq<Employee>, weekStart: Date, rec: AiEmployeeSchedule,
                   idx: nat, k: nat, same: bool)
    requires k < 5 && same == (RecordTarget(store, roster, rec.employeeName) == Some(idx))
    requires same ==> forall q' :: 0 <= q' < |rec.schedule| ==> rec.schedule[q'].day != WeekDayNames[k]
    ensures forall w :: w in RecordWrites(store, roster, weekStart, rec) ==>
              !(w.index == idx && w.date == AddDays(weekStart, k))
  {
    match RecordTarget(store, roster, rec.employeeName)
    case None =>
    case Some(idx') =>
      if idx' == idx {
        DayWritesMiss(idx', weekStart, rec.schedule, k);
      }
  }

  /**
   * Records that resolve to schedule idx only with no entry naming weekday
   * k write nothing to (idx, weekStart + k).
   */
  lemma {:induction false} AiWritesMiss(store: Store, roster: seq<Employee>, weekStart: Date,
                                        recs: seq<AiEmployeeSchedule>, idx: nat, k: nat)
    requires k < 5
    requires forall p', q' :: 0 <= p' < |recs| && 0 <= q' < |recs[p'].schedule|
               && RecordTarget(store, roster, recs[p'].employeeName) == Some(idx)
               ==> recs[p'].schedule[q'].day != WeekDayNames[k]
    ensures forall w :: w in AiWrites(store, roster, weekStart, recs) ==>
              !(w.index == idx && w.date == AddDays(weekStart, k))
  {
    if recs != [] {
      var rec := recs[|recs| - 1];
      AiWritesMiss(store, roster, weekStart, recs[..|recs| - 1], idx, k);
      RecordMiss(store, roster, weekStart, rec, idx, k,
                 RecordTarget(store, roster, rec.employeeName) == Some(idx));
    }
  }

  lemma DistinctWeekDayNames()
    ensures forall i, j :: 0 <= i < j < |WeekDayNames| ==> WeekDayNames[i] != WeekDayNames[j]
  {
  }
}
