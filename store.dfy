/**
 * The schedule store of App.tsx and the operations that read and write
 * single entries: the status lookup with its OFFICE default, the upsert,
 * the click toggle, the bulk clear of a set of dates, and the
 * reconciliation of a saved store with the roster on load.
 */
module ScheduleStore {
  import opened Wrappers
  import opened Calendar
  import opened Types

  function ScheduleIds(store: Store): (ids: seq<string>)
    ensures |ids| == |store|
    ensures forall i :: 0 <= i < |store| ==> ids[i] == store[i].employeeId
  {
    seq(|store|, i requires 0 <= i < |store| => store[i].employeeId)
  }

  /** `schedules.find(s => s.employeeId === id)`. */
  function FindSchedule(store: Store, id: string): (r: Option<EmployeeSchedule>)
    ensures r.None? <==> id !in ScheduleIds(store)
    ensures r.Some? ==> r.value in store && r.value.employeeId == id
    ensures r.Some? ==> exists i :: 0 <= i < |store| && r.value == store[i]
                          && forall j :: 0 <= j < i ==> store[j].employeeId != id
  {
    match IndexOf(ScheduleIds(store), id)
    case None => None
    case Some(i) => Some(store[i])
  }

  /** The days of the first schedule of `id`, or no days when there is none. */
  function DaysOf(store: Store, id: string): map<Date, DaySchedule> {
    match FindSchedule(store, id)
    case None => map[]
    case Some(s) => s.days
  }

  /** The status a day reads as: its entry's status, or Office when it has no entry. */
  function EffectiveStatus(days: map<Date, DaySchedule>, d: Date): (s: WorkStatus)
    ensures d !in days ==> s == Office
    ensures d in days ==> s == days[d].status
  {
    if d in days then days[d].status else Office
  }

  /**
   * getDayStatus: the stored status of the first schedule of `id` on `d`;
   * Office when the id is unknown or the date has no entry.
   */
  function GetDayStatus(store: Store, id: string, d: Date): (s: WorkStatus)
    ensures (forall i :: 0 <= i < |store| ==> store[i].employeeId != id) ==> s == Office
    ensures forall i :: 0 <= i < |store| && store[i].employeeId == id
                 && (forall j :: 0 <= j < i ==> store[j].employeeId != id)
                 ==> s == if d in store[i].days then store[i].days[d].status else Office
  {
    EffectiveStatus(DaysOf(store, id), d)
  }

  /** Stores with the same ids in the same order find the same position for every id. */
  lemma SameIdsSameLookup(a: Store, b: Store, id: string)
    requires ScheduleIds(a) == ScheduleIds(b)
    ensures IndexOf(ScheduleIds(a), id) == IndexOf(ScheduleIds(b), id)
    ensures id in ScheduleIds(a) ==> a[IndexOf(ScheduleIds(a), id).value].employeeId == id
  {
  }

  /** The new entry for an upsert: date and status, no note. */
  function Entry(d: Date, s: WorkStatus): DaySchedule {
    DaySchedule(d, s, None)
  }

  /**
   * updateStatus: every schedule of `id` gets the entry {date, status} on
   * `d` (replacing any earlier entry and its note); the other schedules and
   * the order of the list stay as they were.
   */
  function UpdateStatus(store: Store, id: string, d: Date, s: WorkStatus): (r: Store)
    ensures |r| == |store|
    ensures forall i :: 0 <= i < |store| ==> r[i].employeeId == store[i].employeeId
    ensures forall i :: 0 <= i < |store| && store[i].employeeId != id ==> r[i] == store[i]
    ensures forall i :: 0 <= i < |store| && store[i].employeeId == id
                 ==> r[i].days == store[i].days[d := Entry(d, s)]
  {
    seq(|store|, i requires 0 <= i < |store| =>
      if store[i].employeeId != id then store[i]
      else store[i].(days := store[i].days[d := Entry(d, s)]))
  }

  /**
   * After an upsert for a known employee the day reads the new status and
   * carries no note; every other (employee, date) reads as before.
   */
  lemma UpdateStatusReads(store: Store, id: string, d: Date, s: WorkStatus, id': string, d': Date)
    requires id in ScheduleIds(store)
    ensures GetDayStatus(UpdateStatus(store, id, d, s), id, d) == s
    ensures DaysOf(UpdateStatus(store, id, d, s), id)[d] == Entry(d, s)
    ensures (id', d') != (id, d) ==>
              GetDayStatus(UpdateStatus(store, id, d, s), id', d') == GetDayStatus(store, id', d')
  {
    var r := UpdateStatus(store, id, d, s);
    assert ScheduleIds(r) == ScheduleIds(store);
    SameIdsSameLookup(r, store, id);
    SameIdsSameLookup(r, store, id');
  }

  /** An upsert for an id that has no schedule leaves the store unchanged. */
  lemma UpdateStatusUnknown(store: Store, id: string, d: Date, s: WorkStatus)
    requires id !in ScheduleIds(store)
    ensures UpdateStatus(store, id, d, s) == store
  {
    var r := UpdateStatus(store, id, d, s);
    assert forall i :: 0 <= i < |store| ==> store[i].employeeId != id by {
      forall i | 0 <= i < |store| ensures store[i].employeeId != id {
        assert ScheduleIds(store)[i] == store[i].employeeId;
      }
    }
  }

  /** The click toggle: Office becomes Wfh, every other status becomes Office. */
  function Toggle(s: WorkStatus): (t: WorkStatus)
    ensures t == Wfh <==> s == Office
    ensures t == Office <==> s != Office
  {
    if s == Office then Wfh else Office
  }

  /**
   * handleCellClick: upsert the toggle of the day's current status. A known
   * employee's day then reads the toggled status and every other
   * (employee, day) reads as before; the list keeps its ids, and a click
   * for an unknown id changes nothing.
   */
  function HandleCellClick(store: Store, id: string, d: Date): (r: Store)
    ensures ScheduleIds(r) == ScheduleIds(store)
    ensures id in ScheduleIds(store) ==> GetDayStatus(r, id, d) == Toggle(GetDayStatus(store, id, d))
    ensures id !in ScheduleIds(store) ==> r == store
    ensures forall id', d' :: (id', d') != (id, d) ==> GetDayStatus(r, id', d') == GetDayStatus(store, id', d')
  {
    var r := UpdateStatus(store, id, d, Toggle(GetDayStatus(store, id, d)));
    assert ScheduleIds(r) == ScheduleIds(store);
    if id in ScheduleIds(store) then
      UpdateStatusReads(store, id, d, Toggle(GetDayStatus(store, id, d)), id, d);
      assert forall id', d' :: (id', d') != (id, d) ==> GetDayStatus(r, id', d') == GetDayStatus(store, id', d') by {
        forall id', d' | (id', d') != (id, d)
          ensures GetDayStatus(r, id', d') == GetDayStatus(store, id', d')
        {
          UpdateStatusReads(store, id, d, Toggle(GetDayStatus(store, id, d)), id', d');
        }
      }
      r
    else
      UpdateStatusUnknown(store, id, d, Toggle(GetDayStatus(store, id, d)));
      r
  }

  /**
   * One click on a known employee's day moves Office to Wfh and anything
   * else to Office; a second click restores Office or Wfh, and turns any
   * other original status into Wfh (the toggle is a two-cycle on
   * {Office, Wfh}). Other days and employees keep their status.
   */
  lemma CellClickTwice(store: Store, id: string, d: Date, id': string, d': Date)
    requires id in ScheduleIds(store)
    ensures GetDayStatus(HandleCellClick(store, id, d), id, d)
            == (if GetDayStatus(store, id, d) == Office then Wfh else Office)
    ensures GetDayStatus(HandleCellClick(HandleCellClick(store, id, d), id, d), id, d)
            == (if GetDayStatus(store, id, d) in {Office, Wfh} then GetDayStatus(store, id, d) else Wfh)
    ensures (id', d') != (id, d) ==>
              GetDayStatus(HandleCellClick(HandleCellClick(store, id, d), id, d), id', d')
              == GetDayStatus(store, id', d')
  {
    var once := HandleCellClick(store, id, d);
    UpdateStatusReads(store, id, d, Toggle(GetDayStatus(store, id, d)), id', d');
    assert ScheduleIds(once) == ScheduleIds(store);
    UpdateStatusReads(once, id, d, Toggle(GetDayStatus(once, id, d)), id', d');
  }

  /** The set of dates listed in `dates`. */
  function DateSet(dates: seq<Date>): set<Date> {
    set x | x in dates
  }

  /** `dates.forEach(d => delete newDays[d])` on a copy of `days`. */
  method ClearDays(days: map<Date, DaySchedule>, dates: seq<Date>) returns (r: map<Date, DaySchedule>)
    ensures r.Keys == days.Keys - DateSet(dates)
    ensures forall x :: x in r ==> r[x] == days[x]
  {
    r := days;
    for k := 0 to |dates|
      invariant r.Keys == days.Keys - DateSet(dates[..k])
      invariant forall x :: x in r ==> r[x] == days[x]
    {
      assert DateSet(dates[..k + 1]) == DateSet(dates[..k]) + {dates[k]} by {
        assert dates[..k + 1] == dates[..k] + [dates[k]];
      }
      r := r - {dates[k]};
    }
    assert dates[..|dates|] == dates;
  }

  /**
   * The clearing step of clearPeriod: every schedule loses its entries on
   * the given dates and keeps every other entry, note included, as it was.
   * Afterwards every listed date reads Office for every employee, every
   * other date reads as before, and the list of schedules keeps its ids and
   * order.
   */
  method ClearDates(store: Store, dates: seq<Date>) returns (r: Store)
    ensures |r| == |store|
    ensures forall i :: 0 <= i < |store| ==> r[i].employeeId == store[i].employeeId
    ensures forall i :: 0 <= i < |store| ==> r[i].days.Keys == store[i].days.Keys - DateSet(dates)
    ensures forall i, x :: 0 <= i < |store| && x in r[i].days ==> r[i].days[x] == store[i].days[x]
    ensures forall id, d :: d in dates ==> GetDayStatus(r, id, d) == Office
    ensures forall id, d :: d !in dates ==> GetDayStatus(r, id, d) == GetDayStatus(store, id, d)
  {
    r := [];
    for i := 0 to |store|
      invariant |r| == i
      invariant forall j :: 0 <= j < i ==> r[j].employeeId == store[j].employeeId
      invariant forall j :: 0 <= j < i ==> r[j].days.Keys == store[j].days.Keys - DateSet(dates)
      invariant forall j, x :: 0 <= j < i && x in r[j].days ==> r[j].days[x] == store[j].days[x]
    {
      var newDays := ClearDays(store[i].days, dates);
      r := r + [store[i].(days := newDays)];
    }
    assert ScheduleIds(r) == ScheduleIds(store);
    forall id, d ensures d in dates ==> GetDayStatus(r, id, d) == Office
      ensures d !in dates ==> GetDayStatus(r, id, d) == GetDayStatus(store, id, d)
    {
      SameIdsSameLookup(r, store, id);
    }
  }

  /** A schedule for `id` with no entries. */
  function EmptySchedule(id: string): EmployeeSchedule {
    EmployeeSchedule(id, map[])
  }

  /**
   * The load effect: one schedule per roster employee, in roster order —
   * the first saved schedule with that id when there is one, an empty one
   * otherwise. `saved` is None when storage is empty or does not parse,
   * which yields all-empty schedules.
   */
  function LoadMerge(saved: Option<Store>, roster: seq<Employee>): (r: Store)
    ensures |r| == |roster|
    ensures ScheduleIds(r) == EmployeeIds(roster)
    ensures saved.None? ==> forall i :: 0 <= i < |r| ==> r[i].days == map[]
    ensures saved.Some? ==>
              forall i, j :: 0 <= i < |roster| && 0 <= j < |saved.value|
                && saved.value[j].employeeId == roster[i].id
                && (forall k :: 0 <= k < j ==> saved.value[k].employeeId != roster[i].id)
                ==> r[i] == saved.value[j]
    ensures saved.Some? ==>
              forall i :: 0 <= i < |roster| && roster[i].id !in ScheduleIds(saved.value)
                ==> r[i].days == map[]
  {
    var r := seq(|roster|, i requires 0 <= i < |roster| =>
      match saved
      case None => EmptySchedule(roster[i].id)
      case Some(s) =>
        match FindSchedule(s, roster[i].id)
        case None => EmptySchedule(roster[i].id)
        case Some(e) => e);
    assert ScheduleIds(r) == EmployeeIds(roster);
    r
  }

  /**
   * Loading keeps every status a roster employee had in the saved store,
   * and reads Office for every id outside the roster.
   */
  lemma LoadMergeKeepsStatuses(saved: Option<Store>, roster: seq<Employee>, id: string, d: Date)
    ensures id in EmployeeIds(roster) ==>
              GetDayStatus(LoadMerge(saved, roster), id, d)
              == (if saved.Some? then GetDayStatus(saved.value, id, d) else Office)
    ensures id !in EmployeeIds(roster) ==> GetDayStatus(LoadMerge(saved, roster), id, d) == Office
  {
    var r := LoadMerge(saved, roster);
    if id in EmployeeIds(roster) {
      var k := IndexOf(ScheduleIds(r), id).value;
      assert r[k].employeeId == id;
    }
  }

  /** Loading a store that was just loaded against the same roster changes nothing. */
  lemma LoadMergeIdempotent(saved: Option<Store>, roster: seq<Employee>)
    ensures LoadMerge(Some(LoadMerge(saved, roster)), roster) == LoadMerge(saved, roster)
  {
    var r := LoadMerge(saved, roster);
    var r' := LoadMerge(Some(r), roster);
    forall i | 0 <= i < |roster| ensures r'[i] == r[i] {
      var id := roster[i].id;
      assert ScheduleIds(r)[i] == id;
      var k := IndexOf(ScheduleIds(r), id).value;
      assert r'[i] == r[k];
      assert roster[k].id == id;
    }
  }
}
