/** The records of the schedule (types.ts) and the fixed configuration (constants.ts). */
module Types {
  import opened Wrappers
  import opened Calendar

  /** Where an employee works on a day; an absent entry means Office. */
  datatype WorkStatus = Office | Wfh | Vacation | Sick | Event | Meeting

  /** The six statuses in the order of the source's status records. */
  const AllStatuses: seq<WorkStatus> := [Office, Wfh, Vacation, Sick, Event, Meeting]

  datatype Employee = Employee(id: string, name: string, role: string, avatar: string)

  /** One day's entry; the date is also the entry's key in `days`. */
  datatype DaySchedule = DaySchedule(date: Date, status: WorkStatus, note: Option<string>)

  /** An employee's sparse calendar: only days with an explicit entry are present. */
  datatype EmployeeSchedule = EmployeeSchedule(employeeId: string, days: map<Date, DaySchedule>)

  /** The whole schedule store, one entry per employee, in roster order. */
  type Store = seq<EmployeeSchedule>

  /** The roster the application is configured with. */
  const InitialEmployees: seq<Employee> := [
    Employee("1", "David", "Analyst", "D"),
    Employee("2", "Enrique", "Analyst", "E"),
    Employee("3", "Adrian", "Designer", "A"),
    Employee("4", "Jose", "Manager", "J"),
    Employee("5", "Edu", "QA Engineer", "Ed"),
    Employee("6", "Gustavo", "DevOps", "G")
  ]

  /** Names of the working days, Monday first. */
  const WeekDayNames: seq<string> := ["Monday", "Tuesday", "Wednesday", "Thursday", "Friday"]

  /** One day of a generated rotation. */
  datatype AiDay = AiDay(day: string, status: WorkStatus)

  /** A generated rotation for one employee, matched by name. */
  datatype AiEmployeeSchedule = AiEmployeeSchedule(employeeName: string, schedule: seq<AiDay>)

  /** The generated weekly rotation returned by the AI service. */
  datatype AiScheduleResponse = AiScheduleResponse(schedules: seq<AiEmployeeSchedule>)

  function EmployeeIds(roster: seq<Employee>): (ids: seq<string>)
    ensures |ids| == |roster|
    ensures forall i :: 0 <= i < |roster| ==> ids[i] == roster[i].id
  {
    seq(|roster|, i requires 0 <= i < |roster| => roster[i].id)
  }

  function EmployeeNames(roster: seq<Employee>): (names: seq<string>)
    ensures |names| == |roster|
    ensures forall i :: 0 <= i < |roster| ==> names[i] == roster[i].name
  {
    seq(|roster|, i requires 0 <= i < |roster| => roster[i].name)
  }

  /** The configured roster has six employees with distinct ids and distinct names. */
  lemma InitialEmployeesDistinct()
    ensures |InitialEmployees| == 6
    ensures forall i, j :: 0 <= i < j < 6 ==> InitialEmployees[i].id != InitialEmployees[j].id
    ensures forall i, j :: 0 <= i < j < 6 ==> InitialEmployees[i].name != InitialEmployees[j].name
  {
  }
}
