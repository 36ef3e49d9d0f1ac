// Stock optional and result wrappers used throughout the model.
module Wrappers {

  datatype Option<+T> = None | Some(value: T) {
    function GetOr(default: T): T {
      match this
      case Some(v) => v
      case None => default
    }
  }

  datatype Result<+T, +E> = Success(value: T) | Failure(error: E)
}

/**
 * The rows of the workforce tables: roles, shift templates, employees,
 * holidays, schedules, attendance, overtime and leave, with the enumerated
 * column values their check constraints admit and the uniqueness rules of
 * their unique constraints.
 *
 * Units: a date is a proleptic Gregorian day ordinal (0001-01-01 is day 1);
 * a time of day is a number of seconds after midnight; every "hours" column
 * (worked, overtime, limits, balances) is a number of seconds.
 */
module Models {
  import opened Wrappers

  type Id = nat
  type Date = int

  const SecondsPerDay: int := 86400

  type TimeOfDay = t: int | 0 <= t < SecondsPerDay

  // ---------------------------------------------------------------------
  // Enumerations admitted by the check constraints
  // ---------------------------------------------------------------------

  datatype EmploymentType = FullTime | PartTime
  datatype HolidayType = National | Regional | Company
  datatype ApprovalStatus = Pending | Approved | Rejected
  datatype OvertimeType = Normal | Night | OnHoliday
  datatype CompensationMode = ExtraPay | CompOff
  datatype LeaveType = PaidLeave | UnpaidLeave | CompOffLeave
  datatype LeaveDuration = FullDay | HalfDay
  datatype AttendanceStatus = Present | Absent

  function ApprovalStatusText(s: ApprovalStatus): string {
    match s
    case Pending => "PENDING"
    case Approved => "APPROVED"
    case Rejected => "REJECTED"
  }

  /** The value a text column holds after the approval_status check constraint accepts it. */
  function ParseApprovalStatus(t: string): (r: Option<ApprovalStatus>)
    ensures r.Some? ==> ApprovalStatusText(r.value) == t
    ensures r.None? ==> forall s :: ApprovalStatusText(s) != t
  {
    if t == "PENDING" then Some(Pending)
    else if t == "APPROVED" then Some(Approved)
    else if t == "REJECTED" then Some(Rejected)
    else None
  }

  function OvertimeTypeText(o: OvertimeType): string {
    match o
    case Normal => "NORMAL"
    case Night => "NIGHT"
    case OnHoliday => "HOLIDAY"
  }

  function ParseOvertimeType(t: string): (r: Option<OvertimeType>)
    ensures r.Some? ==> OvertimeTypeText(r.value) == t
    ensures r.None? ==> forall o :: OvertimeTypeText(o) != t
  {
    if t == "NORMAL" then Some(Normal)
    else if t == "NIGHT" then Some(Night)
    else if t == "HOLIDAY" then Some(OnHoliday)
    else None
  }

  function CompensationModeText(c: CompensationMode): string {
    match c
    case ExtraPay => "EXTRA_PAY"
    case CompOff => "COMP_OFF"
  }

  function ParseCompensationMode(t: string): (r: Option<CompensationMode>)
    ensures r.Some? ==> CompensationModeText(r.value) == t
    ensures r.None? ==> forall c :: CompensationModeText(c) != t
  {
    if t == "EXTRA_PAY" then Some(ExtraPay)
    else if t == "COMP_OFF" then Some(CompOff)
    else None
  }

  function LeaveTypeText(l: LeaveType): string {
    match l
    case PaidLeave => "PAID"
    case UnpaidLeave => "UNPAID"
    case CompOffLeave => "COMP_OFF"
  }

  function ParseLeaveType(t: string): (r: Option<LeaveType>)
    ensures r.Some? ==> LeaveTypeText(r.value) == t
    ensures r.None? ==> forall l :: LeaveTypeText(l) != t
  {
    if t == "PAID" then Some(PaidLeave)
    else if t == "UNPAID" then Some(UnpaidLeave)
    else if t == "COMP_OFF" then Some(CompOffLeave)
    else None
  }

  function LeaveDurationText(d: LeaveDuration): string {
    match d
    case FullDay => "FULL_DAY"
    case HalfDay => "HALF_DAY"
  }

  function ParseLeaveDuration(t: string): (r: Option<LeaveDuration>)
    ensures r.Some? ==> LeaveDurationText(r.value) == t
    ensures r.None? ==> forall d :: LeaveDurationText(d) != t
  {
    if t == "FULL_DAY" then Some(FullDay)
    else if t == "HALF_DAY" then Some(HalfDay)
    else None
  }

  // ---------------------------------------------------------------------
  // Rows
  // ---------------------------------------------------------------------

  /** Hour columns (dailyWorkHours, weeklyHoursLimit, ...) are in seconds; workDays holds day labels such as "Mon". */
  datatype Role = Role(
    id: Id,
    departmentId: Id,
    name: string,
    workDays: seq<string>,
    breakMinutes: int,
    dailyWorkHours: Option<int>,
    weeklyHoursLimit: Option<int>,
    dailyMaxHours: Option<int>,
    monthlyOvertimeLimit: Option<int>,
    employmentType: Option<EmploymentType>)

  /** A weekly template; dayOfWeek is an ISO weekday or null. An empty skill list means no skill is required. */
  datatype Shift = Shift(
    id: Id,
    roleId: Id,
    name: string,
    dayOfWeek: Option<int>,
    startTime: TimeOfDay,
    endTime: TimeOfDay,
    priority: Option<int>,
    skillsRequired: seq<string>)

  /**
   * availability maps an ISO weekday to the truth value of that day's
   * "available" entry, or to None when the entry has no "available" key.
   * yearlyPaidLeaveUsed counts half days.
   */
  datatype Employee = Employee(
    id: Id,
    roleId: Id,
    name: string,
    monthlyOvertimeUsed: int,
    yearlyPaidLeaveAllowance: Option<int>,
    yearlyPaidLeaveUsed: int,
    availability: map<int, Option<bool>>,
    skills: seq<string>,
    isActive: bool)

  datatype Holiday = Holiday(
    id: Id,
    name: string,
    date: Date,
    holidayType: Option<HolidayType>,
    location: Option<string>,
    isPaid: bool)

  /** shiftId is None for a custom (manually entered) schedule. */
  datatype Schedule = Schedule(
    id: Id,
    employeeId: Id,
    shiftId: Option<Id>,
    date: Date,
    startTime: TimeOfDay,
    endTime: TimeOfDay,
    overtimeHours: int,
    isCustom: bool)

  datatype Attendance = Attendance(
    id: Id,
    employeeId: Id,
    date: Date,
    scheduledStart: Option<TimeOfDay>,
    scheduledEnd: Option<TimeOfDay>,
    clockIn: Option<TimeOfDay>,
    clockOut: Option<TimeOfDay>,
    workedHours: Option<int>,
    overtimeHours: int,
    status: AttendanceStatus)

  datatype Overtime = Overtime(
    id: Id,
    employeeId: Id,
    date: Date,
    actualHours: int,
    approvedHours: Option<int>,
    overtimeType: OvertimeType,
    compensationMode: CompensationMode,
    approvalStatus: ApprovalStatus)

  /** The reason column: free text given by the requester, or the text generated for a comp-off leave from the overtime date. */
  datatype LeaveReason = Stated(text: Option<string>) | CompensatoryFor(overtimeDate: Date)

  datatype EmployeeLeave = EmployeeLeave(
    id: Id,
    employeeId: Id,
    leaveType: LeaveType,
    date: Date,
    duration: LeaveDuration,
    reason: LeaveReason,
    approvalStatus: ApprovalStatus,
    sourceOvertimeId: Option<Id>)

  // ---------------------------------------------------------------------
  // Table constraints
  // ---------------------------------------------------------------------

  /** CHECK (day_of_week BETWEEN 1 AND 7): a null day passes the check. */
  predicate ShiftDaysInRange(shifts: seq<Shift>) {
    forall i :: 0 <= i < |shifts| ==> shifts[i].dayOfWeek.None? || 1 <= shifts[i].dayOfWeek.value <= 7
  }

  /** UNIQUE (date, location): rows with a null location never collide. */
  predicate HolidayKeysUnique(holidays: seq<Holiday>) {
    forall i, j :: 0 <= i < j < |holidays| && holidays[i].date == holidays[j].date
      && holidays[i].location.Some? && holidays[j].location.Some?
      ==> holidays[i].location != holidays[j].location
  }

  /** UNIQUE (employee_id, date) on schedule. */
  predicate ScheduleKeysUnique(rows: seq<Schedule>) {
    forall i, j :: 0 <= i < j < |rows| ==>
      rows[i].employeeId != rows[j].employeeId || rows[i].date != rows[j].date
  }

  /** UNIQUE (employee_id, date) on attendance. */
  predicate AttendanceKeysUnique(rows: seq<Attendance>) {
    forall i, j :: 0 <= i < j < |rows| ==>
      rows[i].employeeId != rows[j].employeeId || rows[i].date != rows[j].date
  }

  /** UNIQUE (employee_id, date, overtime_type) on overtime. */
  predicate OvertimeKeysUnique(rows: seq<Overtime>) {
    forall i, j :: 0 <= i < j < |rows| ==>
      rows[i].employeeId != rows[j].employeeId || rows[i].date != rows[j].date
      || rows[i].overtimeType != rows[j].overtimeType
  }

  /** UNIQUE (employee_id, date) on employee_leave. */
  predicate LeaveKeysUnique(rows: seq<EmployeeLeave>) {
    forall i, j :: 0 <= i < j < |rows| ==>
      rows[i].employeeId != rows[j].employeeId || rows[i].date != rows[j].date
  }

  // ---------------------------------------------------------------------
  // Lookups: the first row a filtered query returns
  // ---------------------------------------------------------------------

  function FindRole(rows: seq<Role>, id: Id): (r: Option<nat>)
    ensures r.Some? ==> r.value < |rows| && rows[r.value].id == id
    ensures r.Some? ==> forall j :: 0 <= j < r.value ==> rows[j].id != id
    ensures r.None? ==> forall j :: 0 <= j < |rows| ==> rows[j].id != id
  {
    if rows == [] then None
    else if rows[0].id == id then Some(0)
    else match FindRole(rows[1..], id)
      case None => None
      case Some(k) => Some(k + 1)
  }

  function FindEmployee(rows: seq<Employee>, id: Id): (r: Option<nat>)
    ensures r.Some? ==> r.value < |rows| && rows[r.value].id == id
    ensures r.Some? ==> forall j :: 0 <= j < r.value ==> rows[j].id != id
    ensures r.None? ==> forall j :: 0 <= j < |rows| ==> rows[j].id != id
  {
    if rows == [] then None
    else if rows[0].id == id then Some(0)
    else match FindEmployee(rows[1..], id)
      case None => None
      case Some(k) => Some(k + 1)
  }

  function FindSchedule(rows: seq<Schedule>, id: Id): (r: Option<nat>)
    ensures r.Some? ==> r.value < |rows| && rows[r.value].id == id
    ensures r.Some? ==> forall j :: 0 <= j < r.value ==> rows[j].id != id
    ensures r.None? ==> forall j :: 0 <= j < |rows| ==> rows[j].id != id
  {
    if rows == [] then None
    else if rows[0].id == id then Some(0)
    else match FindSchedule(rows[1..], id)
      case None => None
      case Some(k) => Some(k + 1)
  }

  function FindOvertime(rows: seq<Overtime>, id: Id): (r: Option<nat>)
    ensures r.Some? ==> r.value < |rows| && rows[r.value].id == id
    ensures r.Some? ==> forall j :: 0 <= j < r.value ==> rows[j].id != id
    ensures r.None? ==> forall j :: 0 <= j < |rows| ==> rows[j].id != id
  {
    if rows == [] then None
    else if rows[0].id == id then Some(0)
    else match FindOvertime(rows[1..], id)
      case None => None
      case Some(k) => Some(k + 1)
  }

  function FindLeave(rows: seq<EmployeeLeave>, id: Id): (r: Option<nat>)
    ensures r.Some? ==> r.value < |rows| && rows[r.value].id == id
    ensures r.Some? ==> forall j :: 0 <= j < r.value ==> rows[j].id != id
    ensures r.None? ==> forall j :: 0 <= j < |rows| ==> rows[j].id != id
  {
    if rows == [] then None
    else if rows[0].id == id then Some(0)
    else match FindLeave(rows[1..], id)
      case None => None
      case Some(k) => Some(k + 1)
  }

  /** The schedule row of an employee on a date, if any. */
  function FindScheduleFor(rows: seq<Schedule>, employeeId: Id, date: Date): (r: Option<nat>)
    ensures r.Some? ==> r.value < |rows| && rows[r.value].employeeId == employeeId && rows[r.value].date == date
    ensures r.None? ==> forall j :: 0 <= j < |rows| ==> rows[j].employeeId != employeeId || rows[j].date != date
  {
    if rows == [] then None
    else if rows[0].employeeId == employeeId && rows[0].date == date then Some(0)
    else match FindScheduleFor(rows[1..], employeeId, date)
      case None => None
      case Some(k) => Some(k + 1)
  }

  /** The attendance row of an employee on a date, if any. */
  function FindAttendanceFor(rows: seq<Attendance>, employeeId: Id, date: Date): (r: Option<nat>)
    ensures r.Some? ==> r.value < |rows| && rows[r.value].employeeId == employeeId && rows[r.value].date == date
    ensures r.None? ==> forall j :: 0 <= j < |rows| ==> rows[j].employeeId != employeeId || rows[j].date != date
  {
    if rows == [] then None
    else if rows[0].employeeId == employeeId && rows[0].date == date then Some(0)
    else match FindAttendanceFor(rows[1..], employeeId, date)
      case None => None
      case Some(k) => Some(k + 1)
  }

  /** The leave row of an employee on a date, whatever its status, if any. */
  function FindLeaveFor(rows: seq<EmployeeLeave>, employeeId: Id, date: Date): (r: Option<nat>)
    ensures r.Some? ==> r.value < |rows| && rows[r.value].employeeId == employeeId && rows[r.value].date == date
    ensures r.None? ==> forall j :: 0 <= j < |rows| ==> rows[j].employeeId != employeeId || rows[j].date != date
  {
    if rows == [] then None
    else if rows[0].employeeId == employeeId && rows[0].date == date then Some(0)
    else match FindLeaveFor(rows[1..], employeeId, date)
      case None => None
      case Some(k) => Some(k + 1)
  }

  /** The overtime row with a given (employee, date, type) key, if any. */
  function FindOvertimeFor(rows: seq<Overtime>, employeeId: Id, date: Date, kind: OvertimeType): (r: Option<nat>)
    ensures r.Some? ==> (r.value < |rows| && rows[r.value].employeeId == employeeId
      && rows[r.value].date == date && rows[r.value].overtimeType == kind)
    ensures r.None? ==> forall j :: 0 <= j < |rows| ==>
      rows[j].employeeId != employeeId || rows[j].date != date || rows[j].overtimeType != kind
  {
    if rows == [] then None
    else if rows[0].employeeId == employeeId && rows[0].date == date && rows[0].overtimeType == kind then Some(0)
    else match FindOvertimeFor(rows[1..], employeeId, date, kind)
      case None => None
      case Some(k) => Some(k + 1)
  }
}
