/**
 * The database session the scheduler and the request handlers work on: one
 * sequence of rows per table, in the order a query returns them, and the
 * source of fresh row identifiers. Valid() holds the schema constraints on
 * the tables the handlers and the generator write or refer to: the weekday
 * check on shifts, the unique keys of holidays, schedules, attendance,
 * overtime and leave, the foreign keys from those rows to employee, shift
 * and overtime, and identifiers below the next one to be issued. The role
 * foreign keys, primary-key uniqueness and the unique username are not
 * part of it.
 */
module Store {
  import opened Wrappers
  import opened Models

  /** Some row of the employee table has this id. */
  predicate HasEmployee(employees: seq<Employee>, id: Id) {
    exists i :: 0 <= i < |employees| && employees[i].id == id
  }

  predicate HasShift(shifts: seq<Shift>, id: Id) {
    exists i :: 0 <= i < |shifts| && shifts[i].id == id
  }

  predicate HasOvertime(overtimes: seq<Overtime>, id: Id) {
    exists i :: 0 <= i < |overtimes| && overtimes[i].id == id
  }

  predicate ScheduleRefsValid(rows: seq<Schedule>, employees: seq<Employee>, shifts: seq<Shift>, nextId: nat) {
    forall i :: 0 <= i < |rows| ==>
      rows[i].id < nextId && HasEmployee(employees, rows[i].employeeId)
      && (rows[i].shiftId.Some? ==> HasShift(shifts, rows[i].shiftId.value))
  }

  predicate AttendanceRefsValid(rows: seq<Attendance>, employees: seq<Employee>, nextId: nat) {
    forall i :: 0 <= i < |rows| ==> rows[i].id < nextId && HasEmployee(employees, rows[i].employeeId)
  }

  predicate OvertimeRefsValid(rows: seq<Overtime>, employees: seq<Employee>, nextId: nat) {
    forall i :: 0 <= i < |rows| ==> rows[i].id < nextId && HasEmployee(employees, rows[i].employeeId)
  }

  predicate LeaveRefsValid(rows: seq<EmployeeLeave>, employees: seq<Employee>, overtimes: seq<Overtime>, nextId: nat) {
    forall i :: 0 <= i < |rows| ==>
      rows[i].id < nextId && HasEmployee(employees, rows[i].employeeId)
      && (rows[i].sourceOvertimeId.Some? ==> HasOvertime(overtimes, rows[i].sourceOvertimeId.value))
  }

  class Database {
    var roles: seq<Role>
    var shifts: seq<Shift>
    var employees: seq<Employee>
    var holidays: seq<Holiday>
    var schedules: seq<Schedule>
    var attendance: seq<Attendance>
    var overtimes: seq<Overtime>
    var leaves: seq<EmployeeLeave>
    var nextId: nat

    ghost predicate Valid()
      reads this
    {
      && ShiftDaysInRange(shifts)
      && HolidayKeysUnique(holidays)
      && ScheduleKeysUnique(schedules)
      && AttendanceKeysUnique(attendance)
      && OvertimeKeysUnique(overtimes)
      && LeaveKeysUnique(leaves)
      && ScheduleRefsValid(schedules, employees, shifts, nextId)
      && AttendanceRefsValid(attendance, employees, nextId)
      && OvertimeRefsValid(overtimes, employees, nextId)
      && LeaveRefsValid(leaves, employees, overtimes, nextId)
    }

    /** A database holding the reference tables and no schedule, attendance, overtime or leave rows yet. */
    constructor (roles: seq<Role>, shifts: seq<Shift>, employees: seq<Employee>, holidays: seq<Holiday>)
      requires ShiftDaysInRange(shifts) && HolidayKeysUnique(holidays)
      ensures Valid()
      ensures this.roles == roles && this.shifts == shifts && this.employees == employees && this.holidays == holidays
      ensures schedules == [] && attendance == [] && overtimes == [] && leaves == []
    {
      this.roles, this.shifts, this.employees, this.holidays := roles, shifts, employees, holidays;
      schedules, attendance, overtimes, leaves := [], [], [], [];
      nextId := 0;
    }
  }
}
