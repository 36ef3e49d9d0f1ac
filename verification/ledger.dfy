/**
 * The state-changing request handlers: manual schedules, soft deletion of
 * employees, the per-(employee, date) attendance record (no record, clocked
 * in, clocked out), overtime and leave requests, and their approval with its
 * side effects on the employee counters and the compensatory leave.
 *
 * Each handler is a guarded update of the tables of a Database. A failure
 * either comes from the handler's own guard (NotFound, BadRequest, with the
 * detail text it answers with) or from a constraint the database rejects at
 * commit (IntegrityError), and in both cases nothing changes. Clock readings
 * are parameters.
 */
module Ledger {
  import opened Wrappers
  import opened Models
  import opened Calendar
  import opened Store

  /** ServerError is an exception the handler does not catch, answered with status 500 before anything is committed. */
  datatype HandlerError = NotFound(detail: string) | BadRequest(detail: string) | IntegrityError | ServerError

  // ---------------------------------------------------------------------
  // Pure pieces
  // ---------------------------------------------------------------------

  /** The planned length of the attendance window, present when both scheduled times are; an end before the start runs past midnight. */
  function ScheduledLength(a: Attendance): (n: Option<nat>)
    ensures n.Some? <==> a.scheduledStart.Some? && a.scheduledEnd.Some?
    ensures n.Some? ==> n.value < SecondsPerDay && (a.scheduledStart.value + n.value) % SecondsPerDay == a.scheduledEnd.value
  {
    if a.scheduledStart.Some? && a.scheduledEnd.Some? then Some(Elapsed(a.scheduledStart.value, a.scheduledEnd.value))
    else None
  }

  /**
   * The record after clocking out at now: the clock-out time is set, the
   * worked time is the duration below one day that carries the clock-in
   * time to now, and the overtime becomes worked minus planned when worked
   * exceeds a planned window and is otherwise left as it was. Nothing else
   * in the record changes.
   */
  function CloseAttendance(a: Attendance, now: TimeOfDay): (b: Attendance)
    requires a.clockIn.Some?
    ensures b.clockOut == Some(now)
    ensures b.workedHours.Some? && b.workedHours.value < SecondsPerDay
    ensures (a.clockIn.value + b.workedHours.value) % SecondsPerDay == now
    ensures b.workedHours.value == 0 <==> a.clockIn.value == now
    ensures ScheduledLength(a).Some? && b.workedHours.value > ScheduledLength(a).value ==>
              0 < b.overtimeHours && ScheduledLength(a).value + b.overtimeHours == b.workedHours.value
    ensures ScheduledLength(a).None? || b.workedHours.value <= ScheduledLength(a).value ==>
              b.overtimeHours == a.overtimeHours
    ensures b.(clockOut := a.clockOut, workedHours := a.workedHours, overtimeHours := a.overtimeHours) == a
  {
    var worked := Elapsed(a.clockIn.value, now);
    var overtime :=
      match ScheduledLength(a)
      case Some(planned) => if worked > planned then worked - planned else a.overtimeHours
      case None => a.overtimeHours;
    a.(clockOut := Some(now), workedHours := Some(worked), overtimeHours := overtime)
  }

  /** The worked time CloseAttendance records is the only duration below one day from clock-in to clock-out. */
  lemma {:induction false} WorkedTimeIsElapsed(a: Attendance, now: TimeOfDay, n: nat)
    requires a.clockIn.Some?
    requires n < SecondsPerDay && (a.clockIn.value + n) % SecondsPerDay == now
    ensures CloseAttendance(a, now).workedHours == Some(n)
  {
    ElapsedUnique(a.clockIn.value, now, n);
  }

  /** What an approved paid leave adds to yearlyPaidLeaveUsed, in half days: a full day is two. */
  function PaidLeaveIncrement(d: LeaveDuration): (halfDays: nat)
    ensures 1 <= halfDays <= 2
    ensures halfDays == 2 <==> d == FullDay
  {
    if d == FullDay then 2 else 1
  }

  /** Clocking out answers with the clock-out time, the worked time and the record's overtime. */
  datatype ClockOutReport = ClockOutReport(time: TimeOfDay, workedHours: nat, overtimeHours: int)

  // ---------------------------------------------------------------------
  // Frame lemmas: rewriting rows in place keeps their ids
  // ---------------------------------------------------------------------

  /** Rows kept at their positions with their ids (and possibly more rows after them) keep every reference to them resolvable. */
  lemma EmployeeRefsKept(before: seq<Employee>, after: seq<Employee>)
    requires |before| <= |after|
    requires forall i :: 0 <= i < |before| ==> after[i].id == before[i].id
    ensures forall id :: HasEmployee(before, id) ==> HasEmployee(after, id)
  {
    forall id | HasEmployee(before, id) ensures HasEmployee(after, id) {
      var i :| 0 <= i < |before| && before[i].id == id;
      assert after[i].id == id;
    }
  }

  lemma OvertimeRefsKept(before: seq<Overtime>, after: seq<Overtime>)
    requires |before| <= |after|
    requires forall i :: 0 <= i < |before| ==> after[i].id == before[i].id
    ensures forall id :: HasOvertime(before, id) ==> HasOvertime(after, id)
  {
    forall id | HasOvertime(before, id) ensures HasOvertime(after, id) {
      var i :| 0 <= i < |before| && before[i].id == id;
      assert after[i].id == id;
    }
  }

  /** Records the decision on overtime row i; its id and key columns stay as they were. */
  method RecordOvertimeDecision(db: Database, i: nat, decided: Overtime)
    requires db.Valid() && i < |db.overtimes|
    requires decided.id == db.overtimes[i].id && decided.employeeId == db.overtimes[i].employeeId
    requires decided.date == db.overtimes[i].date && decided.overtimeType == db.overtimes[i].overtimeType
    modifies db`overtimes
    ensures db.Valid()
    ensures db.overtimes == old(db.overtimes)[i := decided]
    ensures HasOvertime(db.overtimes, decided.id)
  {
    ghost var before := db.overtimes;
    db.overtimes := db.overtimes[i := decided];
    OvertimeRefsKept(before, db.overtimes);
  }

  /** Adds the approved comp-off leave of overtime row o, seven days after its date, when that date has no leave yet. */
  method AddCompOffLeave(db: Database, o: Overtime)
    requires db.Valid() && HasOvertime(db.overtimes, o.id) && HasEmployee(db.employees, o.employeeId)
    requires FindLeaveFor(db.leaves, o.employeeId, o.date + 7).None?
    modifies db`leaves, db`nextId
    ensures db.Valid()
    ensures db.leaves == old(db.leaves)
              + [EmployeeLeave(old(db.nextId), o.employeeId, CompOffLeave, o.date + 7, FullDay,
                               CompensatoryFor(o.date), Approved, Some(o.id))]
    ensures db.nextId == old(db.nextId) + 1
  {
    var leave := EmployeeLeave(db.nextId, o.employeeId, CompOffLeave, o.date + 7, FullDay,
                               CompensatoryFor(o.date), Approved, Some(o.id));
    db.leaves := db.leaves + [leave];
    db.nextId := db.nextId + 1;
  }

  /** Rewrites employee row j without changing its id. */
  method UpdateEmployee(db: Database, j: nat, e: Employee)
    requires db.Valid() && j < |db.employees| && e.id == db.employees[j].id
    modifies db`employees
    ensures db.Valid()
    ensures db.employees == old(db.employees)[j := e]
  {
    ghost var before := db.employees;
    db.employees := db.employees[j := e];
    EmployeeRefsKept(before, db.employees);
  }

  // ---------------------------------------------------------------------
  // Schedules and employees
  // ---------------------------------------------------------------------

  /** A manual schedule row: refused when the employee is unknown or already has a row that date; an unknown shift is a foreign-key violation. */
  method CreateSchedule(db: Database, employeeId: Id, shiftId: Option<Id>, date: Date,
                        startTime: TimeOfDay, endTime: TimeOfDay, overtimeHours: int, isCustom: bool)
    returns (r: Result<Id, HandlerError>)
    requires db.Valid()
    modifies db`schedules, db`nextId
    ensures db.Valid()
    ensures !HasEmployee(old(db.employees), employeeId) ==>
              r == Failure(NotFound("Employee not found")) && unchanged(db)
    ensures HasEmployee(old(db.employees), employeeId) && FindScheduleFor(old(db.schedules), employeeId, date).Some? ==>
              r == Failure(BadRequest("Schedule already exists for this date")) && unchanged(db)
    ensures HasEmployee(old(db.employees), employeeId) && FindScheduleFor(old(db.schedules), employeeId, date).None?
            && shiftId.Some? && !HasShift(old(db.shifts), shiftId.value) ==>
              r == Failure(IntegrityError) && unchanged(db)
    ensures r.Success? <==>
              && HasEmployee(old(db.employees), employeeId)
              && FindScheduleFor(old(db.schedules), employeeId, date).None?
              && (shiftId.Some? ==> HasShift(old(db.shifts), shiftId.value))
    ensures r.Failure? ==> unchanged(db)
    ensures r.Success? ==>
              && r.value == old(db.nextId) && db.nextId == old(db.nextId) + 1
              && db.schedules == old(db.schedules)
                   + [Schedule(old(db.nextId), employeeId, shiftId, date, startTime, endTime, overtimeHours, isCustom)]
  {
    if !HasEmployee(db.employees, employeeId) {
      return Failure(NotFound("Employee not found"));
    }
    if FindScheduleFor(db.schedules, employeeId, date).Some? {
      return Failure(BadRequest("Schedule already exists for this date"));
    }
    if shiftId.Some? && !HasShift(db.shifts, shiftId.value) {
      return Failure(IntegrityError);
    }
    var row := Schedule(db.nextId, employeeId, shiftId, date, startTime, endTime, overtimeHours, isCustom);
    db.schedules := db.schedules + [row];
    r := Success(db.nextId);
    db.nextId := db.nextId + 1;
  }

  /** Removes the schedule row with the given id; afterwards its (employee, date) slot is free. */
  method DeleteSchedule(db: Database, scheduleId: Id) returns (r: Result<(), HandlerError>)
    requires db.Valid()
    modifies db`schedules
    ensures db.Valid()
    ensures FindSchedule(old(db.schedules), scheduleId).None? ==>
              r == Failure(NotFound("Schedule not found")) && unchanged(db)
    ensures FindSchedule(old(db.schedules), scheduleId).Some? ==>
              var i := FindSchedule(old(db.schedules), scheduleId).value;
              && r == Success(())
              && db.schedules == old(db.schedules)[..i] + old(db.schedules)[i + 1..]
              && FindScheduleFor(db.schedules, old(db.schedules)[i].employeeId, old(db.schedules)[i].date).None?
  {
    var found := FindSchedule(db.schedules, scheduleId);
    if found.None? {
      return Failure(NotFound("Schedule not found"));
    }
    var i := found.value;
    ghost var before := db.schedules;
    db.schedules := db.schedules[..i] + db.schedules[i + 1..];
    forall j | 0 <= j < |db.schedules|
      ensures db.schedules[j].employeeId != before[i].employeeId || db.schedules[j].date != before[i].date
    {
      if j < i {
        assert db.schedules[j] == before[j];
      } else {
        assert db.schedules[j] == before[j + 1];
      }
    }
    r := Success(());
  }

  /** Soft deletion: the employee row stays and only its active flag is cleared. */
  method DeleteEmployee(db: Database, employeeId: Id) returns (r: Result<(), HandlerError>)
    requires db.Valid()
    modifies db`employees
    ensures db.Valid()
    ensures FindEmployee(old(db.employees), employeeId).None? ==>
              r == Failure(NotFound("Employee not found")) && unchanged(db)
    ensures FindEmployee(old(db.employees), employeeId).Some? ==>
              var i := FindEmployee(old(db.employees), employeeId).value;
              && r == Success(())
              && db.employees == old(db.employees)[i := old(db.employees)[i].(isActive := false)]
  {
    var found := FindEmployee(db.employees, employeeId);
    if found.None? {
      return Failure(NotFound("Employee not found"));
    }
    var i := found.value;
    ghost var before := db.employees;
    db.employees := db.employees[i := db.employees[i].(isActive := false)];
    EmployeeRefsKept(before, db.employees);
    r := Success(());
  }

  // ---------------------------------------------------------------------
  // Attendance
  // ---------------------------------------------------------------------

  /**
   * Clocking in needs a schedule row for the (employee, date) and an
   * attendance record without a clock-in time: it sets the time on the
   * existing record or creates a PRESENT record copying the scheduled window.
   */
  method ClockIn(db: Database, employeeId: Id, date: Date, now: TimeOfDay) returns (r: Result<TimeOfDay, HandlerError>)
    requires db.Valid()
    modifies db`attendance, db`nextId
    ensures db.Valid()
    ensures FindScheduleFor(old(db.schedules), employeeId, date).None? ==>
              r == Failure(NotFound("No schedule found for this date")) && unchanged(db)
    ensures FindScheduleFor(old(db.schedules), employeeId, date).Some? ==>
              var s := old(db.schedules)[FindScheduleFor(old(db.schedules), employeeId, date).value];
              match FindAttendanceFor(old(db.attendance), employeeId, date)
              case Some(k) =>
                if old(db.attendance)[k].clockIn.Some? then
                  r == Failure(BadRequest("Already clocked in")) && unchanged(db)
                else
                  && r == Success(now) && db.nextId == old(db.nextId)
                  && db.attendance == old(db.attendance)[k := old(db.attendance)[k].(clockIn := Some(now))]
              case None =>
                && r == Success(now) && db.nextId == old(db.nextId) + 1
                && db.attendance == old(db.attendance)
                     + [Attendance(old(db.nextId), employeeId, date, Some(s.startTime), Some(s.endTime),
                                   Some(now), None, None, 0, Present)]
  {
    var found := FindScheduleFor(db.schedules, employeeId, date);
    if found.None? {
      return Failure(NotFound("No schedule found for this date"));
    }
    var s := db.schedules[found.value];
    assert HasEmployee(db.employees, employeeId);
    var existing := FindAttendanceFor(db.attendance, employeeId, date);
    match existing
    case Some(k) =>
      if db.attendance[k].clockIn.Some? {
        return Failure(BadRequest("Already clocked in"));
      }
      db.attendance := db.attendance[k := db.attendance[k].(clockIn := Some(now))];
      r := Success(now);
    case None =>
      var row := Attendance(db.nextId, employeeId, date, Some(s.startTime), Some(s.endTime), Some(now), None, None, 0, Present);
      db.attendance := db.attendance + [row];
      db.nextId := db.nextId + 1;
      r := Success(now);
  }

  /**
   * Clocking out needs a clocked-in record that is not yet clocked out, so
   * the clock-out time is written at most once; the record becomes
   * CloseAttendance of it.
   */
  method ClockOut(db: Database, employeeId: Id, date: Date, now: TimeOfDay) returns (r: Result<ClockOutReport, HandlerError>)
    requires db.Valid()
    modifies db`attendance
    ensures db.Valid()
    ensures match FindAttendanceFor(old(db.attendance), employeeId, date)
      case None => r == Failure(BadRequest("Must clock in first")) && unchanged(db)
      case Some(k) =>
        var a := old(db.attendance)[k];
        if a.clockIn.None? then
          r == Failure(BadRequest("Must clock in first")) && unchanged(db)
        else if a.clockOut.Some? then
          r == Failure(BadRequest("Already clocked out")) && unchanged(db)
        else
          var b := CloseAttendance(a, now);
          && r == Success(ClockOutReport(now, b.workedHours.value, b.overtimeHours))
          && db.attendance == old(db.attendance)[k := b]
  {
    var found := FindAttendanceFor(db.attendance, employeeId, date);
    if found.None? {
      return Failure(BadRequest("Must clock in first"));
    }
    var k := found.value;
    var a := db.attendance[k];
    if a.clockIn.None? {
      return Failure(BadRequest("Must clock in first"));
    }
    if a.clockOut.Some? {
      return Failure(BadRequest("Already clocked out"));
    }
    var b := CloseAttendance(a, now);
    db.attendance := db.attendance[k := b];
    r := Success(ClockOutReport(now, b.workedHours.value, b.overtimeHours));
  }

  // ---------------------------------------------------------------------
  // Overtime
  // ---------------------------------------------------------------------

  /** A PENDING overtime request; an unknown employee, an unknown type or mode text, or a second request for the same (employee, date, type) is rejected by the database. */
  method RequestOvertime(db: Database, employeeId: Id, date: Date, actualHours: int,
                         overtimeType: string, compensationMode: string)
    returns (r: Result<Id, HandlerError>)
    requires db.Valid()
    modifies db`overtimes, db`nextId
    ensures db.Valid()
    ensures r.Failure? ==> r.error == IntegrityError && unchanged(db)
    ensures r.Failure? <==>
              || !HasEmployee(old(db.employees), employeeId)
              || ParseOvertimeType(overtimeType).None?
              || ParseCompensationMode(compensationMode).None?
              || FindOvertimeFor(old(db.overtimes), employeeId, date, ParseOvertimeType(overtimeType).value).Some?
    ensures r.Success? ==>
              && r.value == old(db.nextId) && db.nextId == old(db.nextId) + 1
              && db.overtimes == old(db.overtimes)
                   + [Overtime(old(db.nextId), employeeId, date, actualHours, None,
                               ParseOvertimeType(overtimeType).value, ParseCompensationMode(compensationMode).value, Pending)]
  {
    var kind := ParseOvertimeType(overtimeType);
    var mode := ParseCompensationMode(compensationMode);
    if !HasEmployee(db.employees, employeeId) || kind.None? || mode.None?
       || FindOvertimeFor(db.overtimes, employeeId, date, kind.value).Some? {
      return Failure(IntegrityError);
    }
    var row := Overtime(db.nextId, employeeId, date, actualHours, None, kind.value, mode.value, Pending);
    ghost var before := db.overtimes;
    db.overtimes := db.overtimes + [row];
    OvertimeRefsKept(before, db.overtimes);
    r := Success(db.nextId);
    db.nextId := db.nextId + 1;
  }

  /**
   * The tables after deciding on overtime row i with a parsed status and the
   * approved hours, given the tables before (overtimes, leaves, employees and
   * the next fresh id, primed after): the decision is written on the row;
   * an approval with COMP_OFF adds the comp-off leave unless the employee
   * already has a leave that date, in which case the database refuses the
   * whole change; an approval with EXTRA_PAY adds the hours to the
   * employee's monthly overtime.
   */
  ghost predicate OvertimeDecided(
    overtimes: seq<Overtime>, leaves: seq<EmployeeLeave>, employees: seq<Employee>, nextId: nat,
    overtimes': seq<Overtime>, leaves': seq<EmployeeLeave>, employees': seq<Employee>, nextId': nat,
    i: nat, status: ApprovalStatus, hours: int, r: Result<(), HandlerError>)
    requires i < |overtimes|
  {
    var o := overtimes[i];
    var updated := overtimes[i := o.(approvalStatus := status, approvedHours := Some(hours))];
    if status == Approved && o.compensationMode == CompOff then
      if FindLeaveFor(leaves, o.employeeId, o.date + 7).Some? then
        && r == Failure(IntegrityError)
        && overtimes' == overtimes && leaves' == leaves && employees' == employees && nextId' == nextId
      else
        && r == Success(()) && overtimes' == updated && employees' == employees
        && leaves' == leaves + [EmployeeLeave(nextId, o.employeeId, CompOffLeave, o.date + 7, FullDay,
                                              CompensatoryFor(o.date), Approved, Some(o.id))]
        && nextId' == nextId + 1
    else if status == Approved then
      var j := FindEmployee(employees, o.employeeId);
      && r == Success(()) && overtimes' == updated && j.Some?
      && employees' == employees[j.value := employees[j.value].(
           monthlyOvertimeUsed := employees[j.value].monthlyOvertimeUsed + hours)]
      && leaves' == leaves && nextId' == nextId
    else
      && r == Success(()) && overtimes' == updated
      && employees' == employees && leaves' == leaves && nextId' == nextId
  }

  /** Applies the decision on overtime row i. */
  method DecideOvertime(db: Database, i: nat, status: ApprovalStatus, hours: int) returns (r: Result<(), HandlerError>)
    requires db.Valid() && i < |db.overtimes|
    modifies db`overtimes, db`leaves, db`employees, db`nextId
    ensures db.Valid()
    ensures OvertimeDecided(old(db.overtimes), old(db.leaves), old(db.employees), old(db.nextId),
                            db.overtimes, db.leaves, db.employees, db.nextId, i, status, hours, r)
  {
    var o := db.overtimes[i];
    var decided := o.(approvalStatus := status, approvedHours := Some(hours));
    if status == Approved && o.compensationMode == CompOff {
      if FindLeaveFor(db.leaves, o.employeeId, o.date + 7).Some? {
        return Failure(IntegrityError);
      }
      GrantCompOff(db, i, decided);
    } else if status == Approved {
      CreditExtraPay(db, i, decided, hours);
    } else {
      RecordOvertimeDecision(db, i, decided);
    }
    r := Success(());
  }

  /** Writes an approval on overtime row i and adds its comp-off leave. */
  method GrantCompOff(db: Database, i: nat, decided: Overtime)
    requires db.Valid() && i < |db.overtimes|
    requires decided == db.overtimes[i].(approvalStatus := decided.approvalStatus, approvedHours := decided.approvedHours)
    requires FindLeaveFor(db.leaves, decided.employeeId, decided.date + 7).None?
    modifies db`overtimes, db`leaves, db`nextId
    ensures db.Valid()
    ensures db.overtimes == old(db.overtimes)[i := decided]
    ensures db.leaves == old(db.leaves)
              + [EmployeeLeave(old(db.nextId), decided.employeeId, CompOffLeave, decided.date + 7, FullDay,
                               CompensatoryFor(decided.date), Approved, Some(decided.id))]
    ensures db.nextId == old(db.nextId) + 1
  {
    assert HasEmployee(db.employees, decided.employeeId);
    RecordOvertimeDecision(db, i, decided);
    AddCompOffLeave(db, decided);
  }

  /** Writes an approval on overtime row i and adds the hours to the employee's monthly overtime. */
  method CreditExtraPay(db: Database, i: nat, decided: Overtime, hours: int)
    requires db.Valid() && i < |db.overtimes|
    requires decided == db.overtimes[i].(approvalStatus := decided.approvalStatus, approvedHours := decided.approvedHours)
    modifies db`overtimes, db`employees
    ensures db.Valid()
    ensures db.overtimes == old(db.overtimes)[i := decided]
    ensures var j := FindEmployee(old(db.employees), decided.employeeId);
      j.Some? && db.employees == old(db.employees)[j.value := old(db.employees)[j.value].(
        monthlyOvertimeUsed := old(db.employees)[j.value].monthlyOvertimeUsed + hours)]
  {
    assert HasEmployee(db.employees, decided.employeeId);
    var j := FindEmployee(db.employees, decided.employeeId).value;
    RecordOvertimeDecision(db, i, decided);
    UpdateEmployee(db, j, db.employees[j].(monthlyOvertimeUsed := db.employees[j].monthlyOvertimeUsed + hours));
  }

  /**
   * An EXTRA_PAY approval whose hours the request states adds a float to the
   * employee's stored counter; when that counter is non-zero it is a
   * fixed-point decimal, and adding a float to one raises a TypeError. A zero
   * or absent counter is replaced by the integer 0 first, and hours taken
   * from the actual hours are decimals too, so both of those add cleanly.
   */
  predicate ExtraPayTypeClash(o: Overtime, employees: seq<Employee>, status: ApprovalStatus, approvedHours: Option<int>) {
    && status == Approved && o.compensationMode == ExtraPay && approvedHours.Some?
    && var j := FindEmployee(employees, o.employeeId);
       j.Some? && employees[j.value].monthlyOvertimeUsed != 0
  }

  /**
   * Decides on an overtime request whatever its current status: the approved
   * hours are the given ones, else the actual ones, and the effect is
   * OvertimeDecided. An unknown request or status text changes nothing, and
   * so does an EXTRA_PAY approval that clashes with the counter's type.
   */
  method ApproveOvertime(db: Database, overtimeId: Id, approvedHours: Option<int>, approvalStatus: string)
    returns (r: Result<(), HandlerError>)
    requires db.Valid()
    modifies db`overtimes, db`leaves, db`employees, db`nextId
    ensures db.Valid()
    ensures FindOvertime(old(db.overtimes), overtimeId).None? ==>
              r == Failure(NotFound("Overtime request not found")) && unchanged(db)
    ensures FindOvertime(old(db.overtimes), overtimeId).Some? && ParseApprovalStatus(approvalStatus).None? ==>
              r == Failure(IntegrityError) && unchanged(db)
    ensures FindOvertime(old(db.overtimes), overtimeId).Some? && ParseApprovalStatus(approvalStatus).Some? ==>
              var i := FindOvertime(old(db.overtimes), overtimeId).value;
              ExtraPayTypeClash(old(db.overtimes)[i], old(db.employees), ParseApprovalStatus(approvalStatus).value, approvedHours) ==>
              r == Failure(ServerError) && unchanged(db)
    ensures FindOvertime(old(db.overtimes), overtimeId).Some? && ParseApprovalStatus(approvalStatus).Some? ==>
              var i := FindOvertime(old(db.overtimes), overtimeId).value;
              !ExtraPayTypeClash(old(db.overtimes)[i], old(db.employees), ParseApprovalStatus(approvalStatus).value, approvedHours) ==>
              OvertimeDecided(old(db.overtimes), old(db.leaves), old(db.employees), old(db.nextId),
                              db.overtimes, db.leaves, db.employees, db.nextId,
                              i, ParseApprovalStatus(approvalStatus).value,
                              approvedHours.GetOr(old(db.overtimes)[i].actualHours), r)
  {
    var found := FindOvertime(db.overtimes, overtimeId);
    if found.None? {
      return Failure(NotFound("Overtime request not found"));
    }
    var status := ParseApprovalStatus(approvalStatus);
    if status.None? {
      return Failure(IntegrityError);
    }
    var o := db.overtimes[found.value];
    if ExtraPayTypeClash(o, db.employees, status.value, approvedHours) {
      return Failure(ServerError);
    }
    r := DecideOvertime(db, found.value, status.value, approvedHours.GetOr(o.actualHours));
    assert FindOvertime(old(db.overtimes), overtimeId) == found;
    assert ParseApprovalStatus(approvalStatus) == status;
  }

  // ---------------------------------------------------------------------
  // Leave
  // ---------------------------------------------------------------------

  /** A PENDING leave request, refused when the employee has a leave of any status on that date. */
  method RequestLeave(db: Database, employeeId: Id, leaveType: string, date: Date, duration: string, reason: Option<string>)
    returns (r: Result<Id, HandlerError>)
    requires db.Valid()
    modifies db`leaves, db`nextId
    ensures db.Valid()
    ensures FindLeaveFor(old(db.leaves), employeeId, date).Some? ==>
              r == Failure(BadRequest("Leave already requested for this date")) && unchanged(db)
    ensures FindLeaveFor(old(db.leaves), employeeId, date).None?
            && (!HasEmployee(old(db.employees), employeeId) || ParseLeaveType(leaveType).None? || ParseLeaveDuration(duration).None?) ==>
              r == Failure(IntegrityError) && unchanged(db)
    ensures r.Success? <==>
              && FindLeaveFor(old(db.leaves), employeeId, date).None?
              && HasEmployee(old(db.employees), employeeId)
              && ParseLeaveType(leaveType).Some? && ParseLeaveDuration(duration).Some?
    ensures r.Success? ==>
              && r.value == old(db.nextId) && db.nextId == old(db.nextId) + 1
              && db.leaves == old(db.leaves)
                   + [EmployeeLeave(old(db.nextId), employeeId, ParseLeaveType(leaveType).value, date,
                                    ParseLeaveDuration(duration).value, Stated(reason), Pending, None)]
    ensures r.Failure? ==> unchanged(db)
  {
    if FindLeaveFor(db.leaves, employeeId, date).Some? {
      return Failure(BadRequest("Leave already requested for this date"));
    }
    var kind := ParseLeaveType(leaveType);
    var length := ParseLeaveDuration(duration);
    if !HasEmployee(db.employees, employeeId) || kind.None? || length.None? {
      return Failure(IntegrityError);
    }
    var row := EmployeeLeave(db.nextId, employeeId, kind.value, date, length.value, Stated(reason), Pending, None);
    db.leaves := db.leaves + [row];
    r := Success(db.nextId);
    db.nextId := db.nextId + 1;
  }

  /**
   * Writes the given status on the leave, whatever its current status; an
   * approved PAID leave adds a full or half day to the employee's used paid
   * leave, with no check against the allowance.
   */
  method ApproveLeave(db: Database, leaveId: Id, approvalStatus: string) returns (r: Result<(), HandlerError>)
    requires db.Valid()
    modifies db`leaves, db`employees
    ensures db.Valid()
    ensures FindLeave(old(db.leaves), leaveId).None? ==>
              r == Failure(NotFound("Leave request not found")) && unchanged(db)
    ensures FindLeave(old(db.leaves), leaveId).Some? && ParseApprovalStatus(approvalStatus).None? ==>
              r == Failure(IntegrityError) && unchanged(db)
    ensures FindLeave(old(db.leaves), leaveId).Some? && ParseApprovalStatus(approvalStatus).Some? ==>
              var i := FindLeave(old(db.leaves), leaveId).value;
              var l := old(db.leaves)[i];
              var status := ParseApprovalStatus(approvalStatus).value;
              && r == Success(())
              && db.leaves == old(db.leaves)[i := l.(approvalStatus := status)]
              && if status == Approved && l.leaveType == PaidLeave then
                   var j := FindEmployee(old(db.employees), l.employeeId);
                   j.Some? && db.employees == old(db.employees)[j.value := old(db.employees)[j.value].(
                     yearlyPaidLeaveUsed := old(db.employees)[j.value].yearlyPaidLeaveUsed + PaidLeaveIncrement(l.duration))]
                 else
                   db.employees == old(db.employees)
  {
    var found := FindLeave(db.leaves, leaveId);
    if found.None? {
      return Failure(NotFound("Leave request not found"));
    }
    var status := ParseApprovalStatus(approvalStatus);
    if status.None? {
      return Failure(IntegrityError);
    }
    var i := found.value;
    var l := db.leaves[i];
    db.leaves := db.leaves[i := l.(approvalStatus := status.value)];
    if status.value == Approved && l.leaveType == PaidLeave {
      assert HasEmployee(db.employees, l.employeeId);
      var j := FindEmployee(db.employees, l.employeeId).value;
      UpdateEmployee(db, j, db.employees[j].(
        yearlyPaidLeaveUsed := db.employees[j].yearlyPaidLeaveUsed + PaidLeaveIncrement(l.duration)));
    }
    r := Success(());
  }
}
