/**
 * The greedy shift generator. For every date of a range it skips holidays
 * whole; otherwise it takes the role's shift templates for that weekday,
 * highest priority first, and gives each to the first employee of the role
 * who passes the eligibility filters (active, no approved leave, a work day
 * of the role, not marked unavailable that weekday, every required skill,
 * and the weekly hour cap), unless that employee already has a schedule on
 * the date.
 *
 * The pure functions below (SlotStep, RunShifts, RunDay, RunDays) state what
 * one run computes; ShiftScheduler.GenerateSchedule is the loop that does it
 * on the database and is proved to leave exactly that result.
 */
module Scheduler {
  import opened Wrappers
  import opened Models
  import opened Calendar
  import opened Store

  // ---------------------------------------------------------------------
  // Queries over the tables
  // ---------------------------------------------------------------------

  /**
   * A holiday row covers d for the requested location: a non-empty location
   * admits only holidays at that location or with no location.
   */
  predicate HolidayApplies(h: Holiday, d: Date, location: Option<string>) {
    h.date == d && (location.None? || location.value == "" || h.location == location || h.location.None?)
  }

  predicate IsHoliday(holidays: seq<Holiday>, d: Date, location: Option<string>) {
    exists i :: 0 <= i < |holidays| && HolidayApplies(holidays[i], d, location)
  }

  /** The employee has a leave of any type with status APPROVED on d. */
  predicate HasLeave(leaves: seq<EmployeeLeave>, employeeId: Id, d: Date) {
    exists i :: 0 <= i < |leaves| && leaves[i].employeeId == employeeId
      && leaves[i].date == d && leaves[i].approvalStatus == Approved
  }

  /** The availability filters other than the weekly cap, checked in the order the generator checks them. */
  predicate IsAvailable(role: Role, leaves: seq<EmployeeLeave>, e: Employee, d: Date, s: Shift) {
    if !e.isActive then false
    else if HasLeave(leaves, e.id, d) then false
    else if |role.workDays| > 0 && DayName(d) !in role.workDays then false
    else if DayOfWeek(d) in e.availability && e.availability[DayOfWeek(d)] == Some(false) then false
    else if |s.skillsRequired| > 0 && !(forall k :: 0 <= k < |s.skillsRequired| ==> s.skillsRequired[k] in e.skills) then false
    else true
  }

  /** What one schedule row adds to an employee's hours in the week starting at weekStart. */
  function Contribution(row: Schedule, employeeId: Id, weekStart: Date): nat {
    if row.employeeId == employeeId && weekStart <= row.date <= weekStart + 6
    then Elapsed(row.startTime, row.endTime)
    else 0
  }

  /** The hours, in seconds, of an employee's rows dated in the week starting at weekStart. */
  function HoursInWeek(rows: seq<Schedule>, employeeId: Id, weekStart: Date): nat {
    if rows == [] then 0
    else HoursInWeek(rows[..|rows| - 1], employeeId, weekStart) + Contribution(rows[|rows| - 1], employeeId, weekStart)
  }

  /** An employee's scheduled seconds from the Monday to the Sunday of d's week. */
  function WeekHours(rows: seq<Schedule>, employeeId: Id, d: Date): nat {
    HoursInWeek(rows, employeeId, WeekStart(d))
  }

  /** The week's hours add up over any split of the table: each row counts once, wherever it stands. */
  lemma {:induction false} HoursInWeekAppend(a: seq<Schedule>, b: seq<Schedule>, employeeId: Id, weekStart: Date)
    ensures HoursInWeek(a + b, employeeId, weekStart) == HoursInWeek(a, employeeId, weekStart) + HoursInWeek(b, employeeId, weekStart)
    decreases |b|
  {
    if b == [] {
      assert a + b == a;
    } else {
      var init := b[..|b| - 1];
      assert (a + b)[..|a + b| - 1] == a + init;
      assert (a + b)[|a + b| - 1] == b[|b| - 1];
      HoursInWeekAppend(a, init, employeeId, weekStart);
    }
  }

  /** No limit, or a zero limit, admits everything; otherwise the week's hours plus the shift's must fit. */
  predicate WithinWeeklyLimit(limit: Option<int>, weekHours: int, shiftHours: int) {
    limit.None? || limit.value == 0 || weekHours + shiftHours <= limit.value
  }

  /** The active employees of a role, in table order. */
  function ActiveEmployeesOf(employees: seq<Employee>, roleId: Id): (r: seq<Employee>)
    ensures forall e :: e in r <==> e in employees && e.roleId == roleId && e.isActive
    ensures |r| <= |employees|
  {
    if employees == [] then []
    else
      var rest := ActiveEmployeesOf(employees[1..], roleId);
      if employees[0].roleId == roleId && employees[0].isActive then [employees[0]] + rest else rest
  }

  /** The shift templates of a role, in table order. */
  function ShiftsOfRole(shifts: seq<Shift>, roleId: Id): (r: seq<Shift>)
    ensures forall s :: s in r <==> s in shifts && s.roleId == roleId
    ensures |r| <= |shifts|
  {
    if shifts == [] then []
    else
      var rest := ShiftsOfRole(shifts[1..], roleId);
      if shifts[0].roleId == roleId then [shifts[0]] + rest else rest
  }

  /** The templates for one ISO weekday, in their original order; a null weekday never matches. */
  function ShiftsOnDay(shifts: seq<Shift>, dow: int): (r: seq<Shift>)
    ensures forall s :: s in r <==> s in shifts && s.dayOfWeek == Some(dow)
    ensures |r| <= |shifts|
  {
    if shifts == [] then []
    else
      var rest := ShiftsOnDay(shifts[1..], dow);
      if shifts[0].dayOfWeek == Some(dow) then [shifts[0]] + rest else rest
  }

  /** Filtering the active employees keeps table order: the rows from an earlier part of the table come first. */
  lemma {:induction false} ActiveEmployeesOfAppend(a: seq<Employee>, b: seq<Employee>, roleId: Id)
    ensures ActiveEmployeesOf(a + b, roleId) == ActiveEmployeesOf(a, roleId) + ActiveEmployeesOf(b, roleId)
  {
    if a == [] {
      assert a + b == b;
    } else {
      assert (a + b)[0] == a[0] && (a + b)[1..] == a[1..] + b;
      ActiveEmployeesOfAppend(a[1..], b, roleId);
    }
  }

  /** Filtering the role's templates keeps table order. */
  lemma {:induction false} ShiftsOfRoleAppend(a: seq<Shift>, b: seq<Shift>, roleId: Id)
    ensures ShiftsOfRole(a + b, roleId) == ShiftsOfRole(a, roleId) + ShiftsOfRole(b, roleId)
  {
    if a == [] {
      assert a + b == b;
    } else {
      assert (a + b)[0] == a[0] && (a + b)[1..] == a[1..] + b;
      ShiftsOfRoleAppend(a[1..], b, roleId);
    }
  }

  /** Filtering by weekday keeps the templates' order, which decides ties after the stable sort. */
  lemma {:induction false} ShiftsOnDayAppend(a: seq<Shift>, b: seq<Shift>, dow: int)
    ensures ShiftsOnDay(a + b, dow) == ShiftsOnDay(a, dow) + ShiftsOnDay(b, dow)
  {
    if a == [] {
      assert a + b == b;
    } else {
      assert (a + b)[0] == a[0] && (a + b)[1..] == a[1..] + b;
      ShiftsOnDayAppend(a[1..], b, dow);
    }
  }

  // ---------------------------------------------------------------------
  // Priority order: a stable sort, highest priority first, null as 0
  // ---------------------------------------------------------------------

  function PriorityKey(s: Shift): int {
    s.priority.GetOr(0)
  }

  predicate SortedByPriority(ss: seq<Shift>) {
    forall i, j :: 0 <= i < j < |ss| ==> PriorityKey(ss[i]) >= PriorityKey(ss[j])
  }

  /** The shifts of ss whose key is k, in the order ss has them. */
  function WithPriority(ss: seq<Shift>, k: int): seq<Shift> {
    if ss == [] then []
    else (if PriorityKey(ss[0]) == k then [ss[0]] else []) + WithPriority(ss[1..], k)
  }

  /** Places s after every shift of strictly higher priority and before the rest. */
  function InsertByPriority(s: Shift, ss: seq<Shift>): (r: seq<Shift>)
    ensures |r| == |ss| + 1
    ensures r[0] == s || (ss != [] && r[0] == ss[0])
    ensures multiset(r) == multiset(ss) + multiset{s}
  {
    if ss == [] || PriorityKey(ss[0]) <= PriorityKey(s) then [s] + ss
    else
      assert ss == [ss[0]] + ss[1..];
      [ss[0]] + InsertByPriority(s, ss[1..])
  }

  /** A sorted sequence stays sorted with a head of priority at least that of its first element. */
  lemma SortedCons(x: Shift, rest: seq<Shift>)
    requires SortedByPriority(rest)
    requires rest != [] ==> PriorityKey(x) >= PriorityKey(rest[0])
    ensures SortedByPriority([x] + rest)
  {
    var r := [x] + rest;
    forall i, j | 0 <= i < j < |r| ensures PriorityKey(r[i]) >= PriorityKey(r[j]) {
      assert r[j] == rest[j - 1];
      if i > 0 {
        assert r[i] == rest[i - 1];
      } else if j > 1 {
        assert PriorityKey(rest[0]) >= PriorityKey(rest[j - 1]);
      }
    }
  }

  lemma {:induction false} InsertKeepsSorted(s: Shift, ss: seq<Shift>)
    requires SortedByPriority(ss)
    ensures SortedByPriority(InsertByPriority(s, ss))
  {
    if ss == [] || PriorityKey(ss[0]) <= PriorityKey(s) {
      SortedCons(s, ss);
    } else {
      var tail := ss[1..];
      assert SortedByPriority(tail) by {
        forall i, j | 0 <= i < j < |tail| ensures PriorityKey(tail[i]) >= PriorityKey(tail[j]) {
          assert tail[i] == ss[i + 1] && tail[j] == ss[j + 1];
        }
      }
      InsertKeepsSorted(s, tail);
      var rest := InsertByPriority(s, tail);
      if tail != [] {
        assert tail[0] == ss[1];
      }
      SortedCons(ss[0], rest);
    }
  }

  lemma WithPriorityCons(x: Shift, ss: seq<Shift>, k: int)
    ensures WithPriority([x] + ss, k) == (if PriorityKey(x) == k then [x] else []) + WithPriority(ss, k)
  {
    var r := [x] + ss;
    assert r[0] == x && r[1..] == ss;
  }

  /** Inserting s puts it ahead of every shift of its own priority: stability for a sort that inserts from the back. */
  lemma {:induction false} InsertWithPriority(s: Shift, ss: seq<Shift>, k: int)
    ensures WithPriority(InsertByPriority(s, ss), k) == (if PriorityKey(s) == k then [s] else []) + WithPriority(ss, k)
  {
    if ss == [] || PriorityKey(ss[0]) <= PriorityKey(s) {
      WithPriorityCons(s, ss, k);
    } else {
      var tail := ss[1..];
      assert ss == [ss[0]] + tail;
      InsertWithPriority(s, tail, k);
      WithPriorityCons(ss[0], InsertByPriority(s, tail), k);
      WithPriorityCons(ss[0], tail, k);
    }
  }

  /**
   * The shifts of ss, highest priority first; shifts of equal priority keep
   * their relative order (a stable sort). The result is sorted, holds the
   * same shifts, and agrees with ss on each priority class.
   */
  function SortByPriority(ss: seq<Shift>): (r: seq<Shift>)
    ensures SortedByPriority(r)
    ensures multiset(r) == multiset(ss)
    ensures forall k :: WithPriority(r, k) == WithPriority(ss, k)
  {
    if ss == [] then []
    else
      var sortedRest := SortByPriority(ss[1..]);
      InsertKeepsSorted(ss[0], sortedRest);
      assert ss == [ss[0]] + ss[1..];
      assert forall k :: WithPriority(InsertByPriority(ss[0], sortedRest), k) == WithPriority(ss, k) by {
        forall k ensures WithPriority(InsertByPriority(ss[0], sortedRest), k) == WithPriority(ss, k) {
          InsertWithPriority(ss[0], sortedRest, k);
        }
      }
      InsertByPriority(ss[0], sortedRest)
  }

  /** The shifts visited on a working date of the given weekday, in visiting order. */
  function DayShifts(shifts: seq<Shift>, dow: int): seq<Shift> {
    SortByPriority(ShiftsOnDay(shifts, dow))
  }

  // ---------------------------------------------------------------------
  // One generation run, as a function of the tables it reads
  // ---------------------------------------------------------------------

  /** The inputs a run reads and never changes. */
  datatype Plan = Plan(
    role: Role,
    employees: seq<Employee>,
    shifts: seq<Shift>,
    holidays: seq<Holiday>,
    leaves: seq<EmployeeLeave>,
    location: Option<string>)

  datatype SkipEntry =
    | HolidaySkip(date: Date)
    | NoAvailableEmployees(date: Date, shiftName: string)
    | AlreadyScheduled(date: Date, employeeName: string)
  {
    function Reason(): string {
      match this
      case HolidaySkip(_) => "Holiday"
      case NoAvailableEmployees(_, _) => "No available employees"
      case AlreadyScheduled(_, _) => "Already scheduled"
    }
  }

  datatype CreatedEntry = CreatedEntry(date: Date, employeeName: string, shiftName: string, startTime: TimeOfDay, endTime: TimeOfDay)

  datatype Summary = Summary(created: nat, skipped: nat, schedules: seq<CreatedEntry>, skippedDetails: seq<SkipEntry>)

  /** The schedule table, the next fresh id and the two summary lists, as a run proceeds. */
  datatype GenState = GenState(rows: seq<Schedule>, nextId: nat, created: seq<CreatedEntry>, skipped: seq<SkipEntry>)

  /** The run's inputs for a role, or the error a run reports before it writes anything. */
  function PlanFor(
    roles: seq<Role>, employees: seq<Employee>, shifts: seq<Shift>, holidays: seq<Holiday>,
    leaves: seq<EmployeeLeave>, roleId: Id, location: Option<string>): (r: Result<Plan, string>)
    ensures FindRole(roles, roleId).None? ==> r == Failure("Role not found")
    ensures FindRole(roles, roleId).Some? && !(exists e :: e in employees && e.roleId == roleId && e.isActive) ==>
              r == Failure("No active employees found for this role")
    ensures FindRole(roles, roleId).Some? && (exists e :: e in employees && e.roleId == roleId && e.isActive)
            && !(exists s :: s in shifts && s.roleId == roleId) ==>
              r == Failure("No shifts defined for this role")
    ensures r.Success? ==>
              && r.value.role in roles && r.value.role.id == roleId
              && r.value.role == roles[FindRole(roles, roleId).value]
              && r.value.employees == ActiveEmployeesOf(employees, roleId)
              && r.value.shifts == ShiftsOfRole(shifts, roleId)
              && (forall e :: e in r.value.employees <==> e in employees && e.roleId == roleId && e.isActive)
              && (forall s :: s in r.value.shifts <==> s in shifts && s.roleId == roleId)
              && r.value.holidays == holidays && r.value.leaves == leaves && r.value.location == location
  {
    match FindRole(roles, roleId)
    case None => Failure("Role not found")
    case Some(k) =>
      var staff := ActiveEmployeesOf(employees, roleId);
      var templates := ShiftsOfRole(shifts, roleId);
      if staff == [] then Failure("No active employees found for this role")
      else
        assert staff[0] in staff;
        if templates == [] then Failure("No shifts defined for this role")
        else
          assert templates[0] in templates;
          Success(Plan(roles[k], staff, templates, holidays, leaves, location))
  }

  /** Every filter the generator applies to a candidate for shift s on d, given the schedule rows so far. */
  predicate EligibleFor(p: Plan, rows: seq<Schedule>, d: Date, s: Shift, e: Employee) {
    IsAvailable(p.role, p.leaves, e, d, s)
    && WithinWeeklyLimit(p.role.weeklyHoursLimit, WeekHours(rows, e.id, d), Elapsed(s.startTime, s.endTime))
  }

  /** The eligible employees among es, in the order of es. */
  function EligibleAmong(p: Plan, rows: seq<Schedule>, d: Date, s: Shift, es: seq<Employee>): (r: seq<Employee>)
    ensures forall e :: e in r <==> e in es && EligibleFor(p, rows, d, s, e)
  {
    if es == [] then []
    else
      var init := es[..|es| - 1];
      var last := es[|es| - 1];
      assert es == init + [last];
      EligibleAmong(p, rows, d, s, init) + (if EligibleFor(p, rows, d, s, last) then [last] else [])
  }

  function Eligible(p: Plan, rows: seq<Schedule>, d: Date, s: Shift): seq<Employee> {
    EligibleAmong(p, rows, d, s, p.employees)
  }

  /**
   * One (date, shift) slot: no eligible employee gives a skip; otherwise the
   * first eligible employee gets a new row, unless that employee already has
   * a row on d, which gives a skip without trying anyone else.
   */
  function SlotStep(p: Plan, st: GenState, d: Date, s: Shift): (r: GenState)
    ensures |r.created| + |r.skipped| == |st.created| + |st.skipped| + 1
    ensures |r.rows| - |st.rows| == |r.created| - |st.created| == r.nextId - st.nextId
    // the slot is filled exactly when the first eligible employee has no row on d
    ensures r.rows != st.rows <==>
              Eligible(p, st.rows, d, s) != [] && FindScheduleFor(st.rows, Eligible(p, st.rows, d, s)[0].id, d).None?
    ensures r.rows != st.rows ==>
              var e := Eligible(p, st.rows, d, s)[0];
              && r.rows == st.rows + [Schedule(st.nextId, e.id, Some(s.id), d, s.startTime, s.endTime, 0, false)]
              && r.created == st.created + [CreatedEntry(d, e.name, s.name, s.startTime, s.endTime)]
              && r.skipped == st.skipped
    // otherwise one skip entry dated d says why
    ensures r.rows == st.rows ==>
              && r.created == st.created && r.nextId == st.nextId
              && |r.skipped| == |st.skipped| + 1 && r.skipped[..|st.skipped|] == st.skipped
              && r.skipped[|st.skipped|].date == d
              && r.skipped[|st.skipped|].Reason()
                 == (if Eligible(p, st.rows, d, s) == [] then "No available employees" else "Already scheduled")
              && r.skipped[|st.skipped|]
                 == (if Eligible(p, st.rows, d, s) == [] then NoAvailableEmployees(d, s.name)
                     else AlreadyScheduled(d, Eligible(p, st.rows, d, s)[0].name))
  {
    var avail := Eligible(p, st.rows, d, s);
    if avail == [] then
      st.(skipped := st.skipped + [NoAvailableEmployees(d, s.name)])
    else
      var e := avail[0];
      if FindScheduleFor(st.rows, e.id, d).Some? then
        st.(skipped := st.skipped + [AlreadyScheduled(d, e.name)])
      else
        GenState(
          st.rows + [Schedule(st.nextId, e.id, Some(s.id), d, s.startTime, s.endTime, 0, false)],
          st.nextId + 1,
          st.created + [CreatedEntry(d, e.name, s.name, s.startTime, s.endTime)],
          st.skipped)
  }

  /** The slots of ss on d in order: one summary entry per shift, and one fresh id per row added. */
  function RunShifts(p: Plan, st: GenState, d: Date, ss: seq<Shift>): (r: GenState)
    ensures |r.created| + |r.skipped| == |st.created| + |st.skipped| + |ss|
    ensures |r.rows| - |st.rows| == |r.created| - |st.created| == r.nextId - st.nextId
    decreases |ss|
  {
    if ss == [] then st else RunShifts(p, SlotStep(p, st, d, ss[0]), d, ss[1..])
  }

  /** The summary entries one date produces: its holiday skip, or one per shift template of its weekday. */
  function DayEntries(p: Plan, d: Date): nat {
    if IsHoliday(p.holidays, d, p.location) then 1 else |DayShifts(p.shifts, DayOfWeek(d))|
  }

  /** One date: a holiday records its skip and adds no row; any other date runs its shifts by priority. */
  function RunDay(p: Plan, st: GenState, d: Date): GenState {
    if IsHoliday(p.holidays, d, p.location) then st.(skipped := st.skipped + [HolidaySkip(d)])
    else RunShifts(p, st, d, DayShifts(p.shifts, DayOfWeek(d)))
  }

  /** The state after every date from d to end inclusive; a range with d > end changes nothing. */
  function RunDays(p: Plan, st: GenState, d: Date, end: Date): GenState
    decreases end - d + 1
  {
    if d > end then st else RunDays(p, RunDay(p, st, d), d + 1, end)
  }

  /**
   * The number of summary entries a range produces: one per holiday, one per
   * matching shift otherwise. Counting from the last date gives the same.
   */
  function Entries(p: Plan, d: Date, end: Date): (n: nat)
    ensures d <= end ==> n == Entries(p, d, end - 1) + DayEntries(p, end)
    decreases end - d + 1
  {
    if d > end then 0
    else DayEntries(p, d) + Entries(p, d + 1, end)
  }

  function SummaryOf(st: GenState): Summary {
    Summary(|st.created|, |st.skipped|, st.created, st.skipped)
  }

  // ---------------------------------------------------------------------
  // The scheduler over the database
  // ---------------------------------------------------------------------

  class ShiftScheduler {
    const db: Database

    constructor (db: Database)
      ensures this.db == db
    {
      this.db := db;
    }

    /** Sums the hours of the employee's schedules from the Monday to the Sunday of date's week. */
    method WeeklyScheduledHours(employeeId: Id, date: Date) returns (total: nat)
      ensures total == WeekHours(db.schedules, employeeId, date)
    {
      var weekStart := WeekStart(date);
      var weekEnd := weekStart + 6;
      var rows := db.schedules;
      total := 0;
      var i := 0;
      while i < |rows|
        invariant 0 <= i <= |rows|
        invariant total == HoursInWeek(rows[..i], employeeId, weekStart)
      {
        var s := rows[i];
        if s.employeeId == employeeId && weekStart <= s.date <= weekEnd {
          total := total + Elapsed(s.startTime, s.endTime);
        }
        assert rows[..i + 1][..i] == rows[..i];
        i := i + 1;
      }
      assert rows[..i] == rows;
    }

    /** The employees of p eligible for shift s on d, given the current schedule table. */
    method AvailableEmployees(p: Plan, d: Date, s: Shift) returns (available: seq<Employee>)
      requires p.holidays == db.holidays && p.leaves == db.leaves
      ensures available == Eligible(p, db.schedules, d, s)
    {
      available := [];
      var shiftHours := Elapsed(s.startTime, s.endTime);
      var j := 0;
      while j < |p.employees|
        invariant 0 <= j <= |p.employees|
        invariant available == EligibleAmong(p, db.schedules, d, s, p.employees[..j])
      {
        var e := p.employees[j];
        assert p.employees[..j + 1] == p.employees[..j] + [e];
        if IsAvailable(p.role, db.leaves, e, d, s) {
          var week := WeeklyScheduledHours(e.id, d);
          if WithinWeeklyLimit(p.role.weeklyHoursLimit, week, shiftHours) {
            available := available + [e];
          }
        }
        j := j + 1;
      }
      assert p.employees[..j] == p.employees;
    }

    /** The run's inputs were read from this database: its holiday and leave tables, and employees and shifts it holds. */
    ghost predicate ReadFrom(p: Plan)
      reads db
    {
      && p.holidays == db.holidays && p.leaves == db.leaves
      && (forall e :: e in p.employees ==> HasEmployee(db.employees, e.id))
      && (forall s :: s in p.shifts ==> HasShift(db.shifts, s.id))
    }

    /** One (date, shift) slot, done in place: the table, counter and lists become those SlotStep gives. */
    method FillSlot(p: Plan, d: Date, shift: Shift, created: seq<CreatedEntry>, skipped: seq<SkipEntry>)
      returns (created': seq<CreatedEntry>, skipped': seq<SkipEntry>)
      requires db.Valid() && ReadFrom(p) && HasShift(db.shifts, shift.id)
      modifies db`schedules, db`nextId
      ensures db.Valid()
      ensures GenState(db.schedules, db.nextId, created', skipped')
           == SlotStep(p, GenState(old(db.schedules), old(db.nextId), created, skipped), d, shift)
    {
      created', skipped' := created, skipped;
      var available := AvailableEmployees(p, d, shift);
      if available == [] {
        skipped' := skipped + [NoAvailableEmployees(d, shift.name)];
        return;
      }
      var selected := available[0];
      var existing := FindScheduleFor(db.schedules, selected.id, d);
      if existing.Some? {
        skipped' := skipped + [AlreadyScheduled(d, selected.name)];
        return;
      }
      assert selected in p.employees;
      var row := Schedule(db.nextId, selected.id, Some(shift.id), d, shift.startTime, shift.endTime, 0, false);
      db.schedules := db.schedules + [row];
      db.nextId := db.nextId + 1;
      created' := created + [CreatedEntry(d, selected.name, shift.name, shift.startTime, shift.endTime)];
    }

    /** The shifts of one working date, in the given order: the result is what RunShifts gives. */
    method FillDay(p: Plan, d: Date, dayShifts: seq<Shift>, created: seq<CreatedEntry>, skipped: seq<SkipEntry>)
      returns (created': seq<CreatedEntry>, skipped': seq<SkipEntry>)
      requires db.Valid() && ReadFrom(p)
      requires forall s :: s in dayShifts ==> s in p.shifts
      modifies db`schedules, db`nextId
      ensures db.Valid()
      ensures GenState(db.schedules, db.nextId, created', skipped')
           == RunShifts(p, GenState(old(db.schedules), old(db.nextId), created, skipped), d, dayShifts)
    {
      created', skipped' := created, skipped;
      var i := 0;
      while i < |dayShifts|
        invariant 0 <= i <= |dayShifts|
        invariant db.Valid() && ReadFrom(p)
        invariant RunShifts(p, GenState(db.schedules, db.nextId, created', skipped'), d, dayShifts[i..])
               == RunShifts(p, GenState(old(db.schedules), old(db.nextId), created, skipped), d, dayShifts)
      {
        var shift := dayShifts[i];
        assert dayShifts[i..][0] == shift && dayShifts[i..][1..] == dayShifts[i + 1..];
        created', skipped' := FillSlot(p, d, shift, created', skipped');
        i := i + 1;
      }
    }

    /** Every date of [startDate, endDate] in turn, from empty summary lists: the result is what RunDays gives. */
    method FillDays(p: Plan, startDate: Date, endDate: Date) returns (created: seq<CreatedEntry>, skipped: seq<SkipEntry>)
      requires db.Valid() && ReadFrom(p)
      modifies db`schedules, db`nextId
      ensures db.Valid()
      ensures GenState(db.schedules, db.nextId, created, skipped)
           == RunDays(p, GenState(old(db.schedules), old(db.nextId), [], []), startDate, endDate)
    {
      created, skipped := [], [];
      ghost var fin := RunDays(p, GenState(db.schedules, db.nextId, [], []), startDate, endDate);
      var current := startDate;
      while current <= endDate
        invariant db.Valid() && ReadFrom(p)
        invariant RunDays(p, GenState(db.schedules, db.nextId, created, skipped), current, endDate) == fin
        decreases endDate - current + 1
      {
        ghost var st := GenState(db.schedules, db.nextId, created, skipped);
        assert RunDays(p, st, current, endDate) == RunDays(p, RunDay(p, st, current), current + 1, endDate);
        if IsHoliday(db.holidays, current, p.location) {
          assert RunDay(p, st, current) == st.(skipped := st.skipped + [HolidaySkip(current)]);
          skipped := skipped + [HolidaySkip(current)];
          current := current + 1;
          continue;
        }
        var dayShifts := SortByPriority(ShiftsOnDay(p.shifts, DayOfWeek(current)));
        forall s | s in dayShifts ensures s in p.shifts {
          assert s in multiset(dayShifts);
        }
        assert RunDay(p, st, current) == RunShifts(p, st, current, dayShifts);
        created, skipped := FillDay(p, current, dayShifts, created, skipped);
        current := current + 1;
      }
    }

    /**
     * Generates schedules for the role over [startDate, endDate]. An unknown
     * role, a role without active employees or without shifts gives an error
     * and writes nothing; otherwise the new schedule table, the fresh-id
     * counter and the summary are those RunDays computes from the old table.
     */
    method GenerateSchedule(roleId: Id, startDate: Date, endDate: Date, location: Option<string>)
      returns (r: Result<Summary, string>)
      requires db.Valid()
      modifies db`schedules, db`nextId
      ensures db.Valid()
      ensures var plan := PlanFor(db.roles, db.employees, db.shifts, db.holidays, db.leaves, roleId, location);
        match plan
        case Failure(msg) =>
          r == Failure(msg) && db.schedules == old(db.schedules) && db.nextId == old(db.nextId)
        case Success(p) =>
          var fin := RunDays(p, GenState(old(db.schedules), old(db.nextId), [], []), startDate, endDate);
          && db.schedules == fin.rows && db.nextId == fin.nextId
          && r == Success(SummaryOf(fin))
    {
      var roleIndex := FindRole(db.roles, roleId);
      if roleIndex.None? {
        return Failure("Role not found");
      }
      var role := db.roles[roleIndex.value];
      var employees := ActiveEmployeesOf(db.employees, roleId);
      if employees == [] {
        return Failure("No active employees found for this role");
      }
      var shifts := ShiftsOfRole(db.shifts, roleId);
      if shifts == [] {
        return Failure("No shifts defined for this role");
      }
      var p := Plan(role, employees, shifts, db.holidays, db.leaves, location);
      assert ReadFrom(p) by {
        forall e | e in p.employees ensures HasEmployee(db.employees, e.id) {
          var k :| 0 <= k < |db.employees| && db.employees[k] == e;
        }
        forall s | s in p.shifts ensures HasShift(db.shifts, s.id) {
          var k :| 0 <= k < |db.shifts| && db.shifts[k] == s;
        }
      }

      var created, skipped := FillDays(p, startDate, endDate);
      r := Success(Summary(|created|, |skipped|, created, skipped));
    }
  }
}
