# Workforce scheduling: shift generator and attendance ledger

This project models the core of a workforce-scheduling back end. It has two
sequential components that work on a small set of tables.

- **The greedy shift generator** (`ShiftScheduler.generate_schedule`). It
  walks a date range one day at a time.
  - A holiday date is skipped whole.
  - On any other date it takes the role's shift templates for that ISO
    weekday, highest priority first.
  - Each template goes to the first active employee of the role who passes
    every filter: no approved leave, a work day of the role, not marked
    unavailable that weekday, every required skill, and the Monday-to-Sunday
    weekly hour cap.
  - The slot is skipped instead when that employee already has a schedule
    that day.
  - The run returns the created and skipped summaries.
- **The attendance and approval ledger** (the state-changing request
  handlers).
  - Manual schedule creation and deletion, and soft deactivation of
    employees.
  - Clock-in and clock-out over the per-(employee, date) attendance record,
    with overnight wrap.
  - Overtime and leave requests, and their approval with its side effects: a
    comp-off leave seven days later, the monthly overtime counter, and the
    paid-leave counter.

Files:

- `models.dfy`: the rows of every table, the enumerated values the check
  constraints admit (with text parsers), the unique constraints, and
  first-row lookups. It also holds the `Option`/`Result` wrappers.
- `calendar.dfy`: ISO weekdays, the Monday of a date's week, and clock
  durations with overnight wrap.
- `database.dfy`: the `Database` class holding the tables, and `Valid()`,
  the constraints on the tables the handlers and the generator write or
  refer to. These are:
  - the weekday check on shifts;
  - the unique keys on holidays, schedules, attendance, overtime and leave;
  - the foreign keys from those rows to employees, shifts and overtime;
  - identifiers below the next one to issue.
- `scheduler.dfy`: the eligibility filters and the stable priority sort.
  A pure fold (`SlotStep`, `RunShifts`, `RunDay`, `RunDays`) states what a
  run computes. The class `ShiftScheduler` does the same with loops on the
  database, and is proved to leave exactly the fold's result.
- `generation_proofs.dfy`: what a run guarantees, proved about the fold.
- `ledger.dfy`: the request handlers as methods on a `Database`.

Units and representation:

- A date is a proleptic Gregorian day ordinal; day 1 (0001-01-01) is a
  Monday.
- A time of day is a whole number of seconds after midnight, in
  [0, 86400).
- Every hour quantity (worked, overtime, limits, counters) is a whole number
  of seconds.
- Row identifiers are drawn from a counter (`nextId`) instead of random
  UUIDs.
- The clock reading of clock-in and clock-out is a parameter.

Behaviour follows the code, not a stricter policy:

- Approvals do not check that a request is still PENDING, so approving again
  repeats the side effects. For a COMP_OFF overtime the second approval is
  refused: the first approval's leave already holds the (employee, date)
  key seven days later.
- Paid leave is not checked against the yearly allowance.
- Clock-in does not look at approved leave.
- An EXTRA_PAY approval that states its hours fails with a server error when
  the employee's monthly overtime counter is not zero. The request's hours
  are a float and the stored counter is a fixed-point decimal, and adding
  the two raises a type error. Nothing is committed. A zero counter, or hours
  taken from the request's actual hours, add cleanly.
- No overtime is classified as NIGHT or HOLIDAY automatically.

Modelling assumptions:

- A status or type text that the check constraint rejects, an unknown
  foreign key, or a duplicate unique key fails at commit. The model reports
  it as `IntegrityError` and changes nothing.
- Within one generation run, rows added earlier are visible to later
  queries (the session flushes before each query).
- Query results come back in table order.

## Model

| member | source | states |
|---|---|---|
| Models.ParseApprovalStatus | models.py:156 | Accepts exactly PENDING, APPROVED and REJECTED, and a parsed status prints back as the same text. |
| Models.ParseOvertimeType | models.py:154 | Accepts exactly NORMAL, NIGHT and HOLIDAY; the parse inverts the printed form. |
| Models.ParseCompensationMode | models.py:155 | Accepts exactly EXTRA_PAY and COMP_OFF; the parse inverts the printed form. |
| Models.ParseLeaveType | models.py:170 | Accepts exactly PAID, UNPAID and COMP_OFF; the parse inverts the printed form. |
| Models.ParseLeaveDuration | models.py:172 | Accepts exactly FULL_DAY and HALF_DAY; the parse inverts the printed form. |
| Models.ShiftDaysInRange | models.py:61 | Definition: every shift's weekday is null or in 1..7. Part of Store.Database.Valid, which every handler and GenerateSchedule keep. |
| Models.HolidayKeysUnique | models.py:106 | Definition: no two holidays share a date and a non-null location; null locations never collide. Part of Store.Database.Valid. |
| Models.ScheduleKeysUnique | models.py:121 | Definition: no two schedule rows share an (employee, date). Part of Store.Database.Valid; RowsGrowKeepsUnique and GenerationSound prove generation keeps it, and CreateSchedule's BadRequest guard keeps it for manual rows. |
| Models.AttendanceKeysUnique | models.py:141 | Definition: no two attendance rows share an (employee, date). Part of Store.Database.Valid, kept by ClockIn. |
| Models.OvertimeKeysUnique | models.py:159 | Definition: no two overtime rows share an (employee, date, type). Part of Store.Database.Valid; RequestOvertime fails exactly when a request would break it. |
| Models.LeaveKeysUnique | models.py:178 | Definition: no two leave rows share an (employee, date). Part of Store.Database.Valid; RequestLeave's guard and DecideOvertime's refused comp-off leave keep it. |
| Models.FindRole | scheduler.py:119 | Returns the first row with the id, or reports that no row has it. |
| Models.FindEmployee | main.py:828-831 | Returns the first employee row with the id, or reports that none has it. |
| Models.FindSchedule | main.py:966-969 | Returns the first schedule row with the id, or reports that none has it. |
| Models.FindOvertime | main.py:1071-1074 | Returns the first overtime row with the id, or reports that none has it. |
| Models.FindLeave | main.py:1153-1156 | Returns the first leave row with the id, or reports that none has it. |
| Models.FindScheduleFor | main.py:907-910 | Returns a schedule row of the (employee, date), or reports that none exists. |
| Models.FindAttendanceFor | main.py:1282-1285 | Returns an attendance row of the (employee, date), or reports that none exists. |
| Models.FindLeaveFor | main.py:1505-1508 | Returns a leave row of the (employee, date) of any status, or reports that none exists. |
| Models.FindOvertimeFor | models.py:159 | Returns an overtime row with the (employee, date, type) key, or reports that none exists. |
| Store.ScheduleRefsValid | models.py:113-114 | Definition: every schedule row refers to an existing employee and, when it has one, an existing shift, and its id was issued. Part of Store.Database.Valid. |
| Store.AttendanceRefsValid | models.py:131 | Definition: every attendance row refers to an existing employee, and its id was issued. Part of Store.Database.Valid. |
| Store.OvertimeRefsValid | models.py:150 | Definition: every overtime row refers to an existing employee, and its id was issued. Part of Store.Database.Valid. |
| Store.LeaveRefsValid | models.py:169-175 | Definition: every leave row refers to an existing employee and, when it has one, an existing source overtime, and its id was issued. Part of Store.Database.Valid. |
| Store.Database.Valid | models.py:55-178 | Definition: the shift weekday check, the five unique keys, and the foreign keys from schedules, attendance, overtime and leave. Every handler in Ledger and every ShiftScheduler method that writes ensures db.Valid(). |
| Calendar.DayOfWeek | scheduler.py:19-21 | The ISO weekday of a date lies in 1..7. |
| Calendar.DayOfWeekSteps | scheduler.py:19-21 | Day 1 is a Monday (1); the next day advances the weekday, with Sunday (7) wrapping to Monday; seven days later is the same weekday. |
| Calendar.DayName | scheduler.py:50 | The day label matched against the role's work days is the abbreviated name of the date's weekday ("Mon" for 1, "Sun" for 7). |
| Calendar.WeekStart | scheduler.py:85-86 | Returns a Monday m with m <= d <= m + 6, so d lies in the week from m to the Sunday m + 6. |
| Calendar.SameWeek | scheduler.py:85-86 | Every date between a week's Monday and Sunday has that same Monday as its week start. |
| Calendar.Elapsed | scheduler.py:71-81 | The duration from start to end is below one day, carries start to end on the 24-hour clock, and is zero exactly when the times are equal. |
| Calendar.ElapsedUnique | scheduler.py:71-81 | No other duration below one day carries start to end. |
| Scheduler.IsHoliday | scheduler.py:23-28 | Definition: some holiday row has the date and, for a non-empty location, that location or none. RunDaysOnHoliday states what a run does on such a date. |
| Scheduler.HasLeave | scheduler.py:30-37 | Definition: the employee has a leave of any type with status APPROVED on the date. It is one of the filters in EligibleAmong. |
| Scheduler.IsAvailable | scheduler.py:39-69 | Definition: every filter except the weekly cap, in the order the code checks them. These are: active; no approved leave; a work day of the role when the role lists any; not marked unavailable that weekday; every required skill. Used by EligibleAmong and SlotStepGrows. |
| Scheduler.HoursInWeek | scheduler.py:83-98 | Definition: the sum of the durations of the employee's rows dated in the week. HoursInWeekAppend and WeeklyScheduledHours state its properties. |
| Scheduler.HoursInWeekAppend | scheduler.py:88-98 | The week's hours add up over any split of the table, so each row counts once wherever it stands. |
| Scheduler.WeekHours | scheduler.py:85-86 | Definition: HoursInWeek for the week that holds the date. RowsGrowWeeklyCap and GenerationRespectsWeeklyCap state the cap in its terms. |
| Scheduler.WithinWeeklyLimit | scheduler.py:166-171 | Definition: no limit or a zero limit admits everything; otherwise the week's hours plus the shift's must fit. JustifiedRowWithinLimit and RowsGrowWeeklyCap state its effect. |
| Scheduler.ActiveEmployeesOf | scheduler.py:124-127 | Holds exactly the active employees of the role. |
| Scheduler.ActiveEmployeesOfAppend | scheduler.py:124-127 | Filtering distributes over concatenation, so the active employees keep table order; the first-eligible pick depends on this. |
| Scheduler.ShiftsOfRole | scheduler.py:133 | Holds exactly the shift templates of the role. |
| Scheduler.ShiftsOfRoleAppend | scheduler.py:133 | Filtering distributes over concatenation, so the role's templates keep table order. |
| Scheduler.ShiftsOnDay | scheduler.py:154 | Holds exactly the templates whose weekday equals the given one; a null weekday never matches. |
| Scheduler.ShiftsOnDayAppend | scheduler.py:154 | Filtering distributes over concatenation, so the day's templates keep table order. That order decides ties after the stable sort. |
| Scheduler.InsertByPriority | scheduler.py:157 | Inserting a shift adds exactly that shift (multiset) and puts it or the old head first. |
| Scheduler.InsertKeepsSorted | scheduler.py:157 | Insertion keeps a sequence sorted by descending priority, with null counted as 0. |
| Scheduler.InsertWithPriority | scheduler.py:157 | Insertion places the new shift ahead of the shifts of its own priority and leaves their order alone. |
| Scheduler.PriorityKey | scheduler.py:157 | Definition: a shift's priority, with null counted as 0. SortByPriority orders by it. |
| Scheduler.DayShifts | scheduler.py:153-157 | Definition: the templates of the weekday sorted by SortByPriority. RunDay visits them in this order, and FillDays computes the same list. |
| Scheduler.SortByPriority | scheduler.py:157 | The day's shifts come out sorted by descending priority (null as 0), as a permutation of the input, with each priority class in input order (stable). |
| Scheduler.EligibleFor | scheduler.py:161-171 | Definition: IsAvailable and WithinWeeklyLimit against the employee's week hours in the rows so far. EligibleAmong, FirstEligibleAmong, Fills and JustifiedRowWithinLimit are stated in its terms. |
| Scheduler.Eligible | scheduler.py:161-172 | Definition: EligibleAmong over the plan's employees. SlotStep picks its head, and AvailableEmployees is proved to compute it. |
| Scheduler.EligibleAmong | scheduler.py:161-172 | An employee is in the list exactly when it is a candidate and passes the availability filters and the weekly cap against the rows so far. |
| Scheduler.PlanFor | scheduler.py:118-136 | An unknown role gives "Role not found". A role without active employees gives "No active employees found for this role". A role without shifts gives "No shifts defined for this role". Otherwise the plan holds the first row with that id, the role's active employees and its shifts, each in table order, and the holiday and leave tables. |
| Scheduler.SlotStep | scheduler.py:159-218 | A slot adds exactly one summary entry. It adds a row exactly when some employee is eligible and the first eligible one has no row on the date. That row goes to that employee with the shift's times, with a created entry and a fresh id. Otherwise no row is added, and one skip entry dated that day records why: "No available employees" with the shift's name, or "Already scheduled" with the first eligible employee's name. |
| Scheduler.RunShifts | scheduler.py:159-218 | The slots of one date in the given order: one summary entry per shift, and the created count and id counter grow with the rows. |
| Scheduler.DayEntries | scheduler.py:143-218 | Definition: a holiday gives one entry, any other date one per template of its weekday. RunDayEntries states that a date adds exactly this many. |
| Scheduler.RunDay | scheduler.py:143-218 | Definition: a holiday records its skip; any other date runs its templates by priority. RunDayGrows, RunDayEntries and RunDayOtherDate state its properties. |
| Scheduler.RunDays | scheduler.py:141-220 | Definition: each date from start to end in turn. GenerationSound collects its properties, and FillDays is proved to compute it. |
| Scheduler.Entries | scheduler.py:225-230 | The number of summary entries of a range; counting from the last date gives the same number as counting from the first. |
| Scheduler.SummaryOf | scheduler.py:225-230 | Definition: the created and skipped counts with both lists. GenerateSchedule returns it for the final state of RunDays. |
| Scheduler.ShiftScheduler.WeeklyScheduledHours | scheduler.py:83-98 | The loop total equals the sum of the durations of the employee's rows dated from the Monday to the Sunday of the date's week. |
| Scheduler.ShiftScheduler.AvailableEmployees | scheduler.py:161-172 | The two filtering passes return exactly the eligible employees, in order. |
| Scheduler.ShiftScheduler.FillSlot | scheduler.py:159-218 | One slot on the database leaves the tables valid and equal to SlotStep. |
| Scheduler.ShiftScheduler.FillDay | scheduler.py:152-218 | The loop over a day's shifts leaves the tables valid and equal to RunShifts. |
| Scheduler.ShiftScheduler.FillDays | scheduler.py:141-220 | The loop over dates leaves the tables valid and equal to RunDays. |
| Scheduler.ShiftScheduler.GenerateSchedule | scheduler.py:100-230 | An unknown role, no active employees, or no shifts gives the matching error and writes nothing. Otherwise the schedule table, the id counter and the summary are those RunDays computes, and the table stays valid. |
| GenerationProofs.RowsGrowTrans | scheduler.py:141-220 | Consecutive phases of a run compose: rows kept, new rows justified, dates within the union of the ranges. |
| GenerationProofs.SlotStepGrows | scheduler.py:159-218 | A row added for a slot is justified. Its shift is a template of the role for that weekday, and the date is no holiday. Its employee is a role member who passes every filter against the earlier rows and had no row that day. The row copies the shift's times, and the created count and id counter grow with it. |
| GenerationProofs.RunShiftsGrows | scheduler.py:159-218 | Every row a day's shift loop adds is justified and dated that day. |
| GenerationProofs.RunDayGrows | scheduler.py:143-218 | A date adds only justified rows dated that day; a holiday adds none. |
| GenerationProofs.RunDaysGrows | scheduler.py:141-220 | A whole run keeps the old rows. Every added row is dated in the range and justified, and the created count and id counter grow by the rows added. |
| GenerationProofs.RowsGrowKeepsUnique | scheduler.py:186-198 | Generation never adds a second row for an (employee, date). |
| GenerationProofs.RowsGrowDropLast | scheduler.py:141-220 | Dropping the last added row keeps the growth relation. |
| GenerationProofs.JustifiedRowWithinLimit | scheduler.py:166-171 | A generated row in an employee's week leaves that week within a non-zero limit, counted against the rows before it. |
| GenerationProofs.RowsGrowWeeklyCap | scheduler.py:166-172 | With a non-zero weekly limit, a week that gained rows ends at or below the limit. |
| GenerationProofs.FirstEligibleAmong | scheduler.py:184 | The head of the eligible list is eligible, and every employee listed before it is not. |
| GenerationProofs.SlotStepPicksFirstEligible | scheduler.py:184-198 | A slot that adds a row gives it to the first eligible employee in list order. |
| GenerationProofs.RunDayEntries | scheduler.py:143-218 | One date adds exactly DayEntries summary entries. |
| GenerationProofs.RunDaysEntries | scheduler.py:141-220 | A run adds one entry per holiday date and one per matching shift on other dates. |
| GenerationProofs.SkippedOn | scheduler.py:145-197 | The skip entries dated h are exactly the entries with that date. |
| GenerationProofs.CreatedOn | scheduler.py:212-218 | The created entries dated h are exactly the entries with that date. |
| GenerationProofs.SkippedOnAppend | scheduler.py:145-197 | Appending an entry extends the dated view only when the entry carries that date. |
| GenerationProofs.CreatedOnAppend | scheduler.py:212-218 | Appending an entry extends the dated view only when the entry carries that date. |
| GenerationProofs.SlotStepOtherDate | scheduler.py:174-218 | A slot of date d records nothing under any other date. |
| GenerationProofs.RunShiftsOtherDate | scheduler.py:159-218 | A day's shift loop records nothing under any other date. |
| GenerationProofs.RunDayOtherDate | scheduler.py:143-218 | Processing one date records nothing under any other date. |
| GenerationProofs.RunDaysBeforeRange | scheduler.py:141-220 | A run records nothing under a date before its range. |
| GenerationProofs.RunDaysAfterRange | scheduler.py:141-220 | A run records nothing under a date after its range. |
| GenerationProofs.RunDaysSplit | scheduler.py:141-142 | A run over a range equals the run over a prefix of it followed by the run over the rest. |
| GenerationProofs.NoRowsOnHoliday | scheduler.py:143-150 | Generation adds no row on a holiday date. |
| GenerationProofs.HolidayEntriesFrom | scheduler.py:143-150 | A run starting on a holiday records that holiday's skip and nothing else under that date. |
| GenerationProofs.RunDaysHolidayEntries | scheduler.py:141-150 | Within a range, a holiday date gains exactly one skip entry, the holiday skip, and no created entry. |
| GenerationProofs.RunDaysOnHoliday | scheduler.py:23-28 | A holiday in the range gets exactly one skip entry, whose reason is "Holiday", no created entry and no schedule row. |
| GenerationProofs.GenerationSound | scheduler.py:141-230 | A run from a table with unique (employee, date) keys gives all of the following. Old rows are kept. Added rows are dated in range and justified. Keys stay unique. The created count and id counter equal the rows added. Created plus skipped equals one per holiday plus one per matching shift. An empty range changes nothing. |
| GenerationProofs.GenerationRespectsWeeklyCap | scheduler.py:166-172 | With a non-zero weekly limit, after a run no employee week exceeds the limit unless it already did and gained no row. |
| Ledger.ScheduledLength | main.py:1349-1357 | The planned window exists exactly when both scheduled times do, is below one day, and carries the start to the end (overnight wrap). |
| Ledger.CloseAttendance | main.py:1333-1360 | Clock-out sets the clock-out time. Worked time is the duration below one day from clock-in to now, zero only when the times are equal. Overtime becomes a positive worked minus planned when worked exceeds the planned window, and otherwise keeps its value. Nothing else changes. |
| Ledger.WorkedTimeIsElapsed | main.py:1336-1346 | The recorded worked time is the only duration below one day from clock-in to clock-out. |
| Ledger.PaidLeaveIncrement | main.py:1166 | A full day adds two half days; any other duration adds one. |
| Ledger.EmployeeRefsKept | models.py:113 | Keeping employee ids in place keeps every employee reference resolvable. |
| Ledger.OvertimeRefsKept | models.py:175 | Keeping overtime ids in place keeps every comp-off source reference resolvable. |
| Ledger.RecordOvertimeDecision | main.py:1079-1083 | Writes the decided overtime row in place and keeps the tables valid. |
| Ledger.AddCompOffLeave | main.py:1085-1098 | Adds the approved full-day COMP_OFF leave dated overtime date + 7, with the source overtime id and a fresh id. |
| Ledger.UpdateEmployee | main.py:1100-1103 | Rewrites one employee row without changing its id; the tables stay valid. |
| Ledger.GrantCompOff | main.py:1079-1098 | An approval with COMP_OFF writes the decision and appends the comp-off leave. |
| Ledger.CreditExtraPay | main.py:1100-1103 | An approval with EXTRA_PAY writes the decision and adds the approved hours to that employee's monthly overtime used. |
| Ledger.OvertimeDecided | main.py:1079-1105 | Definition of an overtime decision. The status and approved hours are written on the row. APPROVED with COMP_OFF appends the comp-off leave at date + 7, or is refused whole with IntegrityError when that date has a leave. APPROVED with EXTRA_PAY adds the hours to the employee's counter. Otherwise nothing else changes. DecideOvertime and ApproveOvertime ensure it. |
| Ledger.DecideOvertime | main.py:1079-1105 | Writes the status and approved hours on the row. APPROVED with COMP_OFF adds one comp-off leave at date + 7, or fails with IntegrityError and no change when that date already has a leave. APPROVED with EXTRA_PAY adds the hours to the employee's counter. Otherwise nothing else changes. |
| Ledger.ExtraPayTypeClash | main.py:1100-1103 | Definition: an EXTRA_PAY approval with hours given in the request, for an employee whose counter is not zero. ApproveOvertime fails on exactly this case. |
| Ledger.ApproveOvertime | main.py:1060-1107 | Unknown request: NotFound "Overtime request not found", no change. Unknown status text: IntegrityError, no change. An EXTRA_PAY approval with given hours and a non-zero counter: ServerError, no change. Otherwise the approved hours are the given ones, else the actual ones, and the effect is DecideOvertime's, whatever the current status. |
| Ledger.CreateSchedule | main.py:888-929 | Unknown employee: NotFound "Employee not found". A row already on that (employee, date): BadRequest "Schedule already exists for this date". Unknown shift: IntegrityError. It succeeds exactly when none of these applies. Each failure changes nothing. A success appends exactly one row with the given fields and a fresh id. |
| Ledger.DeleteSchedule | main.py:956-977 | Unknown id: NotFound "Schedule not found", no change. Otherwise exactly that row is removed, leaving the (employee, date) slot free. |
| Ledger.DeleteEmployee | main.py:818-840 | Unknown id: NotFound, no change. Otherwise only the employee's active flag is cleared; the row stays. |
| Ledger.ClockIn | main.py:1260-1308 | No schedule for the (employee, date): NotFound, no change. A record with a clock-in: BadRequest "Already clocked in", no change. A record without one gets the clock-in time. No record: one PRESENT record is created with the scheduled window copied from the schedule. |
| Ledger.ClockOut | main.py:1310-1369 | No record or no clock-in: BadRequest "Must clock in first". A clock-out already set: BadRequest "Already clocked out", so clock-out is written at most once. Failures change nothing. Otherwise the record becomes CloseAttendance of it, and the reply carries now, the worked time and the overtime. |
| Ledger.RequestOvertime | main.py:1438-1463 | Fails exactly when the employee is unknown, a text is not an admitted value, or the (employee, date, type) key exists. A failure is IntegrityError and changes nothing. Otherwise one PENDING request is appended with no approved hours. |
| Ledger.RequestLeave | main.py:1492-1526 | A leave of any status already on that (employee, date): BadRequest "Leave already requested for this date". Unknown employee or text: IntegrityError. It succeeds exactly when none of these applies. Failures change nothing. A success appends one PENDING leave with the stated reason. |
| Ledger.ApproveLeave | main.py:1142-1171 | Unknown leave: NotFound "Leave request not found". Unknown status text: IntegrityError. Failures change nothing. Otherwise the status is written whatever the current one. Only APPROVED with PAID changes the employee: paid leave used rises by a full or a half day. |

## Left out

- HTTP and authorization: routing, logins, and the user-type,
  "only for yourself" and department-scoping checks of every handler. A
  request for a row of another department answers NotFound in the source;
  the model answers NotFound only for an unknown id.
- Create, update and read endpoints other than those modelled: departments,
  managers, roles, shifts, employees, holidays, and every list projection.
  They are plain data entry and formatting.
- Session mechanics (query, commit, refresh) are replaced by in-memory
  tables. The session factory (`database.py`) is not part of this model.
- Column timestamps (`created_at`) are not modelled.
- `Valid()` leaves out constraints that no modelled operation can break:
  - the foreign keys from shifts and employees to roles;
  - primary-key uniqueness, which fresh identifiers keep;
  - the unique employee username.
- Floating point and `Numeric(4,2)`: hours are whole seconds. Neither the
  rounding to two decimals nor the overflow above 99.99 hours is modelled.
- Clock precision: times are whole seconds. Sub-second parts of the clock
  and the "%H:%M" parsing of manual schedule times are not modelled; times
  arrive already parsed.
- Ledger.PaidLeaveIncrement: `yearly_paid_leave_used` is an integer column
  that the code raises by 0.5 for a half day. The model counts half days
  (a full day is 2), so it does not reproduce how the database stores the
  fractional value.
- Scheduler.IsAvailable: the JSON availability object is read as a map from
  ISO weekday to an optional boolean "available". Keys that are not weekday
  numbers, and "available" values that are not booleans (such as null,
  which the code treats as unavailable), are not modelled.
- `DayName` uses a fixed English table in place of the locale-dependent
  `strftime('%a')`.
- A `None` passed explicitly for the overtime hours or the custom flag of a
  manual schedule is not modelled; the model takes an integer and a
  boolean.
- The order in which the database returns rows is taken to be table order.
  Rows updated in place keep their position.
- Date arithmetic overflow at the end of the calendar (year 9999) is not
  modelled.
