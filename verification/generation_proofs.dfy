/**
 * What a generation run guarantees, proved about the function RunDays that
 * ShiftScheduler.GenerateSchedule is proved to compute:
 *  - every row it adds comes from a shift of the role for that weekday on a
 *    non-holiday date, given to an employee of the role who passed every
 *    eligibility filter against the rows before it and had no row that day;
 *  - the employee given a slot is the first eligible one in list order;
 *  - (employee, date) stays unique, and no Monday-to-Sunday week of an
 *    employee is pushed above the role's weekly limit;
 *  - each holiday contributes one summary entry, each other date one entry
 *    per matching shift, and the created count equals the rows added.
 */
module GenerationProofs {
  import opened Wrappers
  import opened Models
  import opened Calendar
  import opened Scheduler

  /** row is the schedule the generator writes when it gives shift s to employee e, given the earlier rows prefix. */
  predicate Fills(p: Plan, prefix: seq<Schedule>, row: Schedule, s: Shift, e: Employee) {
    && s in p.shifts && e in p.employees
    && !IsHoliday(p.holidays, row.date, p.location)
    && s.dayOfWeek == Some(DayOfWeek(row.date))
    && row.employeeId == e.id && row.shiftId == Some(s.id)
    && row.startTime == s.startTime && row.endTime == s.endTime
    && row.overtimeHours == 0 && !row.isCustom
    && EligibleFor(p, prefix, row.date, s, e)
    && FindScheduleFor(prefix, e.id, row.date).None?
  }

  ghost predicate Justified(p: Plan, prefix: seq<Schedule>, row: Schedule) {
    exists s, e :: Fills(p, prefix, row, s, e)
  }

  /** rows extends base, and every added row is dated in [lo, hi] and justified by the rows before it. */
  ghost predicate RowsGrow(p: Plan, base: seq<Schedule>, rows: seq<Schedule>, lo: Date, hi: Date) {
    && |base| <= |rows| && rows[..|base|] == base
    && forall k :: |base| <= k < |rows| ==> lo <= rows[k].date <= hi && Justified(p, rows[..k], rows[k])
  }

  ghost predicate Grows(p: Plan, a: GenState, b: GenState, lo: Date, hi: Date) {
    && RowsGrow(p, a.rows, b.rows, lo, hi)
    && |b.rows| - |a.rows| == |b.created| - |a.created| == b.nextId - a.nextId
  }

  lemma RowsGrowTrans(p: Plan, a: seq<Schedule>, b: seq<Schedule>, c: seq<Schedule>,
                      lo1: Date, hi1: Date, lo2: Date, hi2: Date, lo: Date, hi: Date)
    requires RowsGrow(p, a, b, lo1, hi1) && RowsGrow(p, b, c, lo2, hi2)
    requires lo <= lo1 && hi1 <= hi && lo <= lo2 && hi2 <= hi
    ensures RowsGrow(p, a, c, lo, hi)
  {
    assert c[..|a|] == b[..|a|];
    forall k | |a| <= k < |c| ensures lo <= c[k].date <= hi && Justified(p, c[..k], c[k]) {
      if k < |b| {
        assert c[..k] == b[..k] && c[k] == b[k];
      }
    }
  }

  lemma {:induction false} SlotStepGrows(p: Plan, st: GenState, d: Date, s: Shift)
    requires s in p.shifts && s.dayOfWeek == Some(DayOfWeek(d))
    requires !IsHoliday(p.holidays, d, p.location)
    ensures Grows(p, st, SlotStep(p, st, d, s), d, d)
  {
    var r := SlotStep(p, st, d, s);
    if r.rows != st.rows {
      var e := Eligible(p, st.rows, d, s)[0];
      assert e in Eligible(p, st.rows, d, s);
      var n := |st.rows|;
      assert r.rows[..n] == st.rows;
      assert Fills(p, r.rows[..n], r.rows[n], s, e);
    }
  }

  lemma {:induction false} RunShiftsGrows(p: Plan, st: GenState, d: Date, ss: seq<Shift>)
    requires forall s :: s in ss ==> s in p.shifts && s.dayOfWeek == Some(DayOfWeek(d))
    requires !IsHoliday(p.holidays, d, p.location)
    ensures Grows(p, st, RunShifts(p, st, d, ss), d, d)
    decreases |ss|
  {
    if ss != [] {
      var mid := SlotStep(p, st, d, ss[0]);
      SlotStepGrows(p, st, d, ss[0]);
      RunShiftsGrows(p, mid, d, ss[1..]);
      RowsGrowTrans(p, st.rows, mid.rows, RunShifts(p, mid, d, ss[1..]).rows, d, d, d, d, d, d);
    }
  }

  lemma RunDayGrows(p: Plan, st: GenState, d: Date)
    ensures Grows(p, st, RunDay(p, st, d), d, d)
  {
    if !IsHoliday(p.holidays, d, p.location) {
      var ss := DayShifts(p.shifts, DayOfWeek(d));
      forall s | s in ss ensures s in p.shifts && s.dayOfWeek == Some(DayOfWeek(d)) {
        assert s in multiset(ss);
      }
      RunShiftsGrows(p, st, d, ss);
    }
  }

  lemma {:induction false} RunDaysGrows(p: Plan, st: GenState, d: Date, end: Date)
    ensures Grows(p, st, RunDays(p, st, d, end), d, end)
    decreases end - d + 1
  {
    if d <= end {
      var mid := RunDay(p, st, d);
      RunDayGrows(p, st, d);
      RunDaysGrows(p, mid, d + 1, end);
      RowsGrowTrans(p, st.rows, mid.rows, RunDays(p, mid, d + 1, end).rows, d, d, d + 1, end, d, end);
    }
  }

  /** Generation never adds a second row for an (employee, date). */
  lemma RowsGrowKeepsUnique(p: Plan, base: seq<Schedule>, rows: seq<Schedule>, lo: Date, hi: Date)
    requires RowsGrow(p, base, rows, lo, hi) && ScheduleKeysUnique(base)
    ensures ScheduleKeysUnique(rows)
  {
    forall i, j | 0 <= i < j < |rows|
      ensures rows[i].employeeId != rows[j].employeeId || rows[i].date != rows[j].date
    {
      if j < |base| {
        assert rows[i] == rows[..|base|][i] && rows[j] == rows[..|base|][j];
      } else {
        assert Justified(p, rows[..j], rows[j]);
        var s, e :| Fills(p, rows[..j], rows[j], s, e);
        assert rows[..j][i] == rows[i];
      }
    }
  }

  lemma RowsGrowDropLast(p: Plan, base: seq<Schedule>, rows: seq<Schedule>, lo: Date, hi: Date)
    requires RowsGrow(p, base, rows, lo, hi) && |base| < |rows|
    ensures RowsGrow(p, base, rows[..|rows| - 1], lo, hi)
  {
    var init := rows[..|rows| - 1];
    assert init[..|base|] == base;
    forall k | |base| <= k < |init| ensures lo <= init[k].date <= hi && Justified(p, init[..k], init[k]) {
      assert init[..k] == rows[..k] && init[k] == rows[k];
    }
  }

  /** A generated row in an employee's week keeps that week within a non-zero limit, counted against the rows before it. */
  lemma JustifiedRowWithinLimit(p: Plan, init: seq<Schedule>, row: Schedule, employeeId: Id, x: Date)
    requires Justified(p, init, row)
    requires p.role.weeklyHoursLimit.Some? && p.role.weeklyHoursLimit.value != 0
    requires row.employeeId == employeeId && WeekStart(x) <= row.date <= WeekStart(x) + 6
    ensures WeekHours(init, employeeId, x) + Contribution(row, employeeId, WeekStart(x)) <= p.role.weeklyHoursLimit.value
  {
    var s, e :| Fills(p, init, row, s, e);
    SameWeek(row.date, x);
    assert WeekHours(init, e.id, row.date) == WeekHours(init, employeeId, x);
  }

  /**
   * With a weekly limit in force, a week of an employee that generation
   * touches ends at or below the limit; any other week keeps its hours.
   */
  lemma {:induction false} RowsGrowWeeklyCap(p: Plan, base: seq<Schedule>, rows: seq<Schedule>, lo: Date, hi: Date,
                                             employeeId: Id, x: Date)
    requires RowsGrow(p, base, rows, lo, hi)
    requires p.role.weeklyHoursLimit.Some? && p.role.weeklyHoursLimit.value != 0
    ensures WeekHours(rows, employeeId, x) == WeekHours(base, employeeId, x)
         || WeekHours(rows, employeeId, x) <= p.role.weeklyHoursLimit.value
    decreases |rows|
  {
    if |rows| == |base| {
      assert rows == rows[..|base|];
    } else {
      var n := |rows| - 1;
      var init := rows[..n];
      RowsGrowDropLast(p, base, rows, lo, hi);
      RowsGrowWeeklyCap(p, base, init, lo, hi, employeeId, x);
      var row := rows[n];
      var ws := WeekStart(x);
      assert WeekHours(rows, employeeId, x) == WeekHours(init, employeeId, x) + Contribution(row, employeeId, ws);
      if row.employeeId == employeeId && ws <= row.date <= ws + 6 {
        assert Justified(p, init, row);
        JustifiedRowWithinLimit(p, init, row, employeeId, x);
      }
    }
  }

  /** The employee a non-empty Eligible list starts with is the first eligible one in list order. */
  lemma {:induction false} FirstEligibleAmong(p: Plan, rows: seq<Schedule>, d: Date, s: Shift, es: seq<Employee>)
    requires EligibleAmong(p, rows, d, s, es) != []
    ensures exists i :: (0 <= i < |es| && es[i] == EligibleAmong(p, rows, d, s, es)[0]
                         && EligibleFor(p, rows, d, s, es[i])
                         && forall j :: 0 <= j < i ==> !EligibleFor(p, rows, d, s, es[j]))
    decreases |es|
  {
    var n := |es| - 1;
    var init := es[..n];
    var found := EligibleAmong(p, rows, d, s, init);
    assert EligibleAmong(p, rows, d, s, es) == found + (if EligibleFor(p, rows, d, s, es[n]) then [es[n]] else []);
    if found != [] {
      FirstEligibleAmong(p, rows, d, s, init);
      var i :| 0 <= i < |init| && init[i] == found[0]
        && EligibleFor(p, rows, d, s, init[i])
        && forall j :: 0 <= j < i ==> !EligibleFor(p, rows, d, s, init[j]);
      assert es[i] == init[i];
      assert forall j :: 0 <= j < i ==> es[j] == init[j];
    } else {
      forall j | 0 <= j < n ensures !EligibleFor(p, rows, d, s, es[j]) {
        assert es[j] == init[j];
        assert init[j] in init;
      }
      assert EligibleFor(p, rows, d, s, es[n]);
    }
  }

  /**
   * When a slot adds a row, its employee is eligible and every employee
   * listed before it is not.
   */
  lemma SlotStepPicksFirstEligible(p: Plan, st: GenState, d: Date, s: Shift)
    requires SlotStep(p, st, d, s).rows != st.rows
    ensures var r := SlotStep(p, st, d, s);
      |r.rows| == |st.rows| + 1
      && exists i :: (0 <= i < |p.employees| && p.employees[i].id == r.rows[|st.rows|].employeeId
                      && EligibleFor(p, st.rows, d, s, p.employees[i])
                      && forall j :: 0 <= j < i ==> !EligibleFor(p, st.rows, d, s, p.employees[j]))
  {
    FirstEligibleAmong(p, st.rows, d, s, p.employees);
  }

  /** A date adds its DayEntries to the summary. */
  lemma RunDayEntries(p: Plan, st: GenState, d: Date)
    ensures var r := RunDay(p, st, d);
      |r.created| + |r.skipped| == |st.created| + |st.skipped| + DayEntries(p, d)
  {
    if !IsHoliday(p.holidays, d, p.location) {
      var r := RunShifts(p, st, d, DayShifts(p.shifts, DayOfWeek(d)));
      assert RunDay(p, st, d) == r;
    }
  }

  /** A run adds one summary entry per holiday and one per matching shift on other dates. */
  lemma {:induction false} RunDaysEntries(p: Plan, st: GenState, d: Date, end: Date)
    ensures var r := RunDays(p, st, d, end);
      |r.created| + |r.skipped| == |st.created| + |st.skipped| + Entries(p, d, end)
    decreases end - d + 1
  {
    if d <= end {
      RunDayEntries(p, st, d);
      RunDaysEntries(p, RunDay(p, st, d), d + 1, end);
    }
  }

  // ---------------------------------------------------------------------
  // What a run records for one date
  // ---------------------------------------------------------------------

  /** The skip entries dated h, in order. */
  function SkippedOn(entries: seq<SkipEntry>, h: Date): (r: seq<SkipEntry>)
    ensures forall x :: x in r <==> x in entries && x.date == h
  {
    if entries == [] then []
    else
      var last := entries[|entries| - 1];
      SkippedOn(entries[..|entries| - 1], h) + (if last.date == h then [last] else [])
  }

  /** The created entries dated h, in order. */
  function CreatedOn(entries: seq<CreatedEntry>, h: Date): (r: seq<CreatedEntry>)
    ensures forall x :: x in r <==> x in entries && x.date == h
  {
    if entries == [] then []
    else
      var last := entries[|entries| - 1];
      CreatedOn(entries[..|entries| - 1], h) + (if last.date == h then [last] else [])
  }

  lemma SkippedOnAppend(entries: seq<SkipEntry>, x: SkipEntry, h: Date)
    ensures SkippedOn(entries + [x], h) == SkippedOn(entries, h) + (if x.date == h then [x] else [])
  {
    assert (entries + [x])[..|entries|] == entries;
  }

  lemma CreatedOnAppend(entries: seq<CreatedEntry>, x: CreatedEntry, h: Date)
    ensures CreatedOn(entries + [x], h) == CreatedOn(entries, h) + (if x.date == h then [x] else [])
  {
    assert (entries + [x])[..|entries|] == entries;
  }

  /** Processing a slot of date d records nothing dated h != d. */
  lemma SlotStepOtherDate(p: Plan, st: GenState, d: Date, s: Shift, h: Date)
    requires d != h
    ensures var r := SlotStep(p, st, d, s);
      SkippedOn(r.skipped, h) == SkippedOn(st.skipped, h) && CreatedOn(r.created, h) == CreatedOn(st.created, h)
  {
    var avail := Eligible(p, st.rows, d, s);
    if avail == [] {
      SkippedOnAppend(st.skipped, NoAvailableEmployees(d, s.name), h);
    } else if FindScheduleFor(st.rows, avail[0].id, d).Some? {
      SkippedOnAppend(st.skipped, AlreadyScheduled(d, avail[0].name), h);
    } else {
      CreatedOnAppend(st.created, CreatedEntry(d, avail[0].name, s.name, s.startTime, s.endTime), h);
    }
  }

  lemma {:induction false} RunShiftsOtherDate(p: Plan, st: GenState, d: Date, ss: seq<Shift>, h: Date)
    requires d != h
    ensures var r := RunShifts(p, st, d, ss);
      SkippedOn(r.skipped, h) == SkippedOn(st.skipped, h) && CreatedOn(r.created, h) == CreatedOn(st.created, h)
    decreases |ss|
  {
    if ss != [] {
      SlotStepOtherDate(p, st, d, ss[0], h);
      RunShiftsOtherDate(p, SlotStep(p, st, d, ss[0]), d, ss[1..], h);
    }
  }

  lemma RunDayOtherDate(p: Plan, st: GenState, d: Date, h: Date)
    requires d != h
    ensures var r := RunDay(p, st, d);
      SkippedOn(r.skipped, h) == SkippedOn(st.skipped, h) && CreatedOn(r.created, h) == CreatedOn(st.created, h)
  {
    if IsHoliday(p.holidays, d, p.location) {
      SkippedOnAppend(st.skipped, HolidaySkip(d), h);
    } else {
      RunShiftsOtherDate(p, st, d, DayShifts(p.shifts, DayOfWeek(d)), h);
    }
  }

  /** A run records nothing under a date before its range. */
  lemma {:induction false} RunDaysBeforeRange(p: Plan, st: GenState, d: Date, end: Date, h: Date)
    requires h < d
    ensures var r := RunDays(p, st, d, end);
      SkippedOn(r.skipped, h) == SkippedOn(st.skipped, h) && CreatedOn(r.created, h) == CreatedOn(st.created, h)
    decreases end - d + 1
  {
    if d <= end {
      RunDayOtherDate(p, st, d, h);
      RunDaysBeforeRange(p, RunDay(p, st, d), d + 1, end, h);
    }
  }

  /** Generation adds no row dated on a holiday. */
  lemma NoRowsOnHoliday(p: Plan, base: seq<Schedule>, rows: seq<Schedule>, lo: Date, hi: Date, h: Date)
    requires RowsGrow(p, base, rows, lo, hi) && IsHoliday(p.holidays, h, p.location)
    ensures forall k :: |base| <= k < |rows| ==> rows[k].date != h
  {
    forall k | |base| <= k < |rows| ensures rows[k].date != h {
      assert Justified(p, rows[..k], rows[k]);
      var s, e :| Fills(p, rows[..k], rows[k], s, e);
    }
  }

  /** A run starting on a holiday records the holiday skip for it first and nothing else dated that day afterwards. */
  lemma HolidayEntriesFrom(p: Plan, st: GenState, h: Date, end: Date)
    requires h <= end && IsHoliday(p.holidays, h, p.location)
    ensures var r := RunDays(p, st, h, end);
      && SkippedOn(r.skipped, h) == SkippedOn(st.skipped, h) + [HolidaySkip(h)]
      && CreatedOn(r.created, h) == CreatedOn(st.created, h)
  {
    var mid := st.(skipped := st.skipped + [HolidaySkip(h)]);
    assert RunDay(p, st, h) == mid;
    assert RunDays(p, st, h, end) == RunDays(p, mid, h + 1, end);
    SkippedOnAppend(st.skipped, HolidaySkip(h), h);
    RunDaysBeforeRange(p, mid, h + 1, end, h);
  }

  /** A run records nothing under a date after its range. */
  lemma {:induction false} RunDaysAfterRange(p: Plan, st: GenState, d: Date, end: Date, h: Date)
    requires end < h
    ensures var r := RunDays(p, st, d, end);
      SkippedOn(r.skipped, h) == SkippedOn(st.skipped, h) && CreatedOn(r.created, h) == CreatedOn(st.created, h)
    decreases end - d + 1
  {
    if d <= end {
      RunDayOtherDate(p, st, d, h);
      RunDaysAfterRange(p, RunDay(p, st, d), d + 1, end, h);
    }
  }

  /** A run over [d, end] is the run over [d, m - 1] followed by the run over [m, end]. */
  lemma {:induction false} RunDaysSplit(p: Plan, st: GenState, d: Date, m: Date, end: Date)
    requires d <= m <= end + 1
    ensures RunDays(p, st, d, end) == RunDays(p, RunDays(p, st, d, m - 1), m, end)
    decreases m - d
  {
    if d < m {
      var mid := RunDay(p, st, d);
      assert RunDays(p, st, d, end) == RunDays(p, mid, d + 1, end);
      assert RunDays(p, st, d, m - 1) == RunDays(p, mid, d + 1, m - 1);
      RunDaysSplit(p, mid, d + 1, m, end);
    }
  }

  lemma RunDaysHolidayEntries(p: Plan, st: GenState, d: Date, end: Date, h: Date)
    requires d <= h <= end && IsHoliday(p.holidays, h, p.location)
    ensures var r := RunDays(p, st, d, end);
      && SkippedOn(r.skipped, h) == SkippedOn(st.skipped, h) + [HolidaySkip(h)]
      && CreatedOn(r.created, h) == CreatedOn(st.created, h)
  {
    var mid := RunDays(p, st, d, h - 1);
    RunDaysSplit(p, st, d, h, end);
    RunDaysAfterRange(p, st, d, h - 1, h);
    HolidayEntriesFrom(p, mid, h, end);
  }

  /**
   * A holiday inside the range is recorded as exactly one skip entry, with
   * reason "Holiday", and gets no created entry and no schedule row.
   */
  lemma RunDaysOnHoliday(p: Plan, st: GenState, d: Date, end: Date, h: Date)
    requires d <= h <= end && IsHoliday(p.holidays, h, p.location)
    ensures var r := RunDays(p, st, d, end);
      && SkippedOn(r.skipped, h) == SkippedOn(st.skipped, h) + [HolidaySkip(h)]
      && HolidaySkip(h).Reason() == "Holiday"
      && CreatedOn(r.created, h) == CreatedOn(st.created, h)
      && forall k :: |st.rows| <= k < |r.rows| ==> r.rows[k].date != h
  {
    RunDaysHolidayEntries(p, st, d, end, h);
    RunDaysGrows(p, st, d, end);
    NoRowsOnHoliday(p, st.rows, RunDays(p, st, d, end).rows, d, end, h);
  }

  /**
   * A run over [start, end] from a table with unique (employee, date) keys:
   * the old rows stay as they were; each added row is dated in the range,
   * on a non-holiday, and justified by a shift and an eligible employee with
   * no row that day; keys stay unique; the created list grows by the rows
   * added and the fresh-id counter by as many; created plus skipped entries
   * number one per holiday and one per matching shift on other dates; an
   * empty range changes nothing.
   */
  lemma GenerationSound(p: Plan, st: GenState, start: Date, end: Date)
    requires ScheduleKeysUnique(st.rows)
    ensures var fin := RunDays(p, st, start, end);
      && |st.rows| <= |fin.rows| && fin.rows[..|st.rows|] == st.rows
      && (forall k :: |st.rows| <= k < |fin.rows| ==>
            start <= fin.rows[k].date <= end && Justified(p, fin.rows[..k], fin.rows[k]))
      && ScheduleKeysUnique(fin.rows)
      && |fin.created| - |st.created| == |fin.rows| - |st.rows| == fin.nextId - st.nextId
      && |fin.created| + |fin.skipped| == |st.created| + |st.skipped| + Entries(p, start, end)
      && (start > end ==> fin == st)
  {
    RunDaysGrows(p, st, start, end);
    RowsGrowKeepsUnique(p, st.rows, RunDays(p, st, start, end).rows, start, end);
    RunDaysEntries(p, st, start, end);
  }

  /** The weekly cap over a whole run: with a limit in force, no week of any employee ends above it unless it already was and got nothing. */
  lemma GenerationRespectsWeeklyCap(p: Plan, st: GenState, start: Date, end: Date, employeeId: Id, x: Date)
    requires p.role.weeklyHoursLimit.Some? && p.role.weeklyHoursLimit.value != 0
    ensures var fin := RunDays(p, st, start, end);
      || WeekHours(fin.rows, employeeId, x) == WeekHours(st.rows, employeeId, x)
      || WeekHours(fin.rows, employeeId, x) <= p.role.weeklyHoursLimit.value
  {
    RunDaysGrows(p, st, start, end);
    RowsGrowWeeklyCap(p, st.rows, RunDays(p, st, start, end).rows, start, end, employeeId, x);
  }
}
