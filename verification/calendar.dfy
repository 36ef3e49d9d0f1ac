/**
 * Calendar and clock arithmetic: ISO weekdays of day ordinals, the
 * Monday-to-Sunday week of a date, and the length of a time window on a
 * 24-hour clock, where an end before the start means the window runs past
 * midnight.
 */
module Calendar {
  import opened Models

  /** The ISO weekday of a date: 1 is Monday, 7 is Sunday. */
  function DayOfWeek(d: Date): (w: int)
    ensures 1 <= w <= 7
  {
    (d + 6) % 7 + 1
  }

  /** Day ordinal 1 (0001-01-01) is a Monday, and weekdays advance by one, Sunday wrapping to Monday. */
  lemma DayOfWeekSteps(d: Date)
    ensures DayOfWeek(1) == 1
    ensures DayOfWeek(d + 1) == DayOfWeek(d) % 7 + 1
    ensures DayOfWeek(d + 7) == DayOfWeek(d)
  {
  }

  /** Abbreviated English day names, indexed by ISO weekday minus one. */
  const DayNames: seq<string> := ["Mon", "Tue", "Wed", "Thu", "Fri", "Sat", "Sun"]

  function DayName(d: Date): (name: string)
    ensures name == DayNames[DayOfWeek(d) - 1]
    ensures DayOfWeek(d) == 1 <==> name == "Mon"
    ensures DayOfWeek(d) == 7 <==> name == "Sun"
  {
    DayNames[DayOfWeek(d) - 1]
  }

  /** The Monday that starts the week holding d. */
  function WeekStart(d: Date): (m: Date)
    ensures DayOfWeek(m) == 1
    ensures m <= d <= m + 6
  {
    d - (d + 6) % 7
  }

  /** Two dates of one Monday-to-Sunday week have the same week start. */
  lemma SameWeek(x: Date, d: Date)
    requires WeekStart(d) <= x <= WeekStart(d) + 6
    ensures WeekStart(x) == WeekStart(d)
  {
    var a, b := WeekStart(x), WeekStart(d);
    assert (a + 6) % 7 == 0 && (b + 6) % 7 == 0;
    var qa, qb := (a + 6) / 7, (b + 6) / 7;
    assert a + 6 == 7 * qa;
    assert b + 6 == 7 * qb;
    assert -7 < a - b < 7;
    assert 7 * (qa - qb) == a - b;
    assert qa == qb;
  }

  /**
   * The seconds from start to end on a 24-hour clock; an end earlier than
   * the start is read as falling on the next day. Adding the result to the
   * start lands on the end, the result is below one day, and it is zero
   * exactly when the two times are equal.
   */
  function Elapsed(start: TimeOfDay, end: TimeOfDay): (n: nat)
    ensures n < SecondsPerDay
    ensures (start + n) % SecondsPerDay == end
    ensures n == 0 <==> start == end
  {
    if end < start then end + SecondsPerDay - start else end - start
  }

  /** Elapsed is the only duration below one day that carries start to end. */
  lemma ElapsedUnique(start: TimeOfDay, end: TimeOfDay, n: nat)
    requires n < SecondsPerDay
    requires (start + n) % SecondsPerDay == end
    ensures n == Elapsed(start, end)
  {
    if start + n < SecondsPerDay {
      assert (start + n) % SecondsPerDay == start + n;
    } else {
      assert (start + n) % SecondsPerDay == start + n - SecondsPerDay;
    }
  }
}
