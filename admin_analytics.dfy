/**
  The aggregations of admin-dashboard/src/pages/admin/Analytics.tsx: the
  shifts of the selected time window, hours per employee, counts per status
  and the summary figures.  Hours are kept as integer milliseconds;
  `new Date()` is the parameter `now`.
*/
module AdminAnalyticsPage {
  import opened Wrappers
  import opened CivilTime
  import opened Seqs
  import opened Types
  import opened TimeHelpers

  /** A fetched shift document; its timestamps may be missing. */
  datatype ShiftRecord = ShiftRecord(
    id: string,
    employeeId: string,
    status: ShiftStatus,
    startTime: Option<TimeValue>,
    endTime: Option<TimeValue>)

  datatype TimeRange = LastWeek | LastMonth | LastYear

  // ---------------------------------------------------------------------
  // The start of the window

  /** Days before month m differ between two years only by their leap days, from March on. */
  lemma {:induction false} DaysBeforeMonthYears(y: int, z: int, m: int)
    requires 0 <= m <= 12
    ensures DaysBeforeMonth(y, m) - DaysBeforeMonth(z, m) ==
      if m >= 2 then (if IsLeapYear(y) then 1 else 0) - (if IsLeapYear(z) then 1 else 0) else 0
  {
    if m > 0 {
      DaysBeforeMonthYears(y, z, m - 1);
    }
  }

  /** The same month one year apart lies one year's length apart: the year holding the February in between. */
  lemma MonthStartYearApart(y: int, m: int)
    requires 0 <= m < 12
    ensures MonthStart(12 * y + m) - MonthStart(12 * (y - 1) + m) ==
      if m >= 2 then DaysInYear(y) else DaysInYear(y - 1)
  {
    assert (12 * y + m) / 12 == y && (12 * y + m) % 12 == m;
    assert (12 * (y - 1) + m) / 12 == y - 1 && (12 * (y - 1) + m) % 12 == m;
    DayFromYearStep(y - 1);
    DaysBeforeMonthYears(y, y - 1, m);
  }

  lemma WeekBack(now: TimeValue)
    ensures SetDate(now, DateFromTime(now) - 7) == now - 7 * MsPerDay
    ensures TimeWithinDay(SetDate(now, DateFromTime(now) - 7)) == TimeWithinDay(now)
  {
    DayOfSetDate(now, DateFromTime(now) - 7);
  }

  lemma MonthBack(now: TimeValue)
    ensures var k := 12 * YearFromTime(now) + MonthFromTime(now);
      Day(now) - Day(SetMonth(now, MonthFromTime(now) - 1)) == MonthLength(k - 1) &&
      TimeWithinDay(SetMonth(now, MonthFromTime(now) - 1)) == TimeWithinDay(now)
    ensures SetMonth(now, MonthFromTime(now) - 1) < now
  {
    var y, m, d := YearFromTime(now), MonthFromTime(now), DateFromTime(now);
    MakeDayOfCivil(now);
    MonthBackAt(y, m, d, TimeWithinDay(now), now, SetMonth(now, m - 1));
  }

  /** The same date and clock one month earlier, in terms of the fields alone. */
  lemma MonthBackAt(y: int, m: int, d: int, time: int, now: TimeValue, back: TimeValue)
    requires 0 <= time < MsPerDay
    requires now == MakeDate(MakeDay(y, m, d), time) && back == MakeDate(MakeDay(y, m - 1, d), time)
    ensures Day(now) - Day(back) == MonthLength(12 * y + m - 1) && TimeWithinDay(back) == time
    ensures back < now
  {
    DayOfMakeDate(MakeDay(y, m, d), time);
    DayOfMakeDate(MakeDay(y, m - 1, d), time);
    assert 12 * y + (m - 1) == 12 * y + m - 1;
    SameDateMonthBefore(12 * y + m, d, Day(now), Day(back));
    DayOrder(back, now);
  }

  /** The same date one month index earlier lies the length of that earlier month before. */
  lemma SameDateMonthBefore(k: int, d: int, day: int, earlier: int)
    requires day == MonthStart(k) + d - 1 && earlier == MonthStart(k - 1) + d - 1
    ensures day - earlier == MonthLength(k - 1) && earlier < day
  {
    MonthStartStep(k - 1);
    MonthLengthBounds(k - 1);
  }

  lemma YearBack(now: TimeValue)
    ensures var y, m := YearFromTime(now), MonthFromTime(now);
      Day(now) - Day(SetFullYear(now, y - 1)) == (if m >= 2 then DaysInYear(y) else DaysInYear(y - 1)) &&
      TimeWithinDay(SetFullYear(now, y - 1)) == TimeWithinDay(now)
    ensures SetFullYear(now, YearFromTime(now) - 1) < now
  {
    var y, m, d := YearFromTime(now), MonthFromTime(now), DateFromTime(now);
    MakeDayOfCivil(now);
    YearBackAt(y, m, d, TimeWithinDay(now), now, SetFullYear(now, y - 1));
  }

  /** The same month, date and clock one year earlier, in terms of the fields alone. */
  lemma YearBackAt(y: int, m: int, d: int, time: int, now: TimeValue, back: TimeValue)
    requires 0 <= m < 12 && 0 <= time < MsPerDay
    requires now == MakeDate(MakeDay(y, m, d), time) && back == MakeDate(MakeDay(y - 1, m, d), time)
    ensures Day(now) - Day(back) == (if m >= 2 then DaysInYear(y) else DaysInYear(y - 1)) && TimeWithinDay(back) == time
    ensures back < now
  {
    DayOfMakeDate(MakeDay(y, m, d), time);
    DayOfMakeDate(MakeDay(y - 1, m, d), time);
    MonthStartYearApart(y, m);
    DayOrder(back, now);
  }

  /**
    The start of the window: the same clock time 7 days, one calendar month
    (the length of the previous month) or one calendar year (365 or 366
    days) before now.
  */
  function WindowStart(range: TimeRange, now: TimeValue): (r: TimeValue)
    ensures TimeWithinDay(r) == TimeWithinDay(now)
    ensures range == LastWeek ==> r == now - 7 * MsPerDay
    ensures range == LastMonth ==>
      Day(now) - Day(r) == MonthLength(12 * YearFromTime(now) + MonthFromTime(now) - 1)
    ensures range == LastYear ==>
      Day(now) - Day(r) == if MonthFromTime(now) >= 2 then DaysInYear(YearFromTime(now)) else DaysInYear(YearFromTime(now) - 1)
    ensures r < now
  {
    match range
    case LastWeek =>
      WeekBack(now);
      SetDate(now, DateFromTime(now) - 7)
    case LastMonth =>
      MonthBack(now);
      SetMonth(now, MonthFromTime(now) - 1)
    case LastYear =>
      YearBack(now);
      SetFullYear(now, YearFromTime(now) - 1)
  }

  // ---------------------------------------------------------------------
  // The window

  function InWindow(start: TimeValue, now: TimeValue): ShiftRecord -> bool
  {
    (s: ShiftRecord) => s.startTime.Some? && start <= s.startTime.value <= now
  }

  /**
    `getTimeRangeData`: exactly the shifts whose start lies in the window,
    both ends included, in their original order.
  */
  function TimeRangeData(shifts: seq<ShiftRecord>, range: TimeRange, now: TimeValue): (r: seq<ShiftRecord>)
    ensures forall x :: x in r <==> x in shifts && IsTimestampInRange(x.startTime, WindowStart(range, now), now)
    ensures forall x :: x in r ==> x.startTime.Some?
    ensures IsSubsequence(r, shifts)
    ensures forall x :: multiset(r)[x] == if IsTimestampInRange(x.startTime, WindowStart(range, now), now)
      then multiset(shifts)[x] else 0
  {
    FilterMultiset(shifts, InWindow(WindowStart(range, now), now));
    Filter(shifts, InWindow(WindowStart(range, now), now))
  }

  // ---------------------------------------------------------------------
  // Per-employee hours and per-status counts

  function EmployeeOf(s: ShiftRecord): string
  {
    s.employeeId
  }

  function StatusOf(s: ShiftRecord): ShiftStatus
  {
    s.status
  }

  /** `calculateHoursBetweenTimestamps` of a shift, in milliseconds. */
  function ShiftMs(s: ShiftRecord): int
  {
    HoursBetweenMs(s.startTime, s.endTime)
  }

  function One(s: ShiftRecord): int
  {
    1
  }

  /** One bar of the hours chart. */
  datatype HoursEntry = HoursEntry(name: string, ms: int)

  /** The bar label: 'Employee ' and the first five characters of the id, then '...'. */
  function EmployeeLabel(id: string): (r: string)
    ensures |r| == 12 + (if |id| < 5 then |id| else 5)
    ensures r[..9] == "Employee " && r[9..|r| - 3] == Take(id, 5) && r[|r| - 3..] == "..."
  {
    "Employee " + Take(id, 5) + "..."
  }

  function HoursEntryOf(b: Group<ShiftRecord, string>): HoursEntry
  {
    HoursEntry(EmployeeLabel(b.key), b.total)
  }

  function EntryMs(e: HoursEntry): int
  {
    e.ms
  }

  /**
    `getEmployeeHoursData`: one entry per distinct employee of the window,
    in order of first appearance, holding the sum of that employee's shift
    durations; the entries add up to the window's total.
  */
  method EmployeeHoursData(shifts: seq<ShiftRecord>, range: TimeRange, now: TimeValue) returns (entries: seq<HoursEntry>)
    ensures var f := TimeRangeData(shifts, range, now);
      var ids := Distinct(KeysOf(f, EmployeeOf));
      |entries| == |ids| &&
      forall i :: 0 <= i < |ids| ==> entries[i] == HoursEntry(EmployeeLabel(ids[i]), SumWhere(f, EmployeeOf, ShiftMs, ids[i]))
    ensures SumOf(entries, EntryMs) == SumOf(TimeRangeData(shifts, range, now), ShiftMs)
  {
    var f := TimeRangeData(shifts, range, now);
    var g := Tally(f, EmployeeOf, ShiftMs);
    entries := Map(g, HoursEntryOf);
    forall i | 0 <= i < |g|
      ensures entries[i] == HoursEntry(EmployeeLabel(Keys(g)[i]), SumWhere(f, EmployeeOf, ShiftMs, Keys(g)[i]))
    {
      GroupByBucket(f, EmployeeOf, ShiftMs, i);
    }
    MapTotals(g, HoursEntryOf, EntryMs);
  }

  /** One slice of the status chart. */
  datatype StatusEntry = StatusEntry(name: ShiftStatus, value: int)

  function StatusEntryOf(b: Group<ShiftRecord, ShiftStatus>): StatusEntry
  {
    StatusEntry(b.key, b.count)
  }

  function EntryValue(e: StatusEntry): int
  {
    e.value
  }

  /**
    `getShiftStatusData`: one entry per status present in the window, in
    order of first appearance, counting the shifts with that status (so at
    least one); the counts add up to the number of shifts in the window.
  */
  method ShiftStatusData(shifts: seq<ShiftRecord>, range: TimeRange, now: TimeValue) returns (entries: seq<StatusEntry>)
    ensures var f := TimeRangeData(shifts, range, now);
      var sts := Distinct(KeysOf(f, StatusOf));
      |entries| == |sts| &&
      forall i :: 0 <= i < |sts| ==>
        entries[i].name == sts[i] && entries[i].value == multiset(KeysOf(f, StatusOf))[sts[i]] && entries[i].value >= 1
    ensures SumOf(entries, EntryValue) == |TimeRangeData(shifts, range, now)|
  {
    var f := TimeRangeData(shifts, range, now);
    var g := Tally(f, StatusOf, One);
    entries := Map(g, StatusEntryOf);
    forall i | 0 <= i < |g|
      ensures entries[i].name == Keys(g)[i] && entries[i].value == multiset(KeysOf(f, StatusOf))[Keys(g)[i]] &&
        entries[i].value >= 1
    {
      GroupByBucket(f, StatusOf, One, i);
    }
    MapCounts(g, StatusEntryOf, EntryValue);
  }

  // ---------------------------------------------------------------------
  // Summary figures

  datatype Stats = Stats(totalShifts: nat, totalMs: int, averageMs: int, uniqueEmployees: nat)

  /** `getTotalStats`, with the durations in milliseconds. */
  function TotalStats(shifts: seq<ShiftRecord>, range: TimeRange, now: TimeValue): (r: Stats)
    ensures var f := TimeRangeData(shifts, range, now);
      r.totalShifts == |f| && r.totalMs == SumOf(f, ShiftMs) &&
      r.uniqueEmployees == |set x | x in KeysOf(f, EmployeeOf)|
    ensures r.totalShifts > 0 ==> r.averageMs == r.totalMs / r.totalShifts
  {
    var f := TimeRangeData(shifts, range, now);
    var total := SumOf(f, ShiftMs);
    Stats(|f|, total, if |f| > 0 then total / |f| else 0, |set x | x in KeysOf(f, EmployeeOf)|)
  }

  /**
    The summary agrees with the charts: the employees counted are the
    entries of the hours chart, no more than the shifts; an empty window has
    no hours and an average of 0; the status counts add up to the shifts.
  */
  lemma StatsAgree(shifts: seq<ShiftRecord>, range: TimeRange, now: TimeValue)
    ensures var r := TotalStats(shifts, range, now);
      var f := TimeRangeData(shifts, range, now);
      r.uniqueEmployees == |Distinct(KeysOf(f, EmployeeOf))| <= r.totalShifts &&
      (r.totalShifts == 0 ==> r.totalMs == 0 && r.averageMs == 0) &&
      r.totalShifts == Counts(GroupBy(f, StatusOf, One)) &&
      r.totalMs == Totals(GroupBy(f, EmployeeOf, ShiftMs))
  {
    var f := TimeRangeData(shifts, range, now);
    SetSizeIsDistinct(KeysOf(f, EmployeeOf));
    GroupByCounts(f, StatusOf, One);
    GroupByTotals(f, EmployeeOf, ShiftMs);
  }
}
