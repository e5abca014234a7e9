/**
  The processing functions of admin-dashboard/src/pages/Analytics.tsx: the
  start of the query window, shifts per day, the five employees with the
  most hours and the five most frequent time-off types.  Durations are
  integer milliseconds; `new Date()` is the parameter `now`.  Each `reduce`
  fills a plain object, whose properties are visited in insertion order.
*/
module AnalyticsPage {
  import opened Wrappers
  import opened CivilTime
  import opened Seqs
  import opened AdminAnalyticsPage

  /** `getStartDate`: 'month' and 'year' go back a month or a year; every other string, a week. */
  function GetStartDate(range: string, now: TimeValue): (r: TimeValue)
    ensures range == "month" ==> r == WindowStart(LastMonth, now)
    ensures range == "year" ==> r == WindowStart(LastYear, now)
    ensures range != "month" && range != "year" ==> r == now - 7 * MsPerDay
    ensures r < now
  {
    if range == "week" then WindowStart(LastWeek, now)
    else if range == "month" then WindowStart(LastMonth, now)
    else if range == "year" then WindowStart(LastYear, now)
    else WindowStart(LastWeek, now)
  }

  /** A shift as the page reads it, its timestamps converted to dates. */
  datatype FetchedShift = FetchedShift(
    startTime: TimeValue,
    endTime: TimeValue,
    assignedEmployee: Option<string>,
    assignedEmployeeName: Option<string>)

  /** The property name a value is stored under in an object: a missing value becomes 'undefined'. */
  function PropertyKey(v: Option<string>): string
  {
    if v.None? then "undefined" else v.value
  }

  /** `value || 'Unknown'`: a missing or empty name becomes 'Unknown'. */
  function NameOr(v: Option<string>): (r: string)
    ensures r != ""
    ensures r == "Unknown" || v == Some(r)
  {
    if v.Some? && v.value != "" then v.value else "Unknown"
  }

  function DayOf(s: FetchedShift): Civil
  {
    CivilOf(s.startTime)
  }

  function DurationOf(s: FetchedShift): int
  {
    s.endTime - s.startTime
  }

  // ---------------------------------------------------------------------
  // Shifts per day

  /** One bar of the shifts chart: a day, its number of shifts and their total duration. */
  datatype ShiftData = ShiftData(date: Civil, count: int, ms: int)

  function ShiftDataOf(b: Group<FetchedShift, Civil>): ShiftData
  {
    ShiftData(b.key, b.count, b.total)
  }

  function DataCount(d: ShiftData): int
  {
    d.count
  }

  function DataMs(d: ShiftData): int
  {
    d.ms
  }

  /**
    `processShiftData`: one entry per distinct start day, in order of first
    appearance, with the number of shifts that day (at least one) and their
    total duration; the counts add up to the number of shifts and the
    durations to their total.
  */
  method ProcessShiftData(shifts: seq<FetchedShift>) returns (r: seq<ShiftData>)
    ensures var days := Distinct(KeysOf(shifts, DayOf));
      |r| == |days| &&
      forall i :: 0 <= i < |r| ==>
        r[i] == ShiftData(days[i], multiset(KeysOf(shifts, DayOf))[days[i]], SumWhere(shifts, DayOf, DurationOf, days[i]))
    ensures forall i :: 0 <= i < |r| ==> r[i].count >= 1
    ensures SumOf(r, DataCount) == |shifts|
    ensures SumOf(r, DataMs) == SumOf(shifts, DurationOf)
  {
    var g := Tally(shifts, DayOf, DurationOf);
    r := Map(g, ShiftDataOf);
    forall i | 0 <= i < |g|
      ensures r[i] == ShiftData(Keys(g)[i], multiset(KeysOf(shifts, DayOf))[Keys(g)[i]], SumWhere(shifts, DayOf, DurationOf, Keys(g)[i]))
      ensures r[i].count >= 1
    {
      GroupByBucket(shifts, DayOf, DurationOf, i);
    }
    MapCounts(g, ShiftDataOf, DataCount);
    MapTotals(g, ShiftDataOf, DataMs);
  }

  // ---------------------------------------------------------------------
  // The five employees with the most hours

  function EmployeeKey(s: FetchedShift): string
  {
    PropertyKey(s.assignedEmployee)
  }

  /** One bar of the hours chart: the name recorded with the employee's first shift, and the total. */
  datatype EmployeeHours = EmployeeHours(name: string, ms: int)

  function EmployeeHoursOf(b: Group<FetchedShift, string>): EmployeeHours
  {
    EmployeeHours(NameOr(b.first.assignedEmployeeName), b.total)
  }

  function HoursMs(e: EmployeeHours): int
  {
    e.ms
  }

  /** The key of `sort((a, b) => b.hours - a.hours)`: most hours first. */
  function ByHoursDesc(b: Group<FetchedShift, string>): int
  {
    -b.total
  }

  /** The buckets `processEmployeeHours` keeps: sorted by hours, the first five. */
  function TopEmployees(shifts: seq<FetchedShift>): seq<Group<FetchedShift, string>>
  {
    Take(SortBy(GroupBy(shifts, EmployeeKey, DurationOf), ByHoursDesc), 5)
  }

  /** `processEmployeeHours`: tallies the shifts by employee and keeps the five with the most hours (see TopEmployeesFacts). */
  method ProcessEmployeeHours(shifts: seq<FetchedShift>) returns (r: seq<EmployeeHours>)
    ensures r == Map(TopEmployees(shifts), EmployeeHoursOf)
    ensures |r| <= 5
  {
    var g := Tally(shifts, EmployeeKey, DurationOf);
    var top := Take(SortBy(g, ByHoursDesc), 5);
    r := Map(top, EmployeeHoursOf);
    TopEmployeesFacts(shifts, r);
  }

  /**
    The chart `ProcessEmployeeHours` builds: at most five entries, by hours,
    non-increasing; one per distinct employee, each the sum of that
    employee's durations; no employee left out has more hours than one
    listed; with at most five employees nothing is left out and the hours
    add up to the total.
  */
  lemma TopEmployeesFacts(shifts: seq<FetchedShift>, r: seq<EmployeeHours>)
    requires r == Map(TopEmployees(shifts), EmployeeHoursOf)
    ensures |r| <= 5
    ensures forall i, j :: 0 <= i < j < |r| ==> r[i].ms >= r[j].ms
    ensures NoDuplicates(Keys(TopEmployees(shifts)))
    ensures forall b :: b in TopEmployees(shifts) ==>
      b.key in KeysOf(shifts, EmployeeKey) && b.total == SumWhere(shifts, EmployeeKey, DurationOf, b.key) &&
      b.first == FirstWith(shifts, EmployeeKey, b.key)
    ensures forall b, e ::
      (b in GroupBy(shifts, EmployeeKey, DurationOf) && b !in TopEmployees(shifts) && e in TopEmployees(shifts)) ==>
      b.total <= e.total
    ensures |Distinct(KeysOf(shifts, EmployeeKey))| <= 5 ==> SumOf(r, HoursMs) == SumOf(shifts, DurationOf)
  {
    TopEmployeesOrdered(shifts);
    TopEmployeesMembers(shifts);
    TopEmployeesRank(shifts);
    if |Distinct(KeysOf(shifts, EmployeeKey))| <= 5 {
      TopGroupsAll(shifts, EmployeeKey, DurationOf, ByHoursDesc, 5);
      MapTotals(TopEmployees(shifts), EmployeeHoursOf, HoursMs);
    }
  }

  lemma TopEmployeesOrdered(shifts: seq<FetchedShift>)
    ensures var r := Map(TopEmployees(shifts), EmployeeHoursOf);
      |r| <= 5 && forall i, j :: 0 <= i < j < |r| ==> r[i].ms >= r[j].ms
  {
    var top := TopEmployees(shifts);
    TakeSortedIsTop(GroupBy(shifts, EmployeeKey, DurationOf), ByHoursDesc, 5);
    assert forall i, j :: 0 <= i < j < |top| ==> ByHoursDesc(top[i]) <= ByHoursDesc(top[j]);
  }

  lemma TopEmployeesMembers(shifts: seq<FetchedShift>)
    ensures NoDuplicates(Keys(TopEmployees(shifts)))
    ensures forall b :: b in TopEmployees(shifts) ==>
      b.key in KeysOf(shifts, EmployeeKey) && b.total == SumWhere(shifts, EmployeeKey, DurationOf, b.key) &&
      b.first == FirstWith(shifts, EmployeeKey, b.key)
  {
    TopGroups(shifts, EmployeeKey, DurationOf, ByHoursDesc, 5);
    GroupByMembers(shifts, EmployeeKey, DurationOf);
  }

  lemma TopEmployeesRank(shifts: seq<FetchedShift>)
    ensures forall b, e ::
      (b in GroupBy(shifts, EmployeeKey, DurationOf) && b !in TopEmployees(shifts) && e in TopEmployees(shifts)) ==>
      b.total <= e.total
  {
    TopGroupsRank(shifts, EmployeeKey, DurationOf, ByHoursDesc, 5);
    forall b, e | b in GroupBy(shifts, EmployeeKey, DurationOf) && b !in TopEmployees(shifts) && e in TopEmployees(shifts)
      ensures b.total <= e.total
    {
      assert ByHoursDesc(e) <= ByHoursDesc(b);
    }
  }

  // ---------------------------------------------------------------------
  // The five most frequent time-off types

  /** A time-off request as the statistics read it: only its type, which may be missing. */
  datatype TimeOffRecord = TimeOffRecord(requestType: Option<string>)

  function TypeKey(r: TimeOffRecord): string
  {
    PropertyKey(r.requestType)
  }

  function One(r: TimeOffRecord): int
  {
    1
  }

  /** One slice of the time-off chart: the type recorded with its first request, and the count. */
  datatype TimeOffStats = TimeOffStats(name: string, count: int)

  function StatsOf(b: Group<TimeOffRecord, string>): TimeOffStats
  {
    TimeOffStats(NameOr(b.first.requestType), b.count)
  }

  function StatsCount(e: TimeOffStats): int
  {
    e.count
  }

  /** The key of `sort((a, b) => b.count - a.count)`: most requests first. */
  function ByCountDesc(b: Group<TimeOffRecord, string>): int
  {
    -(b.count as int)
  }

  function TopTypes(requests: seq<TimeOffRecord>): seq<Group<TimeOffRecord, string>>
  {
    Take(SortBy(GroupBy(requests, TypeKey, One), ByCountDesc), 5)
  }

  /** `processTimeOffStats`: tallies the requests by type and keeps the five most frequent (see TopTypesFacts). */
  method ProcessTimeOffStats(requests: seq<TimeOffRecord>) returns (r: seq<TimeOffStats>)
    ensures r == Map(TopTypes(requests), StatsOf)
    ensures |r| <= 5 && forall i :: 0 <= i < |r| ==> r[i].count >= 1
  {
    var g := Tally(requests, TypeKey, One);
    var top := Take(SortBy(g, ByCountDesc), 5);
    r := Map(top, StatsOf);
    TopTypesFacts(requests, r);
  }

  /**
    The chart `ProcessTimeOffStats` builds: at most five entries, by count,
    non-increasing; one per distinct type, each counting the requests of
    that type (at least one); no type left out is more frequent than one
    listed; with at most five types the counts add up to the number of
    requests.
  */
  lemma TopTypesFacts(requests: seq<TimeOffRecord>, r: seq<TimeOffStats>)
    requires r == Map(TopTypes(requests), StatsOf)
    ensures |r| <= 5
    ensures forall i, j :: 0 <= i < j < |r| ==> r[i].count >= r[j].count
    ensures forall i :: 0 <= i < |r| ==> r[i].count >= 1
    ensures NoDuplicates(Keys(TopTypes(requests)))
    ensures forall b :: b in TopTypes(requests) ==>
      b.key in KeysOf(requests, TypeKey) && b.count == multiset(KeysOf(requests, TypeKey))[b.key] &&
      b.first == FirstWith(requests, TypeKey, b.key)
    ensures forall b, e ::
      (b in GroupBy(requests, TypeKey, One) && b !in TopTypes(requests) && e in TopTypes(requests)) ==>
      b.count <= e.count
    ensures |Distinct(KeysOf(requests, TypeKey))| <= 5 ==> SumOf(r, StatsCount) == |requests|
  {
    TopTypesOrdered(requests);
    TopTypesMembers(requests);
    TopTypesRank(requests);
    if |Distinct(KeysOf(requests, TypeKey))| <= 5 {
      TopGroupsAll(requests, TypeKey, One, ByCountDesc, 5);
      MapCounts(TopTypes(requests), StatsOf, StatsCount);
    }
  }

  lemma TopTypesOrdered(requests: seq<TimeOffRecord>)
    ensures var r := Map(TopTypes(requests), StatsOf);
      |r| <= 5 && forall i, j :: 0 <= i < j < |r| ==> r[i].count >= r[j].count
  {
    var top := TopTypes(requests);
    TakeSortedIsTop(GroupBy(requests, TypeKey, One), ByCountDesc, 5);
    assert forall i, j :: 0 <= i < j < |top| ==> ByCountDesc(top[i]) <= ByCountDesc(top[j]);
  }

  lemma TopTypesMembers(requests: seq<TimeOffRecord>)
    ensures NoDuplicates(Keys(TopTypes(requests)))
    ensures forall b :: b in TopTypes(requests) ==>
      b.key in KeysOf(requests, TypeKey) && b.count == multiset(KeysOf(requests, TypeKey))[b.key] &&
      b.count >= 1 && b.first == FirstWith(requests, TypeKey, b.key)
    ensures forall i :: 0 <= i < |TopTypes(requests)| ==> TopTypes(requests)[i].count >= 1
  {
    TopGroups(requests, TypeKey, One, ByCountDesc, 5);
    GroupByMembers(requests, TypeKey, One);
    var top := TopTypes(requests);
    forall i | 0 <= i < |top|
      ensures top[i].count >= 1
    {
      assert top[i] in top;
    }
  }

  lemma TopTypesRank(requests: seq<TimeOffRecord>)
    ensures forall b, e ::
      (b in GroupBy(requests, TypeKey, One) && b !in TopTypes(requests) && e in TopTypes(requests)) ==>
      b.count <= e.count
  {
    TopGroupsRank(requests, TypeKey, One, ByCountDesc, 5);
    forall b, e | b in GroupBy(requests, TypeKey, One) && b !in TopTypes(requests) && e in TopTypes(requests)
      ensures b.count <= e.count
    {
      assert ByCountDesc(e) <= ByCountDesc(b);
    }
  }

  /**
    All requests without a type fall in the one 'undefined' bucket, and
    unless some request has the literal type 'undefined', that entry is
    named 'Unknown'.
  */
  lemma MissingTypeEntry(requests: seq<TimeOffRecord>)
    ensures forall a :: a in requests && a.requestType.None? ==> TypeKey(a) == "undefined"
    ensures (forall a :: a in requests ==> a.requestType != Some("undefined")) ==>
      forall b :: b in GroupBy(requests, TypeKey, One) && b.key == "undefined" ==> StatsOf(b).name == "Unknown"
  {
    GroupByMembers(requests, TypeKey, One);
  }
}
