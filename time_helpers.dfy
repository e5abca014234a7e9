/**
  The date helpers of admin-dashboard/src/utils/timeHelpers.ts.  Each boundary
  helper copies a Date and moves it with the ECMAScript setters, so it is a
  function of the input time value built from SetHours, SetDate and SetMonth.
  A Firestore timestamp that may be missing is an `Option<TimeValue>`.
*/
module TimeHelpers {
  import opened Wrappers
  import opened CivilTime
  import opened Text

  // ---------------------------------------------------------------------
  // Day, week and month boundaries

  /** `getStartOfDay`: `setHours(0, 0, 0, 0)` on a copy. */
  function GetStartOfDay(t: TimeValue): (r: TimeValue)
    ensures Day(r) == Day(t) && CivilOf(r) == CivilOf(t)
    ensures TimeWithinDay(r) == 0
    ensures r <= t < r + MsPerDay
  {
    DayOfMakeDate(Day(t), 0);
    SetHours(t, 0, 0, 0, 0)
  }

  /** `getEndOfDay`: `setHours(23, 59, 59, 999)` on a copy. */
  function GetEndOfDay(t: TimeValue): (r: TimeValue)
    ensures Day(r) == Day(t) && CivilOf(r) == CivilOf(t)
    ensures TimeWithinDay(r) == MsPerDay - 1
    ensures r - MsPerDay < t <= r
  {
    DayOfMakeDate(Day(t), MakeTime(23, 59, 59, 999));
    SetHours(t, 23, 59, 59, 999)
  }

  /** How many days `getStartOfWeek` steps back from a date with the given week day. */
  function WeekOffset(day: int, startOnMonday: bool): int
  {
    if startOnMonday then (if day == 0 then 6 else day - 1) else day
  }

  /** Stepping back by the offset lands on a Sunday, or a Monday, at most six days earlier. */
  lemma WeekOffsetLands(n: int, startOnMonday: bool, m: int)
    requires m == n - WeekOffset((n + 4) % 7, startOnMonday)
    ensures n - 6 <= m <= n
    ensures (m + 4) % 7 == if startOnMonday then 1 else 0
  {
    var day := (n + 4) % 7;
    assert n + 4 == 7 * ((n + 4) / 7) + day;
  }

  /** `getStartOfWeek`: step back to the week's first day, then to its midnight. */
  function GetStartOfWeek(t: TimeValue, startOnMonday: bool): (r: TimeValue)
    ensures TimeWithinDay(r) == 0
    ensures WeekDay(r) == if startOnMonday then 1 else 0
    ensures Day(t) - 6 <= Day(r) <= Day(t)
  {
    var diff := WeekOffset(WeekDay(t), startOnMonday);
    var moved := SetDate(t, DateFromTime(t) - diff);
    DayOfSetDate(t, DateFromTime(t) - diff);
    var r := GetStartOfDay(moved);
    assert Day(r) == Day(t) - diff;
    WeekOffsetLands(Day(t), startOnMonday, Day(r));
    r
  }

  /** `getEndOfWeek`: six days after the start of the week, at 23:59:59.999. */
  function GetEndOfWeek(t: TimeValue, startOnMonday: bool): (r: TimeValue)
    ensures Day(r) == Day(GetStartOfWeek(t, startOnMonday)) + 6
    ensures TimeWithinDay(r) == MsPerDay - 1
    ensures t <= r
  {
    var start := GetStartOfWeek(t, startOnMonday);
    var moved := SetDate(start, DateFromTime(start) + 6);
    DayOfSetDate(start, DateFromTime(start) + 6);
    GetEndOfDay(moved)
  }

  /** `getStartOfMonth`: `setDate(1)`, then midnight. */
  function GetStartOfMonth(t: TimeValue): (r: TimeValue)
    ensures CivilOf(r) == Civil(YearFromTime(t), MonthFromTime(t), 1)
    ensures TimeWithinDay(r) == 0
    ensures r <= t
  {
    var moved := SetDate(t, 1);
    CivilOfMakeDate(YearFromTime(t), MonthFromTime(t), 1, TimeWithinDay(t));
    NormalizeValid(Civil(YearFromTime(t), MonthFromTime(t), 1));
    MakeDayOfCivil(t);
    GetStartOfDay(moved)
  }

  /** The last day of month index k as a calendar date. */
  function LastDayOfIndex(k: int): Civil
  {
    Civil(k / 12, k % 12, MonthLength(k))
  }

  /** The month index of a calendar date. */
  function IndexOf(c: Civil): int
  {
    12 * c.year + c.month
  }

  /** Reading back day d of month index k, with d inside that month. */
  lemma CivilOfMonthDay(k: int, d: int, time: int)
    requires 1 <= d <= MonthLength(k)
    requires 0 <= time < MsPerDay
    ensures CivilOf(MakeDate(MonthStart(k) + d - 1, time)) == Civil(k / 12, k % 12, d)
    ensures Day(MakeDate(MonthStart(k) + d - 1, time)) == MonthStart(k) + d - 1
    ensures IndexOf(CivilOf(MakeDate(MonthStart(k) + d - 1, time))) == k
    ensures TimeWithinDay(MakeDate(MonthStart(k) + d - 1, time)) == time
  {
    var c := Civil(k / 12, k % 12, d);
    assert 12 * (k / 12) + k % 12 == k;
    assert c.DayNumber() == MonthStart(k) + d - 1;
    CivilOfMakeDate(k / 12, k % 12, d, time);
    NormalizeValid(c);
    DayOfMakeDate(MonthStart(k) + d - 1, time);
  }

  /** The day before the first of month index k is the last day of month index k - 1. */
  lemma DayBeforeMonth(k: int, time: int)
    requires 0 <= time < MsPerDay
    ensures CivilOf(MakeDate(MonthStart(k) - 1, time)) == LastDayOfIndex(k - 1)
  {
    MonthStartStep(k - 1);
    CivilOfMonthDay(k - 1, MonthLength(k - 1), time);
  }

  /**
    `getEndOfMonth` as written: `setMonth(getMonth() + 1)`, then `setDate(0)`,
    then 23:59:59.999.  When the input's date does not exist in the following
    month, setMonth overflows into the month after it, and setDate(0) then
    lands on the last day of the following month instead of the input's month.
  */
  function GetEndOfMonth(t: TimeValue): (r: TimeValue)
    ensures TimeWithinDay(r) == MsPerDay - 1
    ensures var k := IndexOf(CivilOf(t));
      CivilOf(r) == if DateFromTime(t) <= MonthLength(k + 1) then LastDayOfIndex(k) else LastDayOfIndex(k + 1)
  {
    var last := SetDate(SetMonth(t, MonthFromTime(t) + 1), 0);
    EndOfMonthSteps(t);
    GetEndOfDay(last)
  }

  /** setDate(dt) is day dt of the month index of t, at t's clock. */
  lemma SetDateIndex(t: TimeValue, dt: int)
    ensures SetDate(t, dt) == MakeDate(MonthStart(IndexOf(CivilOf(t))) + dt - 1, TimeWithinDay(t))
  {
  }

  /** setMonth(getMonth() + 1) is the same date of the next month index, at t's clock. */
  lemma SetNextMonthIndex(t: TimeValue)
    ensures SetMonth(t, MonthFromTime(t) + 1) ==
      MakeDate(MonthStart(IndexOf(CivilOf(t)) + 1) + DateFromTime(t) - 1, TimeWithinDay(t))
  {
    var c := CivilOf(t);
    assert 12 * c.year + (c.month + 1) == IndexOf(c) + 1;
  }

  /** The date of t, as a day of its own month index. */
  lemma DateInIndex(t: TimeValue)
    ensures 1 <= DateFromTime(t) <= MonthLength(IndexOf(CivilOf(t)))
    ensures MonthStart(IndexOf(CivilOf(t))) + DateFromTime(t) - 1 == Day(t)
  {
    var c := CivilOf(t);
    var k := IndexOf(c);
    assert k / 12 == c.year && k % 12 == c.month;
  }

  lemma MonthLengthBounds(k: int)
    ensures 28 <= MonthLength(k) <= 31
  {
  }

  /** After setMonth the date is read back in month index k + 1, or k + 2 when it overflowed. */
  lemma NextMonthCivil(t: TimeValue)
    ensures var k := IndexOf(CivilOf(t));
      IndexOf(CivilOf(SetMonth(t, MonthFromTime(t) + 1))) ==
        if DateFromTime(t) <= MonthLength(k + 1) then k + 1 else k + 2
  {
    var k := IndexOf(CivilOf(t));
    SetNextMonthIndex(t);
    DateInIndex(t);
    IndexAfterMonthStep(k, DateFromTime(t), TimeWithinDay(t), SetMonth(t, MonthFromTime(t) + 1));
  }

  /** Day d of month index k + 1 is read back in month index k + 1, or k + 2 when d overflows it. */
  lemma IndexAfterMonthStep(k: int, d: int, time: int, n: TimeValue)
    requires 1 <= d <= MonthLength(k)
    requires 0 <= time < MsPerDay
    requires n == MakeDate(MonthStart(k + 1) + d - 1, time)
    ensures IndexOf(CivilOf(n)) == if d <= MonthLength(k + 1) then k + 1 else k + 2
  {
    if d <= MonthLength(k + 1) {
      CivilOfMonthDay(k + 1, d, time);
    } else {
      NextMonthOverflow(k, d, time);
    }
  }

  lemma NextMonthOverflow(k: int, d: int, time: int)
    requires MonthLength(k + 1) < d <= MonthLength(k)
    requires 0 <= time < MsPerDay
    ensures IndexOf(CivilOf(MakeDate(MonthStart(k + 1) + d - 1, time))) == k + 2
  {
    MonthStartStep(k + 1);
    MonthLengthBounds(k);
    MonthLengthBounds(k + 1);
    MonthLengthBounds(k + 2);
    var d2 := d - MonthLength(k + 1);
    assert MonthStart(k + 1) + d - 1 == MonthStart(k + 2) + d2 - 1;
    CivilOfMonthDay(k + 2, d2, time);
  }

  /** setDate(0) is the last day of the month before t's month. */
  lemma SetDateZero(t: TimeValue)
    ensures CivilOf(SetDate(t, 0)) == LastDayOfIndex(IndexOf(CivilOf(t)) - 1)
  {
    var k := IndexOf(CivilOf(t));
    var time := TimeWithinDay(t);
    assert SetDate(t, 0) == MakeDate(MonthStart(k) - 1, time) by {
      SetDateIndex(t, 0);
    }
    DayBeforeMonth(k, time);
  }

  lemma EndOfMonthSteps(t: TimeValue)
    ensures var k := IndexOf(CivilOf(t));
      CivilOf(SetDate(SetMonth(t, MonthFromTime(t) + 1), 0)) ==
        if DateFromTime(t) <= MonthLength(k + 1) then LastDayOfIndex(k) else LastDayOfIndex(k + 1)
  {
    var k := IndexOf(CivilOf(t));
    var n := SetMonth(t, MonthFromTime(t) + 1);
    NextMonthCivil(t);
    SetDateZero(n);
    PickLastDay(IndexOf(CivilOf(n)), k, DateFromTime(t) <= MonthLength(k + 1), CivilOf(SetDate(n, 0)));
  }

  lemma PickLastDay(j: int, k: int, b: bool, c: Civil)
    requires j == if b then k + 1 else k + 2
    requires c == LastDayOfIndex(j - 1)
    ensures c == if b then LastDayOfIndex(k) else LastDayOfIndex(k + 1)
  {
    if b {
      assert j - 1 == k;
    } else {
      assert j - 1 == k + 1;
    }
  }

  /** Whichever month the written end of month falls in, it is not before t. */
  lemma EndOfMonthAfter(t: TimeValue)
    ensures t <= GetEndOfMonth(t)
  {
    var c := CivilOf(t);
    var k := IndexOf(c);
    var e := GetEndOfMonth(t);
    var k2 := if DateFromTime(t) <= MonthLength(k + 1) then k else k + 1;
    assert CivilOf(e) == LastDayOfIndex(k2);
    LastDayNotBefore(c, k2);
    NotBeforeDayEnd(t, e);
  }

  /** A valid date is not after the last day of its own month index or of the next one. */
  lemma LastDayNotBefore(c: Civil, k2: int)
    requires c.Valid()
    requires k2 == IndexOf(c) || k2 == IndexOf(c) + 1
    ensures c.DayNumber() <= LastDayOfIndex(k2).DayNumber()
  {
    MonthLengthOfIndex(c.year, c.month);
    DayNotAfterMonthEnd(IndexOf(c), c.date, k2, c.DayNumber(), LastDayOfIndex(k2).DayNumber());
  }

  /** Day d of month index k is not after the last day of month index k or k + 1. */
  lemma DayNotAfterMonthEnd(k: int, d: int, k2: int, n: int, e: int)
    requires 1 <= d <= MonthLength(k) && (k2 == k || k2 == k + 1)
    requires n == MonthStart(k) + d - 1 && e == MakeDay(k2 / 12, k2 % 12, MonthLength(k2))
    ensures n <= e
  {
    assert 12 * (k2 / 12) + k2 % 12 == k2;
    if k2 == k + 1 {
      MonthStartStep(k);
      MonthLengthBounds(k2);
    }
  }

  /** A time value on an earlier or the same day is not after the last millisecond of a day. */
  lemma NotBeforeDayEnd(a: TimeValue, b: TimeValue)
    requires Day(a) <= Day(b) && TimeWithinDay(b) == MsPerDay - 1
    ensures a <= b
  {
    assert a == Day(a) * MsPerDay + TimeWithinDay(a);
    assert b == Day(b) * MsPerDay + TimeWithinDay(b);
  }

  /**
    The end of the month with the overflow avoided: the date is first set to 1,
    so that setMonth cannot overflow, and setDate(0) then steps back into the
    input's month.
  */
  function EndOfMonth(t: TimeValue): (r: TimeValue)
    ensures TimeWithinDay(r) == MsPerDay - 1
    ensures CivilOf(r) == Civil(YearFromTime(t), MonthFromTime(t), DaysInMonth(YearFromTime(t), MonthFromTime(t)))
    ensures t <= r
  {
    var first := SetDate(t, 1);
    var last := SetDate(SetMonth(first, MonthFromTime(first) + 1), 0);
    FixedEndOfMonthSteps(t);
    GetEndOfDay(last)
  }

  lemma FixedEndOfMonthSteps(t: TimeValue)
    ensures var last := SetDate(SetMonth(SetDate(t, 1), MonthFromTime(SetDate(t, 1)) + 1), 0);
      CivilOf(last) == Civil(YearFromTime(t), MonthFromTime(t), DaysInMonth(YearFromTime(t), MonthFromTime(t))) &&
      Day(t) <= Day(last)
  {
    var k := IndexOf(CivilOf(t));
    var first := SetDate(t, 1);
    var next := SetMonth(first, MonthFromTime(first) + 1);
    var last := SetDate(next, 0);
    assert IndexOf(CivilOf(next)) == k + 1 by {
      FirstOfMonthIndex(t);
      NextMonthCivil(first);
      MonthLengthBounds(k + 1);
    }
    assert CivilOf(last) == LastDayOfIndex(k) by {
      SetDateZero(next);
    }
    LastDayOfOwnMonth(t, last);
  }

  /** A time value on the last day of t's month index is that month's last date, not before t. */
  lemma LastDayOfOwnMonth(t: TimeValue, last: TimeValue)
    requires CivilOf(last) == LastDayOfIndex(IndexOf(CivilOf(t)))
    ensures CivilOf(last) == Civil(YearFromTime(t), MonthFromTime(t), DaysInMonth(YearFromTime(t), MonthFromTime(t)))
    ensures Day(t) <= Day(last)
  {
    var c := CivilOf(t);
    var k := IndexOf(c);
    assert k / 12 == c.year && k % 12 == c.month;
    DateInIndex(t);
    DateInIndex(last);
  }

  /** setDate(1) stays in the month index of t, on day 1. */
  lemma FirstOfMonthIndex(t: TimeValue)
    ensures IndexOf(CivilOf(SetDate(t, 1))) == IndexOf(CivilOf(t))
    ensures DateFromTime(SetDate(t, 1)) == 1
  {
    var k := IndexOf(CivilOf(t));
    SetDateIndex(t, 1);
    CivilOfMonthDay(k, 1, TimeWithinDay(t));
  }

  /** As written, 31 January 2023 has 28 February 2023 as the end of its month. */
  lemma GetEndOfMonthJanuary31()
    ensures CivilOf(NewDate(2023, 0, 31)) == Civil(2023, 0, 31)
    ensures CivilOf(GetEndOfMonth(NewDate(2023, 0, 31))) == Civil(2023, 1, 28)
    ensures CivilOf(EndOfMonth(NewDate(2023, 0, 31))) == Civil(2023, 0, 31)
  {
    var k := 12 * 2023;
    var t := NewDate(2023, 0, 31);
    assert k / 12 == 2023 && k % 12 == 0;
    assert (k + 1) / 12 == 2023 && (k + 1) % 12 == 1;
    assert t == MakeDate(MonthStart(k) + 31 - 1, 0);
    assert CivilOf(t) == Civil(2023, 0, 31) by {
      CivilOfMonthDay(k, 31, 0);
    }
    assert MonthLength(k + 1) == 28;
  }

  // ---------------------------------------------------------------------
  // Period ranges

  datatype Period = DayPeriod | WeekPeriod | MonthPeriod | YearPeriod

  datatype Range = Range(start: TimeValue, end: TimeValue)

  /** `getDateRangeForPeriod` as written; the week starts on Sunday. */
  function DateRangeForPeriod(period: Period, t: TimeValue): (r: Range)
    ensures r.start <= r.end
    ensures period != YearPeriod ==> r.start <= t <= r.end
    ensures period == DayPeriod ==> r.start == GetStartOfDay(t) && r.end == GetEndOfDay(t)
    ensures period == WeekPeriod ==> r.start == GetStartOfWeek(t, false) && r.end == GetEndOfWeek(t, false)
    ensures period == WeekPeriod ==> WeekDay(r.start) == 0 && Day(r.end) == Day(r.start) + 6
    ensures period == MonthPeriod ==> r.start == GetStartOfMonth(t) && r.end == GetEndOfMonth(t)
  {
    match period
    case DayPeriod => Range(GetStartOfDay(t), GetEndOfDay(t))
    case WeekPeriod => Range(GetStartOfWeek(t, false), GetEndOfWeek(t, false))
    case MonthPeriod =>
      EndOfMonthAfter(t);
      Range(GetStartOfMonth(t), GetEndOfMonth(t))
    case YearPeriod =>
      var y := YearFromTime(t);
      YearRangeOrdered(FullYear(y));
      Range(GetStartOfDay(NewDate(y, 0, 1)), GetEndOfDay(NewDate(y, 11, 31)))
  }

  lemma YearRangeOrdered(y: int)
    ensures MakeDay(y, 0, 1) <= MakeDay(y, 11, 31)
  {
    var k := 12 * y;
    assert (12 * y + 11) / 12 == y && (12 * y + 11) % 12 == 11;
    assert k / 12 == y && k % 12 == 0;
    DaysBeforeDecember(y);
  }

  /** For a year outside 0..99 the 'year' range runs from 1 January 00:00 to 31 December 23:59:59.999 of t's year. */
  lemma YearRange(t: TimeValue)
    requires !(0 <= YearFromTime(t) <= 99)
    ensures var r := DateRangeForPeriod(YearPeriod, t);
      CivilOf(r.start) == Civil(YearFromTime(t), 0, 1) && TimeWithinDay(r.start) == 0 &&
      CivilOf(r.end) == Civil(YearFromTime(t), 11, 31) && TimeWithinDay(r.end) == MsPerDay - 1 &&
      r.start <= t <= r.end
  {
    assert DateRangeForPeriod(YearPeriod, t) == YearRangeOf(t);
  }

  /** Day(t) lies between the first and the last day of its own year. */
  lemma YearContains(t: TimeValue)
    ensures MakeDay(YearFromTime(t), 0, 1) <= Day(t) <= MakeDay(YearFromTime(t), 11, 31)
  {
    CivilWithinYear(CivilOf(t));
  }

  /** A valid date lies between 1 January and 31 December of its year. */
  lemma CivilWithinYear(c: Civil)
    requires c.Valid()
    ensures MakeDay(c.year, 0, 1) <= c.DayNumber() <= MakeDay(c.year, 11, 31)
  {
    MonthLengthOfIndex(c.year, c.month);
    DayWithinMonths(c.year, IndexOf(c), c.date, c.DayNumber());
  }

  /** Day d of a month index of year y lies between 1 January and 31 December of y. */
  lemma DayWithinMonths(y: int, k: int, d: int, n: int)
    requires 12 * y <= k <= 12 * y + 11 && 1 <= d <= MonthLength(k)
    requires n == MonthStart(k) + d - 1
    ensures MakeDay(y, 0, 1) <= n <= MakeDay(y, 11, 31)
  {
    var first, last := 12 * y, 12 * y + 11;
    MonthLengthOfIndex(y, 11);
    if first < k {
      MonthStartBelow(first, k);
    }
    if k < last {
      MonthStartBelow(k, last);
    }
  }

  /**
    The 'year' range for a year y in 0..99: `new Date(y, 0, 1)` reads y as
    1900 + y, so the range covers a year other than t's own.
  */
  lemma YearRangeTwoDigitYear(t: TimeValue)
    requires 0 <= YearFromTime(t) <= 99
    ensures var r := DateRangeForPeriod(YearPeriod, t);
      CivilOf(r.start) == Civil(YearFromTime(t) + 1900, 0, 1) && t < r.start
  {
    TwoDigitYearAfter(t, DateRangeForPeriod(YearPeriod, t).start);
  }

  lemma TwoDigitYearAfter(t: TimeValue, start: TimeValue)
    requires 0 <= YearFromTime(t) <= 99
    requires start == GetStartOfDay(NewDate(YearFromTime(t), 0, 1))
    ensures CivilOf(start) == Civil(YearFromTime(t) + 1900, 0, 1) && t < start
  {
    TwoDigitYearStart(YearFromTime(t));
    BeforeCenturyLater(t);
    DayOrder(t, start);
  }

  /** Day(t) comes before 1 January of 1900 years after t's own year. */
  lemma BeforeCenturyLater(t: TimeValue)
    ensures Day(t) < MakeDay(YearFromTime(t) + 1900, 0, 1)
  {
    YearContains(t);
    YearBefore(YearFromTime(t), YearFromTime(t) + 1900);
  }

  /** `new Date(y, 0, 1)` for y in 0..99 is midnight of 1 January 1900 + y. */
  lemma TwoDigitYearStart(y: int)
    requires 0 <= y <= 99
    ensures var start := GetStartOfDay(NewDate(y, 0, 1));
      CivilOf(start) == Civil(y + 1900, 0, 1) && Day(start) == MakeDay(y + 1900, 0, 1)
  {
    assert NewDate(y, 0, 1) == MakeDate(MakeDay(y + 1900, 0, 1), 0);
    FirstOfYear(y + 1900);
  }

  /** Midnight of 1 January of year y, read back. */
  lemma FirstOfYear(y: int)
    ensures var first := MakeDate(MakeDay(y, 0, 1), 0);
      Day(first) == MakeDay(y, 0, 1) && CivilOf(first) == Civil(y, 0, 1)
  {
    CivilOfMakeDate(y, 0, 1, 0);
    NormalizeValid(Civil(y, 0, 1));
  }

  /** 31 December of a year comes before 1 January of any later year. */
  lemma YearBefore(y: int, z: int)
    requires y < z
    ensures MakeDay(y, 11, 31) < MakeDay(z, 0, 1)
  {
    var k := 12 * y + 11;
    assert k / 12 == y && k % 12 == 11;
    MonthStartBelow(k, 12 * z + 0);
  }

  /**
    The 'year' range with the year set by `setFullYear(y, 0, 1)` and
    `setFullYear(y, 11, 31)`, which do not reinterpret two-digit years.
  */
  function YearRangeOf(t: TimeValue): (r: Range)
    ensures CivilOf(r.start) == Civil(YearFromTime(t), 0, 1) && TimeWithinDay(r.start) == 0
    ensures CivilOf(r.end) == Civil(YearFromTime(t), 11, 31) && TimeWithinDay(r.end) == MsPerDay - 1
    ensures r.start <= t <= r.end
  {
    var y := YearFromTime(t);
    CivilOfMakeDate(y, 0, 1, 0);
    CivilOfMakeDate(y, 11, 31, 0);
    NormalizeValid(Civil(y, 0, 1));
    NormalizeValid(Civil(y, 11, 31));
    YearContains(t);
    Range(GetStartOfDay(MakeDate(MakeDay(y, 0, 1), 0)), GetEndOfDay(MakeDate(MakeDay(y, 11, 31), 0)))
  }

  // ---------------------------------------------------------------------
  // Tests on timestamps

  /** `isTimestampInRange`: inclusive at both ends; a missing timestamp is not in range. */
  predicate IsTimestampInRange(ts: Option<TimeValue>, start: TimeValue, end: TimeValue)
  {
    ts.Some? && start <= ts.value && ts.value <= end
  }

  /** `isTimestampInPast`: strictly before now; a missing timestamp is not in the past. */
  predicate IsTimestampInPast(ts: Option<TimeValue>, now: TimeValue)
  {
    ts.Some? && ts.value < now
  }

  /** `isToday`: the same year, month and date as now. */
  predicate IsToday(t: TimeValue, now: TimeValue)
  {
    DateFromTime(t) == DateFromTime(now) && MonthFromTime(t) == MonthFromTime(now) &&
    YearFromTime(t) == YearFromTime(now)
  }

  /** A time value lies in the 'day' range of now exactly when it is today. */
  lemma InDayRangeIffToday(t: TimeValue, now: TimeValue)
    ensures IsTimestampInRange(Some(t), GetStartOfDay(now), GetEndOfDay(now)) <==> IsToday(t, now)
  {
    if IsToday(t, now) {
      assert CivilOf(t) == CivilOf(now);
    }
    if Day(t) == Day(now) {
      assert CivilOf(t) == CivilOf(now);
    }
    if CivilOf(t) == CivilOf(now) {
      assert Day(t) == CivilOf(t).DayNumber();
    }
  }

  /** A timestamp in the past is never in a range that starts at now. */
  lemma PastNotInFuture(ts: Option<TimeValue>, now: TimeValue, end: TimeValue)
    ensures IsTimestampInPast(ts, now) ==> !IsTimestampInRange(ts, now, end)
    ensures ts.Some? ==> (IsTimestampInPast(ts, now) <==> !IsTimestampInRange(ts, now, if ts.value < now then now else ts.value))
  {
  }

  // ---------------------------------------------------------------------
  // Durations, in milliseconds rather than fractional hours

  /** `calculateHoursBetweenTimestamps` in milliseconds: 0 when an endpoint is missing, otherwise end - start. */
  function HoursBetweenMs(start: Option<TimeValue>, end: Option<TimeValue>): (r: int)
    ensures start.None? || end.None? ==> r == 0
    ensures start.Some? && end.Some? ==> start.value + r == end.value
  {
    if start.None? || end.None? then 0 else end.value - start.value
  }

  /** `calculateDurationInHours` in milliseconds: never negative, 0 when an endpoint is missing. */
  function DurationMs(start: Option<TimeValue>, end: Option<TimeValue>): (r: nat)
    ensures start.None? || end.None? ==> r == 0
    ensures start.Some? && end.Some? && start.value <= end.value ==> start.value + r == end.value
    ensures start.Some? && end.Some? && end.value <= start.value ==> r == 0
  {
    if start.None? || end.None? then 0
    else if end.value - start.value < 0 then 0
    else end.value - start.value
  }

  /** The duration is the signed difference clamped at 0. */
  lemma DurationIsClampedDifference(start: Option<TimeValue>, end: Option<TimeValue>)
    ensures DurationMs(start, end) == if HoursBetweenMs(start, end) < 0 then 0 else HoursBetweenMs(start, end)
  {
  }

  // ---------------------------------------------------------------------
  // YYYY-MM-DD

  /** `formatDateForInput`: '' for null, otherwise year-MM-DD with a 1-based month. */
  function FormatDateForInput(d: Option<TimeValue>): (r: string)
    ensures d.None? <==> r == ""
  {
    match d
    case None => ""
    case Some(t) =>
      IntToString(YearFromTime(t)) + "-" + PadStart2(NatToString(MonthFromTime(t) + 1)) + "-" +
      PadStart2(NatToString(DateFromTime(t)))
  }

  predicate AllDigits(s: string)
  {
    forall i :: 0 <= i < |s| ==> IsDigit(s[i])
  }

  /** The fields of a "YYYY-MM-DD" string with a non-negative year, if it has that shape. */
  function ParseInputDate(s: string): Option<Civil>
  {
    if |s| < 7 then None
    else
      var ys, ms, ds := s[..|s| - 6], s[|s| - 5..|s| - 3], s[|s| - 2..];
      if s[|s| - 6] == '-' && s[|s| - 3] == '-' && AllDigits(ys) && AllDigits(ms) && AllDigits(ds) then
        Some(Civil(ParseNat(ys), ParseNat(ms) - 1, ParseNat(ds)))
      else
        None
  }

  /** For a year that is not negative the formatted date reads back as the date of t. */
  lemma FormatDateRoundTrip(t: TimeValue)
    requires YearFromTime(t) >= 0
    ensures ParseInputDate(FormatDateForInput(Some(t))) == Some(CivilOf(t))
  {
    var c := CivilOf(t);
    assert FormatDateForInput(Some(t)) == FormatFields(c.year, c.month, c.date);
    FormatFieldsRoundTrip(c.year, c.month, c.date);
  }

  /** A year, a 0-based month and a day written as the date input shows them. */
  function FormatFields(year: int, month: nat, date: nat): string
  {
    IntToString(year) + "-" + PadStart2(NatToString(month + 1)) + "-" + PadStart2(NatToString(date))
  }

  /** Fields of at most two digits read back from their written form. */
  lemma FormatFieldsRoundTrip(year: nat, month: nat, date: nat)
    requires month + 1 < 100 && date < 100
    ensures ParseInputDate(FormatFields(year, month, date)) == Some(Civil(year, month, date))
  {
    PadStart2Numeral(month + 1);
    PadStart2Numeral(date);
    ParseNatToString(year);
    ParseFields(NatToString(year), PadStart2(NatToString(month + 1)), PadStart2(NatToString(date)));
  }

  /** A year, a two-digit month and a two-digit day joined by '-' parse back into their values. */
  lemma ParseFields(ys: string, ms: string, ds: string)
    requires ys != [] && |ms| == 2 && |ds| == 2
    requires AllDigits(ys) && AllDigits(ms) && AllDigits(ds)
    ensures ParseInputDate(ys + "-" + ms + "-" + ds) == Some(Civil(ParseNat(ys), ParseNat(ms) - 1, ParseNat(ds)))
  {
    JoinedFields(ys, ms, ds);
  }

  lemma JoinedFields(ys: string, ms: string, ds: string)
    requires |ms| == 2 && |ds| == 2
    ensures var s := ys + "-" + ms + "-" + ds;
      |s| == |ys| + 6 && s[..|s| - 6] == ys && s[|s| - 5..|s| - 3] == ms && s[|s| - 2..] == ds &&
      s[|s| - 6] == '-' && s[|s| - 3] == '-'
  {
    var s := ys + "-" + ms + "-" + ds;
    assert s[..|s| - 6] == ys;
    assert s[|s| - 5..|s| - 3] == ms;
    assert s[|s| - 2..] == ds;
  }

  /** The year part has four or more digits exactly when the year is at least 1000. */
  lemma FormatDateYearDigits(t: TimeValue)
    requires YearFromTime(t) >= 0
    ensures var s := FormatDateForInput(Some(t));
      |s| >= 10 <==> YearFromTime(t) >= 1000
  {
    var c := CivilOf(t);
    PadStart2Numeral(c.month + 1);
    PadStart2Numeral(c.date);
    NatToStringLength(c.year);
  }

  // ---------------------------------------------------------------------
  // Relative time: the unit and the signed magnitude passed to Intl.RelativeTimeFormat

  datatype TimeUnit = Second | Minute | Hour | DayUnit | Month | Year

  datatype Relative = Relative(value: int, unit: TimeUnit)

  function Sign(x: int): int
  {
    if x < 0 then -1 else if x == 0 then 0 else 1
  }

  function Abs(x: int): nat
  {
    if x < 0 then -x else x
  }

  /** `sign * Math.abs(x)` for a sign of -1, 0 or 1, written as a case split. */
  function Signed(sign: int, x: int): int
  {
    if sign < 0 then -(Abs(x) as int) else if sign == 0 then 0 else Abs(x)
  }

  lemma SignedIsProduct(sign: int, x: int)
    requires -1 <= sign <= 1
    ensures Signed(sign, x) == sign * Abs(x)
  {
  }

  /**
    `getRelativeTimeString`: whole elapsed seconds (floored), then the first of
    minutes, hours, days, 30-day months whose magnitude is under its threshold,
    else 365-day years.  The value's sign is the opposite of the elapsed time.
  */
  function RelativeTime(date: TimeValue, now: TimeValue): (r: Relative)
    ensures r.value > 0 ==> date > now
    ensures r.value < 0 ==> date < now
    ensures r.unit == Second ==> -1 <= r.value <= 1
    ensures r.unit == Minute ==> 1 <= Abs(r.value) < 60
    ensures r.unit == Hour ==> 1 <= Abs(r.value) < 24
    ensures r.unit == DayUnit ==> 1 <= Abs(r.value) < 30
    ensures r.unit == Month ==> 1 <= Abs(r.value) < 12
    ensures r.unit != Year && now - date >= MsPerSecond ==> r.value < 0
    ensures r.unit != Year && date > now ==> r.value > 0
  {
    var s := (now - date) / 1000;
    var sign := -Sign(s);
    if Abs(s) < 60 then Relative(sign, Second)
    else
      var minutes := s / 60;
      if Abs(minutes) < 60 then Relative(Signed(sign, minutes), Minute)
      else
        var hours := minutes / 60;
        if Abs(hours) < 24 then Relative(Signed(sign, hours), Hour)
        else
          var days := hours / 24;
          if Abs(days) < 30 then Relative(Signed(sign, days), DayUnit)
          else
            var months := days / 30;
            if Abs(months) < 12 then Relative(Signed(sign, months), Month)
            else Relative(Signed(sign, days / 365), Year)
  }

  /** For a date in the past, the unit is chosen by thresholds on the elapsed whole seconds. */
  lemma RelativeTimePast(date: TimeValue, now: TimeValue)
    requires date <= now
    ensures var s := (now - date) / 1000; var r := RelativeTime(date, now);
      (r.unit == Second <==> s < 60) &&
      (r.unit == Minute <==> 60 <= s < 3600) &&
      (r.unit == Hour <==> 3600 <= s < 86400) &&
      (r.unit == DayUnit <==> 86400 <= s < 30 * 86400) &&
      (r.unit == Month <==> 30 * 86400 <= s < 360 * 86400) &&
      (r.unit == Year <==> 360 * 86400 <= s)
  {
    var s := (now - date) / 1000;
    assert s >= 0;
    var m := s / 60;
    var h := m / 60;
    var d := h / 24;
    assert m < 60 <==> s < 3600;
    assert h < 24 <==> s < 86400;
    assert d < 30 <==> s < 30 * 86400;
    assert d / 30 < 12 <==> s < 360 * 86400;
  }

  /**
    The chain of floors of `getRelativeTimeString` is one floor of the
    difference now - date by each unit's length.
  */
  lemma UnitFloors(e: int)
    ensures e / 1000 / 60 == e / MsPerMinute
    ensures e / 1000 / 60 / 60 == e / MsPerHour
    ensures e / 1000 / 60 / 60 / 24 == e / MsPerDay
    ensures e / 1000 / 60 / 60 / 24 / 30 == e / (30 * MsPerDay)
    ensures e / 1000 / 60 / 60 / 24 / 365 == e / (365 * MsPerDay)
  {
  }

  /**
    The value passed with each unit, for past and future dates alike: minus
    the difference now - date floored by the unit's length (for a future
    date this is the difference rounded up); for seconds only its sign.
  */
  lemma RelativeTimeValue(date: TimeValue, now: TimeValue)
    ensures var e, r := now - date, RelativeTime(date, now);
      (r.unit == Second ==> r.value == if e >= 1000 then -1 else if e >= 0 then 0 else 1) &&
      (r.unit == Minute ==> r.value == -(e / MsPerMinute)) &&
      (r.unit == Hour ==> r.value == -(e / MsPerHour)) &&
      (r.unit == DayUnit ==> r.value == -(e / MsPerDay)) &&
      (r.unit == Month ==> r.value == -(e / (30 * MsPerDay))) &&
      (r.unit == Year ==> r.value == -(e / (365 * MsPerDay)))
  {
    ShortUnitValue(date, now);
    LongUnitValue(date, now);
  }

  lemma ShortUnitValue(date: TimeValue, now: TimeValue)
    ensures var e, r := now - date, RelativeTime(date, now);
      (r.unit == Second ==> r.value == if e >= 1000 then -1 else if e >= 0 then 0 else 1) &&
      (r.unit == Minute ==> r.value == -(e / MsPerMinute)) &&
      (r.unit == Hour ==> r.value == -(e / MsPerHour))
  {
    UnitFloors(now - date);
  }

  lemma LongUnitValue(date: TimeValue, now: TimeValue)
    ensures var e, r := now - date, RelativeTime(date, now);
      (r.unit == DayUnit ==> r.value == -(e / MsPerDay)) &&
      (r.unit == Month ==> r.value == -(e / (30 * MsPerDay))) &&
      (r.unit == Year ==> r.value == -(e / (365 * MsPerDay)))
  {
    UnitFloors(now - date);
  }

  /**
    For a date in the future, the unit is chosen by thresholds on the time
    ahead that differ from the past ones: seconds up to 59 s ahead, minutes
    up to 59 min, hours up to 23 h, days up to 29 days, months up to 330 days.
  */
  lemma RelativeTimeFuture(date: TimeValue, now: TimeValue)
    requires date > now
    ensures var f, r := date - now, RelativeTime(date, now);
      (r.unit == Second <==> f <= 59 * MsPerSecond) &&
      (r.unit == Minute <==> 59 * MsPerSecond < f <= 59 * MsPerMinute) &&
      (r.unit == Hour <==> 59 * MsPerMinute < f <= 23 * MsPerHour) &&
      (r.unit == DayUnit <==> 23 * MsPerHour < f <= 29 * MsPerDay) &&
      (r.unit == Month <==> 29 * MsPerDay < f <= 330 * MsPerDay) &&
      (r.unit == Year <==> 330 * MsPerDay < f)
  {
    UnitFloors(now - date);
  }

  /** 59 minutes 59 seconds ahead already reads as one hour ahead. */
  lemma RelativeTimeAlmostHourAhead(now: TimeValue)
    ensures RelativeTime(now + 3599000, now) == Relative(1, Hour)
  {
    RelativeTimeFuture(now + 3599000, now);
    RelativeTimeValue(now + 3599000, now);
  }

  /** Between 360 and 364 days ago the result is 0 years. */
  lemma RelativeTimeZeroYears(now: TimeValue)
    ensures RelativeTime(now - 362 * MsPerDay, now) == Relative(0, Year)
  {
  }
}
