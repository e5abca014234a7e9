/**
  The month view of admin-dashboard/src/pages/Calendar.tsx: a grid of leading
  blank cells followed by the days of the shown month, the sample events of
  that month, and navigation between months.  The shown month is the state
  field `currentDate`; `new Date()` is the parameter `now`.
*/
module CalendarPage {
  import opened Wrappers
  import opened CivilTime
  import opened Seqs

  datatype EventKind = ShiftEvent | MeetingEvent | TimeOffEvent

  datatype CalendarEvent = CalendarEvent(id: int, title: string, date: TimeValue, kind: EventKind, time: string)

  /** The four sample events, on days 15, 18, 20 and 25 of the shown month. */
  function SampleEvents(current: TimeValue): seq<CalendarEvent>
  {
    var y, m := YearFromTime(current), MonthFromTime(current);
    [ CalendarEvent(1, "Morning Shift", NewDate(y, m, 15), ShiftEvent, "8:00 AM - 12:00 PM"),
      CalendarEvent(2, "Team Meeting", NewDate(y, m, 18), MeetingEvent, "2:00 PM - 3:30 PM"),
      CalendarEvent(3, "Evening Shift", NewDate(y, m, 20), ShiftEvent, "5:00 PM - 10:00 PM"),
      CalendarEvent(4, "Time Off Request", NewDate(y, m, 25), TimeOffEvent, "All Day") ]
  }

  /** `getDaysInMonth`: the date of day 0 of the next month, i.e. the length of the month. */
  function GetDaysInMonth(year: int, month: int): (r: int)
    ensures r == MonthLength(12 * FullYear(year) + month)
    ensures 28 <= r <= 31
  {
    var k := 12 * FullYear(year) + month;
    assert NewDate(year, month + 1, 0) == MakeDate(MonthStart(k + 1) - 1, 0);
    DayBeforeIndex(k);
    DateFromTime(NewDate(year, month + 1, 0))
  }

  lemma DayBeforeIndex(k: int)
    ensures DateFromTime(MakeDate(MonthStart(k + 1) - 1, 0)) == MonthLength(k)
    ensures 28 <= MonthLength(k) <= 31
  {
    MonthStartStep(k);
    ReadBackDay(k, MonthLength(k));
  }

  /** Day d of month index k reads back as that day. */
  lemma ReadBackDay(k: int, d: int)
    requires 1 <= d <= MonthLength(k)
    ensures CivilOf(MakeDate(MonthStart(k) + d - 1, 0)) == Civil(k / 12, k % 12, d)
  {
    var c := Civil(k / 12, k % 12, d);
    assert 12 * (k / 12) + k % 12 == k;
    CivilOfMakeDate(k / 12, k % 12, d, 0);
    NormalizeValid(c);
  }

  /** For a month 0..11 the count follows the Gregorian rules; February has 29 days exactly in leap years. */
  lemma DaysInMonthGregorian(year: int, month: int)
    requires 0 <= month < 12
    ensures GetDaysInMonth(year, month) == DaysInMonth(FullYear(year), month)
    ensures GetDaysInMonth(year, month) == 29 <==> month == 1 && IsLeapYear(FullYear(year))
    ensures GetDaysInMonth(year, month) == 28 <==> month == 1 && !IsLeapYear(FullYear(year))
  {
    MonthLengthOfIndex(FullYear(year), month);
    FebruaryRule(FullYear(year), month, GetDaysInMonth(year, month));
  }

  lemma FebruaryRule(y: int, m: int, n: int)
    requires 0 <= m < 12 && n == DaysInMonth(y, m)
    ensures n == 29 <==> m == 1 && IsLeapYear(y)
    ensures n == 28 <==> m == 1 && !IsLeapYear(y)
  {
  }

  /** `getFirstDayOfMonth`: the week day of day 1, 0 for Sunday. */
  function GetFirstDayOfMonth(year: int, month: int): (r: int)
    ensures 0 <= r < 7
    ensures r == (MakeDay(FullYear(year), month, 1) + 4) % 7
  {
    WeekDay(NewDate(year, month, 1))
  }

  /** The grid of the month: `firstDay` blanks, then a cell for each day 1..daysInMonth. */
  function CalendarDays(year: int, month: int): seq<Option<TimeValue>>
  {
    seq(GetFirstDayOfMonth(year, month), _ => None) +
    seq(GetDaysInMonth(year, month), i => Some(NewDate(year, month, i + 1)))
  }

  /**
    The day cells, in order, are midnight of the days 1..daysInMonth of the
    month: each names day j - firstDay + 1 of that month and lies one day after
    the cell before it.
  */
  lemma CalendarCellsAreTheMonth(year: int, month: int)
    requires 0 <= month < 12
    ensures var days, first := CalendarDays(year, month), GetFirstDayOfMonth(year, month);
      |days| == first + GetDaysInMonth(year, month) &&
      (forall j :: 0 <= j < first ==> days[j].None?) &&
      (forall j :: first <= j < |days| ==>
        days[j].Some? && CivilOf(days[j].value) == Civil(FullYear(year), month, j - first + 1)) &&
      (forall j :: first < j < |days| ==> days[j].Some? && days[j].value == days[j - 1].value + MsPerDay) &&
      (forall j :: first <= j < |days| ==> days[j].Some? && WeekDay(days[j].value) == j % 7)
  {
    CellsReadBack(year, month);
    CellsConsecutive(year, month);
    CellsInWeekDayColumns(year, month);
  }

  /** The blanks put every day in the column of its week day, Sunday first. */
  lemma CellsInWeekDayColumns(year: int, month: int)
    ensures var days, first := CalendarDays(year, month), GetFirstDayOfMonth(year, month);
      forall j :: first <= j < |days| ==> days[j].Some? && WeekDay(days[j].value) == j % 7
  {
    var days, first := CalendarDays(year, month), GetFirstDayOfMonth(year, month);
    forall j | first <= j < |days|
      ensures days[j].Some? && WeekDay(days[j].value) == j % 7
    {
      CellWeekDay(year, month, j);
    }
  }

  lemma CellWeekDay(year: int, month: int, j: int)
    requires GetFirstDayOfMonth(year, month) <= j < |CalendarDays(year, month)|
    ensures CalendarDays(year, month)[j].Some? && WeekDay(CalendarDays(year, month)[j].value) == j % 7
  {
    var first := GetFirstDayOfMonth(year, month);
    var i := j - first + 1;
    var a := MakeDay(FullYear(year), month, 1);
    CellAt(year, month, j);
    MakeDayShift(FullYear(year), month, 1, i - 1);
    assert 1 + (i - 1) == i;
    DayOfMakeDate(MakeDay(FullYear(year), month, i), 0);
    WeekColumn(a + 4, first, j);
  }

  /** Counting from a day in column `first`, the day j - first later sits in column j. */
  lemma WeekColumn(a: int, first: int, j: int)
    requires first == a % 7
    ensures (a + (j - first)) % 7 == j % 7
  {
    assert a == 7 * (a / 7) + first;
  }

  lemma CellsReadBack(year: int, month: int)
    requires 0 <= month < 12
    ensures var days, first := CalendarDays(year, month), GetFirstDayOfMonth(year, month);
      forall j :: first <= j < |days| ==>
        days[j].Some? && CivilOf(days[j].value) == Civil(FullYear(year), month, j - first + 1)
  {
    var days, first := CalendarDays(year, month), GetFirstDayOfMonth(year, month);
    forall j | first <= j < |days|
      ensures days[j].Some? && CivilOf(days[j].value) == Civil(FullYear(year), month, j - first + 1)
    {
      CellAt(year, month, j);
      CellReadBack(year, month, j - first + 1);
    }
  }

  lemma CellsConsecutive(year: int, month: int)
    ensures var days, first := CalendarDays(year, month), GetFirstDayOfMonth(year, month);
      forall j :: first < j < |days| ==> days[j].Some? && days[j].value == days[j - 1].value + MsPerDay
  {
    var days, first := CalendarDays(year, month), GetFirstDayOfMonth(year, month);
    forall j | first < j < |days|
      ensures days[j].Some? && days[j].value == days[j - 1].value + MsPerDay
    {
      CellAt(year, month, j);
      CellAt(year, month, j - 1);
      NextCell(year, month, j - first);
    }
  }

  lemma CellAt(year: int, month: int, j: int)
    requires GetFirstDayOfMonth(year, month) <= j < |CalendarDays(year, month)|
    ensures CalendarDays(year, month)[j] == Some(NewDate(year, month, j - GetFirstDayOfMonth(year, month) + 1))
  {
  }

  lemma NextCell(year: int, month: int, i: int)
    ensures NewDate(year, month, i + 1) == NewDate(year, month, i) + MsPerDay
  {
    MakeDayShift(FullYear(year), month, i, 1);
  }

  lemma CellReadBack(year: int, month: int, i: int)
    requires 0 <= month < 12
    requires 1 <= i <= GetDaysInMonth(year, month)
    ensures CivilOf(NewDate(year, month, i)) == Civil(FullYear(year), month, i)
  {
    DaysInMonthGregorian(year, month);
    CivilOfMakeDate(FullYear(year), month, i, 0);
    NormalizeValid(Civil(FullYear(year), month, i));
  }

  /** The day of t and the day of the event fall on the same year, month and date. */
  predicate SameDay(a: TimeValue, b: TimeValue)
  {
    DateFromTime(a) == DateFromTime(b) && MonthFromTime(a) == MonthFromTime(b) && YearFromTime(a) == YearFromTime(b)
  }

  /** `getEventsForDay`: [] for a blank cell; otherwise the events on that day, in their order. */
  function GetEventsForDay(day: Option<TimeValue>, events: seq<CalendarEvent>): (r: seq<CalendarEvent>)
    ensures day.None? ==> r == []
    ensures day.Some? ==> forall e :: e in r <==> e in events && CivilOf(e.date) == CivilOf(day.value)
    ensures day.Some? ==> forall e ::
      multiset(r)[e] == if CivilOf(e.date) == CivilOf(day.value) then multiset(events)[e] else 0
    ensures IsSubsequence(r, events)
  {
    match day
    case None => []
    case Some(d) =>
      FilterMultiset(events, (e: CalendarEvent) => SameDay(e.date, d));
      Filter(events, (e: CalendarEvent) => SameDay(e.date, d))
  }

  /** Of the sample events, the cell of day i holds exactly those dated day i. */
  lemma SampleEventsOnTheirDays(current: TimeValue, i: int)
    requires 1 <= i <= 28
    requires !(0 <= YearFromTime(current) <= 99)
    ensures var y, m := YearFromTime(current), MonthFromTime(current);
      forall e :: e in GetEventsForDay(Some(NewDate(y, m, i)), SampleEvents(current)) <==>
        e in SampleEvents(current) && CivilOf(e.date) == Civil(y, m, i)
  {
    var y, m := YearFromTime(current), MonthFromTime(current);
    CivilOfMakeDate(y, m, i, 0);
    NormalizeValid(Civil(y, m, i));
  }

  class Calendar {
    var currentDate: TimeValue

    constructor (now: TimeValue)
      ensures currentDate == now
    {
      currentDate := now;
    }

    /** `generateCalendarDays`: the blanks, then the days, pushed by two loops. */
    method GenerateCalendarDays() returns (days: seq<Option<TimeValue>>)
      ensures days == CalendarDays(YearFromTime(currentDate), MonthFromTime(currentDate))
    {
      var year := YearFromTime(currentDate);
      var month := MonthFromTime(currentDate);
      var daysInMonth := GetDaysInMonth(year, month);
      var firstDay := GetFirstDayOfMonth(year, month);
      days := [];
      var i := 0;
      while i < firstDay
        invariant 0 <= i <= firstDay
        invariant days == seq(i, _ => None)
      {
        days := days + [None];
        i := i + 1;
      }
      i := 1;
      while i <= daysInMonth
        invariant 1 <= i <= daysInMonth + 1
        invariant days == seq(firstDay, _ => None) + seq(i - 1, j => Some(NewDate(year, month, j + 1)))
      {
        days := days + [Some(NewDate(year, month, i))];
        i := i + 1;
      }
    }

    /** `goToPreviousMonth`: day 1 of the month before. */
    method GoToPreviousMonth()
      modifies this
      ensures currentDate == NewDate(YearFromTime(old(currentDate)), MonthFromTime(old(currentDate)) - 1, 1)
    {
      currentDate := NewDate(YearFromTime(currentDate), MonthFromTime(currentDate) - 1, 1);
    }

    /** `goToNextMonth`: day 1 of the month after. */
    method GoToNextMonth()
      modifies this
      ensures currentDate == NewDate(YearFromTime(old(currentDate)), MonthFromTime(old(currentDate)) + 1, 1)
    {
      currentDate := NewDate(YearFromTime(currentDate), MonthFromTime(currentDate) + 1, 1);
    }

    /** `goToToday`. */
    method GoToToday(now: TimeValue)
      modifies this
      ensures currentDate == now
    {
      currentDate := now;
    }
  }

  /** The first day of the month after t's, wrapping into January of the next year. */
  function NextMonthStart(c: Civil): Civil
  {
    if c.month == 11 then Civil(c.year + 1, 0, 1) else Civil(c.year, c.month + 1, 1)
  }

  /** The first day of the month before t's, wrapping into December of the previous year. */
  function PreviousMonthStart(c: Civil): Civil
  {
    if c.month == 0 then Civil(c.year - 1, 11, 1) else Civil(c.year, c.month - 1, 1)
  }

  /** `new Date(year, month, 1)` for a month index that equals 12 * y + m is day 1 of month m of year y. */
  lemma FirstOfMonthReadBack(year: int, month: int, y: int, m: int)
    requires 0 <= m < 12 && 12 * FullYear(year) + month == 12 * y + m
    ensures CivilOf(NewDate(year, month, 1)) == Civil(y, m, 1)
  {
    assert NewDate(year, month, 1) == MakeDate(MonthStart(12 * y + m) + 1 - 1, 0);
    FirstOfIndexReadBack(12 * y + m, y, m);
  }

  /** Midnight of the first day of month index k = 12 * y + m reads back as day 1 of month m of year y. */
  lemma FirstOfIndexReadBack(k: int, y: int, m: int)
    requires 0 <= m < 12 && k == 12 * y + m
    ensures CivilOf(MakeDate(MonthStart(k) + 1 - 1, 0)) == Civil(y, m, 1)
  {
    assert k / 12 == y && k % 12 == m;
    ReadBackDay(k, 1);
  }

  /** Next month lands on day 1 of the following month, wrapping the year. */
  lemma NextMonthLands(t: TimeValue)
    requires !(0 <= YearFromTime(t) <= 99)
    ensures CivilOf(NewDate(YearFromTime(t), MonthFromTime(t) + 1, 1)) == NextMonthStart(CivilOf(t))
  {
    var c := CivilOf(t);
    if c.month == 11 {
      FirstOfMonthReadBack(c.year, c.month + 1, c.year + 1, 0);
    } else {
      FirstOfMonthReadBack(c.year, c.month + 1, c.year, c.month + 1);
    }
  }

  /** Previous month lands on day 1 of the preceding month, wrapping the year. */
  lemma PreviousMonthLands(t: TimeValue)
    requires !(0 <= YearFromTime(t) <= 99)
    ensures CivilOf(NewDate(YearFromTime(t), MonthFromTime(t) - 1, 1)) == PreviousMonthStart(CivilOf(t))
  {
    var c := CivilOf(t);
    if c.month == 0 {
      FirstOfMonthReadBack(c.year, c.month - 1, c.year - 1, 11);
    } else {
      FirstOfMonthReadBack(c.year, c.month - 1, c.year, c.month - 1);
    }
  }

  /**
    In years 0..99 both buttons go through `new Date(y, m, 1)`, which reads
    the year as 1900 + y: the calendar jumps to the month after or before
    the same month 1900 years later.
  */
  lemma NavigationTwoDigitYear(t: TimeValue)
    requires 0 <= YearFromTime(t) <= 99
    ensures var later := Civil(YearFromTime(t) + 1900, MonthFromTime(t), 1);
      CivilOf(NewDate(YearFromTime(t), MonthFromTime(t) + 1, 1)) == NextMonthStart(later) &&
      CivilOf(NewDate(YearFromTime(t), MonthFromTime(t) - 1, 1)) == PreviousMonthStart(later)
  {
    var c := CivilOf(t);
    if c.month == 11 {
      FirstOfMonthReadBack(c.year, c.month + 1, c.year + 1901, 0);
    } else {
      FirstOfMonthReadBack(c.year, c.month + 1, c.year + 1900, c.month + 1);
    }
    if c.month == 0 {
      FirstOfMonthReadBack(c.year, c.month - 1, c.year + 1899, 11);
    } else {
      FirstOfMonthReadBack(c.year, c.month - 1, c.year + 1900, c.month - 1);
    }
  }

  /** From any day of January of year 50, the previous-month button shows December 1949. */
  lemma PreviousFromJanuary50()
    ensures CivilOf(NewDate(50, -1, 1)) == Civil(1949, 11, 1)
  {
    FirstOfMonthReadBack(50, -1, 1949, 11);
  }

  /** Day 1 of month m of year y, with the year taken as given, as `setFullYear(y, m, 1)` would set it. */
  function MonthFirstDay(y: int, m: int): TimeValue
  {
    MakeDate(MakeDay(y, m, 1), 0)
  }

  /** `goToNextMonth` as evidently intended: day 1 of the month after, for every year. */
  function NextMonthDate(t: TimeValue): TimeValue
  {
    MonthFirstDay(YearFromTime(t), MonthFromTime(t) + 1)
  }

  /** `goToPreviousMonth` as evidently intended: day 1 of the month before, for every year. */
  function PreviousMonthDate(t: TimeValue): TimeValue
  {
    MonthFirstDay(YearFromTime(t), MonthFromTime(t) - 1)
  }

  /** Day 1 of a month index that equals 12 * y + m reads back as day 1 of month m of year y. */
  lemma MonthFirstDayReadBack(year: int, month: int, y: int, m: int)
    requires 0 <= m < 12 && 12 * year + month == 12 * y + m
    ensures CivilOf(MonthFirstDay(year, month)) == Civil(y, m, 1)
  {
    assert MonthFirstDay(year, month) == MakeDate(MonthStart(12 * y + m) + 1 - 1, 0);
    FirstOfIndexReadBack(12 * y + m, y, m);
  }

  /** The intended navigation lands on the neighbouring month's first day in every year, 0..99 included. */
  lemma IntendedNavigationLands(t: TimeValue)
    ensures CivilOf(NextMonthDate(t)) == NextMonthStart(CivilOf(t))
    ensures CivilOf(PreviousMonthDate(t)) == PreviousMonthStart(CivilOf(t))
  {
    IntendedNextLands(t);
    IntendedPreviousLands(t);
  }

  lemma IntendedNextLands(t: TimeValue)
    ensures CivilOf(NextMonthDate(t)) == NextMonthStart(CivilOf(t))
  {
    var c := CivilOf(t);
    if c.month == 11 {
      MonthFirstDayReadBack(c.year, c.month + 1, c.year + 1, 0);
    } else {
      MonthFirstDayReadBack(c.year, c.month + 1, c.year, c.month + 1);
    }
  }

  lemma IntendedPreviousLands(t: TimeValue)
    ensures CivilOf(PreviousMonthDate(t)) == PreviousMonthStart(CivilOf(t))
  {
    var c := CivilOf(t);
    if c.month == 0 {
      MonthFirstDayReadBack(c.year, c.month - 1, c.year - 1, 11);
    } else {
      MonthFirstDayReadBack(c.year, c.month - 1, c.year, c.month - 1);
    }
  }

  /** With the intended navigation, next then previous returns to day 1 of the starting month in every year. */
  lemma IntendedNextThenPrevious(t: TimeValue)
    ensures CivilOf(PreviousMonthDate(NextMonthDate(t))) == Civil(YearFromTime(t), MonthFromTime(t), 1)
  {
    IntendedNavigationLands(t);
    IntendedNavigationLands(NextMonthDate(t));
  }

  /** Next followed by previous returns to day 1 of the starting month. */
  lemma NextThenPrevious(t: TimeValue)
    requires !(-1 <= YearFromTime(t) <= 99)
    ensures var next := NewDate(YearFromTime(t), MonthFromTime(t) + 1, 1);
      CivilOf(NewDate(YearFromTime(next), MonthFromTime(next) - 1, 1)) ==
        Civil(YearFromTime(t), MonthFromTime(t), 1)
  {
    var next := NewDate(YearFromTime(t), MonthFromTime(t) + 1, 1);
    NextMonthLands(t);
    PreviousMonthLands(next);
  }
}
