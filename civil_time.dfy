/**
  Calendar arithmetic of ECMAScript Date objects (section 21.4.1 of ECMA-262),
  with local time taken to be UTC.  A Date is its time value: a whole number of
  milliseconds since 1970-01-01T00:00:00.000.  Firestore timestamps are
  represented by the same time value.

  The setters used by the dashboard (setHours, setDate, setMonth, setFullYear)
  and the constructor `new Date(y, m, d)` all go through MakeDay, which lets a
  month or a date overflow into the neighbouring months.  The getters
  (getFullYear, getMonth, getDate) read the civil date back through CivilOf,
  which carries a day number into a valid calendar date.
*/
module CivilTime {

  /** Milliseconds since the epoch; the value a Date or a Timestamp stands for. */
  type TimeValue = int

  const MsPerSecond: int := 1000
  const MsPerMinute: int := 60000
  const MsPerHour: int := 3600000
  const MsPerDay: int := 86400000

  predicate IsLeapYear(y: int)
  {
    y % 4 == 0 && (y % 100 != 0 || y % 400 == 0)
  }

  function DaysInYear(y: int): int
  {
    if IsLeapYear(y) then 366 else 365
  }

  /** Days in month m (0 = January) of year y, by the Gregorian rules. */
  function DaysInMonth(y: int, m: int): int
    requires 0 <= m < 12
  {
    if m == 1 then (if IsLeapYear(y) then 29 else 28)
    else if m == 3 || m == 5 || m == 8 || m == 10 then 30
    else 31
  }

  /** Days in the months of year y that precede month m. */
  function DaysBeforeMonth(y: int, m: int): int
    requires 0 <= m <= 12
  {
    if m == 0 then 0 else DaysBeforeMonth(y, m - 1) + DaysInMonth(y, m - 1)
  }

  /** Day number of 1 January of year y (DayFromYear of ECMA-262). */
  function DayFromYear(y: int): int
  {
    365 * (y - 1970) + (y - 1969) / 4 - (y - 1901) / 100 + (y - 1601) / 400
  }

  /** A month index k stands for month k % 12 of year k / 12 (floor division). */
  function MonthStart(k: int): int
  {
    DayFromYear(k / 12) + DaysBeforeMonth(k / 12, k % 12)
  }

  function MonthLength(k: int): int
  {
    DaysInMonth(k / 12, k % 12)
  }

  /** Month index 12 * y + m splits back into year y and month m. */
  lemma IndexSplit(y: int, m: int)
    requires 0 <= m < 12
    ensures (12 * y + m) / 12 == y && (12 * y + m) % 12 == m
  {
  }

  /** Month index 12 * y + m is month m of year y. */
  lemma MonthLengthOfIndex(y: int, m: int)
    requires 0 <= m < 12
    ensures MonthLength(12 * y + m) == DaysInMonth(y, m)
  {
    var k := 12 * y + m;
    assert k / 12 == y && k % 12 == m;
  }

  /**
    MakeDay of ECMA-262: month and date may lie outside their usual ranges;
    the year absorbs floor(month / 12) and the date counts on from day 1 of
    the resulting month.
  */
  function MakeDay(year: int, month: int, date: int): int
  {
    MonthStart(12 * year + month) + date - 1
  }

  function MakeTime(hour: int, minute: int, second: int, ms: int): int
  {
    hour * MsPerHour + minute * MsPerMinute + second * MsPerSecond + ms
  }

  function MakeDate(day: int, time: int): TimeValue
  {
    day * MsPerDay + time
  }

  /** Day number of a time value (floor division). */
  function Day(t: TimeValue): int
  {
    t / MsPerDay
  }

  function TimeWithinDay(t: TimeValue): int
  {
    t % MsPerDay
  }

  /** Two-digit years denote 1900 + year when a Date is built from fields (MakeFullYear). */
  function FullYear(year: int): int
  {
    if 0 <= year <= 99 then 1900 + year else year
  }

  /** `new Date(year, month, date)`: midnight of MakeDay, after the two-digit-year rule. */
  function NewDate(year: int, month: int, date: int): TimeValue
  {
    MakeDate(MakeDay(FullYear(year), month, date), 0)
  }

  /** A calendar date; month is 0-based as in getMonth. */
  datatype Civil = Civil(year: int, month: int, date: int)
  {
    predicate Valid()
    {
      0 <= month < 12 && 1 <= date <= DaysInMonth(year, month)
    }

    function DayNumber(): int
    {
      MakeDay(year, month, date)
    }
  }

  lemma DaysBeforeDecember(y: int)
    ensures DaysBeforeMonth(y, 11) + DaysInMonth(y, 11) == DaysInYear(y)
  {
    assert DaysBeforeMonth(y, 1) == 31;
    assert DaysBeforeMonth(y, 2) == DaysBeforeMonth(y, 1) + DaysInMonth(y, 1);
    assert DaysBeforeMonth(y, 3) == DaysBeforeMonth(y, 2) + 31;
    assert DaysBeforeMonth(y, 4) == DaysBeforeMonth(y, 3) + 30;
    assert DaysBeforeMonth(y, 5) == DaysBeforeMonth(y, 4) + 31;
    assert DaysBeforeMonth(y, 6) == DaysBeforeMonth(y, 5) + 30;
    assert DaysBeforeMonth(y, 7) == DaysBeforeMonth(y, 6) + 31;
    assert DaysBeforeMonth(y, 8) == DaysBeforeMonth(y, 7) + 31;
    assert DaysBeforeMonth(y, 9) == DaysBeforeMonth(y, 8) + 30;
    assert DaysBeforeMonth(y, 10) == DaysBeforeMonth(y, 9) + 31;
    assert DaysBeforeMonth(y, 11) == DaysBeforeMonth(y, 10) + 30;
  }

  /** The day-of-year formula advances by the length of the year. */
  lemma DayFromYearStep(y: int)
    ensures DayFromYear(y + 1) == DayFromYear(y) + DaysInYear(y)
  {
    LeapDayStep4(y);
    LeapDayStep100(y);
    LeapDayStep400(y);
    DivisorChain(y);
  }

  lemma DivisorChain(y: int)
    ensures y % 400 == 0 ==> y % 100 == 0
    ensures y % 100 == 0 ==> y % 4 == 0
  {
    if y % 400 == 0 {
      assert y == 400 * (y / 400);
      assert y == 100 * (4 * (y / 400));
    }
    if y % 100 == 0 {
      assert y == 100 * (y / 100);
      assert y == 4 * (25 * (y / 100));
    }
  }

  lemma LeapDayStep4(y: int)
    ensures (y - 1968) / 4 - (y - 1969) / 4 == if y % 4 == 0 then 1 else 0
  {
  }

  lemma LeapDayStep100(y: int)
    ensures (y - 1900) / 100 - (y - 1901) / 100 == if y % 100 == 0 then 1 else 0
  {
  }

  lemma LeapDayStep400(y: int)
    ensures (y - 1600) / 400 - (y - 1601) / 400 == if y % 400 == 0 then 1 else 0
  {
  }

  /** Consecutive month indices start one month length apart. */
  lemma MonthStartStep(k: int)
    ensures MonthStart(k + 1) == MonthStart(k) + MonthLength(k)
  {
    var y, m := k / 12, k % 12;
    if m < 11 {
      assert (k + 1) / 12 == y && (k + 1) % 12 == m + 1;
    } else {
      assert (k + 1) / 12 == y + 1 && (k + 1) % 12 == 0;
      DayFromYearStep(y);
      DaysBeforeDecember(y);
    }
  }

  lemma MonthStartBelow(k1: int, k2: int)
    requires k1 < k2
    ensures MonthStart(k1) + MonthLength(k1) <= MonthStart(k2)
    decreases k2 - k1
  {
    MonthStartStep(k1);
    if k1 + 1 < k2 {
      MonthStartBelow(k1 + 1, k2);
    }
  }

  /**
    Carry an out-of-range date d of month index k into the neighbouring months
    until it names a day of its month; the day number does not change.
  */
  function Carry(k: int, d: int): (r: (int, int))
    ensures 1 <= r.1 <= MonthLength(r.0)
    ensures MonthStart(r.0) + r.1 == MonthStart(k) + d
    decreases (if d < 1 then 1 - d else 0), d
  {
    if d < 1 then
      MonthStartStep(k - 1);
      Carry(k - 1, d + MonthLength(k - 1))
    else if d > MonthLength(k) then
      MonthStartStep(k);
      Carry(k + 1, d - MonthLength(k))
    else
      (k, d)
  }

  /** Every day number is the day number of some valid calendar date. */
  lemma DateOfDayExists(n: int)
    ensures exists c: Civil :: c.Valid() && c.DayNumber() == n
  {
    EpochMonthStart();
    var (k, d) := Carry(12 * 1970 + 0, n + 1);
    assert 12 * (k / 12) + k % 12 == k;
    var c := Civil(k / 12, k % 12, d);
    assert c.Valid() && c.DayNumber() == n;
  }

  /** The one valid calendar date whose day number is n. */
  function DateOfDay(n: int): (c: Civil)
    ensures c.Valid()
    ensures c.DayNumber() == n
  {
    DateOfDayExists(n);
    DayNumbersAreUnique();
    var c: Civil :| c.Valid() && c.DayNumber() == n;
    c
  }

  lemma DayNumbersAreUnique()
    ensures forall a: Civil, b: Civil :: a.Valid() && b.Valid() && a.DayNumber() == b.DayNumber() ==> a == b
  {
    forall a: Civil, b: Civil | a.Valid() && b.Valid() && a.DayNumber() == b.DayNumber()
      ensures a == b
    {
      DayNumberInjective(a, b);
    }
  }

  /** The valid calendar date that MakeDay(year, month, date) denotes. */
  function Normalize(year: int, month: int, date: int): (c: Civil)
    ensures c.Valid()
    ensures c.DayNumber() == MakeDay(year, month, date)
  {
    DateOfDay(MakeDay(year, month, date))
  }

  lemma EpochMonthStart()
    ensures MonthStart(12 * 1970 + 0) == 0
  {
    assert (12 * 1970 + 0) / 12 == 1970 && (12 * 1970 + 0) % 12 == 0;
    assert DayFromYear(1970) == 0;
  }

  /** The calendar date of a time value: getFullYear, getMonth and getDate. */
  function CivilOf(t: TimeValue): (c: Civil)
    ensures c.Valid()
    ensures c.DayNumber() == Day(t)
  {
    DateOfDay(Day(t))
  }

  function YearFromTime(t: TimeValue): int { CivilOf(t).year }

  function MonthFromTime(t: TimeValue): int { CivilOf(t).month }

  function DateFromTime(t: TimeValue): int { CivilOf(t).date }

  /** getDay: 0 = Sunday; the epoch was a Thursday. */
  function WeekDay(t: TimeValue): int
  {
    (Day(t) + 4) % 7
  }

  /** `d.setHours(h, mi, s, ms)`: same day, new clock. */
  function SetHours(t: TimeValue, h: int, mi: int, s: int, ms: int): TimeValue
  {
    MakeDate(Day(t), MakeTime(h, mi, s, ms))
  }

  /** `d.setDate(dt)`: same year, month and clock; the date may overflow. */
  function SetDate(t: TimeValue, dt: int): TimeValue
  {
    MakeDate(MakeDay(YearFromTime(t), MonthFromTime(t), dt), TimeWithinDay(t))
  }

  /** `d.setMonth(mo)`: same year, date and clock; the month and then the date may overflow. */
  function SetMonth(t: TimeValue, mo: int): TimeValue
  {
    MakeDate(MakeDay(YearFromTime(t), mo, DateFromTime(t)), TimeWithinDay(t))
  }

  /** `d.setFullYear(y)`: same month, date and clock. */
  function SetFullYear(t: TimeValue, y: int): TimeValue
  {
    MakeDate(MakeDay(y, MonthFromTime(t), DateFromTime(t)), TimeWithinDay(t))
  }

  /** Two valid dates with the same day number are the same date. */
  lemma DayNumberInjective(a: Civil, b: Civil)
    requires a.Valid() && b.Valid()
    requires a.DayNumber() == b.DayNumber()
    ensures a == b
  {
    SameDayInSameMonth(a.year, a.month, a.date, b.year, b.month, b.date);
  }

  /** Dates inside their months that have one day number have one year, month and date. */
  lemma SameDayInSameMonth(ya: int, ma: int, da: int, yb: int, mb: int, db: int)
    requires 0 <= ma < 12 && 1 <= da <= DaysInMonth(ya, ma)
    requires 0 <= mb < 12 && 1 <= db <= DaysInMonth(yb, mb)
    requires MakeDay(ya, ma, da) == MakeDay(yb, mb, db)
    ensures ya == yb && ma == mb && da == db
  {
    var ka, kb := 12 * ya + ma, 12 * yb + mb;
    MonthLengthOfIndex(ya, ma);
    MonthLengthOfIndex(yb, mb);
    if ka < kb {
      MonthStartBelow(ka, kb);
    } else if kb < ka {
      MonthStartBelow(kb, ka);
    }
    IndexSplit(ya, ma);
    IndexSplit(yb, mb);
  }

  lemma DayOfMakeDate(day: int, time: int)
    requires 0 <= time < MsPerDay
    ensures Day(MakeDate(day, time)) == day
    ensures TimeWithinDay(MakeDate(day, time)) == time
  {
  }

  /** Reading back a date written with MakeDay gives its normalised form. */
  lemma CivilOfMakeDate(year: int, month: int, date: int, time: int)
    requires 0 <= time < MsPerDay
    ensures CivilOf(MakeDate(MakeDay(year, month, date), time)) == Normalize(year, month, date)
    ensures Day(MakeDate(MakeDay(year, month, date), time)) == MakeDay(year, month, date)
  {
    DayOfMakeDate(MakeDay(year, month, date), time);
    DayNumberInjective(CivilOf(MakeDate(MakeDay(year, month, date), time)), Normalize(year, month, date));
  }

  /** A valid date is its own normal form. */
  lemma NormalizeValid(c: Civil)
    requires c.Valid()
    ensures Normalize(c.year, c.month, c.date) == c
  {
    DayNumberInjective(Normalize(c.year, c.month, c.date), c);
  }

  /** The time value's own date, rebuilt with MakeDay, names the same day. */
  lemma MakeDayOfCivil(t: TimeValue)
    ensures MakeDay(YearFromTime(t), MonthFromTime(t), DateFromTime(t)) == Day(t)
  {
  }

  /** MakeDay counts dates linearly within one month index. */
  lemma MakeDayShift(year: int, month: int, date: int, n: int)
    ensures MakeDay(year, month, date + n) == MakeDay(year, month, date) + n
  {
  }

  /** setDate moves a time value by whole days and keeps its clock. */
  lemma DayOfSetDate(t: TimeValue, dt: int)
    ensures Day(SetDate(t, dt)) == Day(t) + dt - DateFromTime(t)
    ensures TimeWithinDay(SetDate(t, dt)) == TimeWithinDay(t)
  {
    var y, m, d := YearFromTime(t), MonthFromTime(t), DateFromTime(t);
    MakeDayOfCivil(t);
    MakeDayShift(y, m, d, dt - d);
    assert d + (dt - d) == dt;
    DayOfMakeDate(MakeDay(y, m, dt), TimeWithinDay(t));
  }

  /** Time values on earlier days are earlier. */
  lemma DayOrder(a: TimeValue, b: TimeValue)
    requires Day(a) < Day(b)
    ensures a < b
  {
    assert a == Day(a) * MsPerDay + TimeWithinDay(a);
    assert b == Day(b) * MsPerDay + TimeWithinDay(b);
    assert (Day(a) + 1) * MsPerDay <= Day(b) * MsPerDay;
  }
}
