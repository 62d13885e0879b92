/** The part of the JavaScript `Date` object the sheet service uses: a
    calendar instant read through `getFullYear`, `getMonth`, `getDate`,
    `getHours`, `getMinutes` and `getTime`, built by `new Date(y, m, d)`
    and changed in place by `setHours(h, m)`. Local time is taken to be UTC. */
module JsDate {
  import opened Wrappers

  /** An instant as its calendar fields; `month` is 0-based as `getMonth()` gives it. */
  datatype DateTime = DateTime(year: int, month: int, day: int,
                               hour: int, minute: int, second: int, ms: int)

  predicate IsLeap(y: int) {
    y % 4 == 0 && (y % 100 != 0 || y % 400 == 0)
  }

  function DaysInMonth(y: int, m: int): (n: int)
    requires 0 <= m < 12
    ensures 28 <= n <= 31
  {
    if m == 1 then (if IsLeap(y) then 29 else 28)
    else if m == 3 || m == 5 || m == 8 || m == 10 then 30
    else 31
  }

  /** Every field is within its calendar range. */
  predicate WellFormed(d: DateTime) {
    0 <= d.month < 12 && 1 <= d.day <= DaysInMonth(d.year, d.month) &&
    0 <= d.hour < 24 && 0 <= d.minute < 60 && 0 <= d.second < 60 && 0 <= d.ms < 1000
  }

  /** DayFromYear of ECMA-262 section 21.4.1.3: days from 1970-01-01 to the
      first day of year `y` (Dafny's `/` floors for a positive divisor). */
  function DayFromYear(y: int): int {
    365 * (y - 1970) + (y - 1969) / 4 - (y - 1901) / 100 + (y - 1601) / 400
  }

  /** Days of year `y` before the first day of month `m`. */
  function DaysBeforeMonth(y: int, m: int): int
    requires 0 <= m <= 12
    decreases m
  {
    if m == 0 then 0 else DaysBeforeMonth(y, m - 1) + DaysInMonth(y, m - 1)
  }

  /** Days from 1970-01-01 to day `d` of month `m` of year `y`, the day
      counted from 1 and allowed to run past the month. */
  function CivilDay(y: int, m: int, d: int): int
    requires 0 <= m <= 12
  {
    DayFromYear(y) + DaysBeforeMonth(y, m) + d - 1
  }

  /** Days from 1970-01-01 to the day of `d`, as MakeDay of ECMA-262
      section 21.4.1.28 counts them: a month outside 0..11 carries into the
      year. */
  function DayNumber(d: DateTime): int {
    CivilDay(d.year + d.month / 12, d.month % 12, d.day)
  }

  /** `getTime()`: milliseconds since 1970-01-01T00:00. */
  function TimeValue(d: DateTime): int {
    DayNumber(d) * 86_400_000 + d.hour * 3_600_000 + d.minute * 60_000 + d.second * 1000 + d.ms
  }

  /** The largest time value TimeClip admits (ECMA-262 section 21.4.1.31). */
  const MaxTime: int := 8_640_000_000_000_000

  /** A Date whose time value is not NaN. */
  predicate IsValid(d: DateTime) {
    WellFormed(d) && -MaxTime <= TimeValue(d) <= MaxTime
  }

  /** Keeps a Date the engine produced only when it is a valid one. */
  function Checked(o: Option<DateTime>): (r: Option<DateTime>)
    ensures r.Some? ==> IsValid(r.value) && r == o
    ensures o.Some? && IsValid(o.value) ==> r == o
  {
    if o.Some? && IsValid(o.value) then o else None
  }

  /** For a month within 0..11 the day number involves no carry. */
  lemma DayNumberInYear(d: DateTime)
    requires 0 <= d.month < 12
    ensures DayNumber(d) == CivilDay(d.year, d.month, d.day)
  {
    assert d.month / 12 == 0 && d.month % 12 == d.month;
  }

  /** A year has as many days as its twelve months. */
  lemma YearLength(y: int)
    ensures DaysBeforeMonth(y, 12) == DayFromYear(y + 1) - DayFromYear(y)
  {
    MonthsOfYear(y);
    DaysOfYear(y);
  }

  lemma MonthsOfYear(y: int)
    ensures DaysBeforeMonth(y, 12) == if IsLeap(y) then 366 else 365
  {
    var feb := DaysInMonth(y, 1);
    assert DaysBeforeMonth(y, 2) == 31 + feb;
    assert DaysBeforeMonth(y, 4) == DaysBeforeMonth(y, 2) + 61;
    assert DaysBeforeMonth(y, 6) == DaysBeforeMonth(y, 4) + 61;
    assert DaysBeforeMonth(y, 8) == DaysBeforeMonth(y, 6) + 62;
    assert DaysBeforeMonth(y, 10) == DaysBeforeMonth(y, 8) + 61;
    assert DaysBeforeMonth(y, 12) == DaysBeforeMonth(y, 10) + 61;
  }

  lemma DaysOfYear(y: int)
    ensures DayFromYear(y + 1) - DayFromYear(y) == if IsLeap(y) then 366 else 365
  {
    assert DayFromYear(y + 1) - DayFromYear(y) ==
      365 + ((y - 1968) / 4 - (y - 1969) / 4) - ((y - 1900) / 100 - (y - 1901) / 100)
          + ((y - 1600) / 400 - (y - 1601) / 400);
    StepOf4(y);
    StepOf100(y);
    StepOf400(y);
    Divisibility(y);
  }

  lemma Divisibility(y: int)
    ensures y % 400 == 0 ==> y % 100 == 0
    ensures y % 100 == 0 ==> y % 4 == 0
  {
    if y % 400 == 0 {
      var k := 4 * (y / 400);
      assert y == 100 * k;
      assert y % 100 == 100 * (k - y / 100);
    }
    if y % 100 == 0 {
      var k := 25 * (y / 100);
      assert y == 4 * k;
      assert y % 4 == 4 * (k - y / 4);
    }
  }

  /** The leap-year terms of DayFromYear step up exactly at multiples of 4,
      100 and 400. */
  lemma StepOf4(y: int)
    ensures (y - 1968) / 4 - (y - 1969) / 4 == if y % 4 == 0 then 1 else 0
  {
  }

  lemma StepOf100(y: int)
    ensures (y - 1900) / 100 - (y - 1901) / 100 == if y % 100 == 0 then 1 else 0
  {
  }

  lemma StepOf400(y: int)
    ensures (y - 1600) / 400 - (y - 1601) / 400 == if y % 400 == 0 then 1 else 0
  {
  }

  /** Day 1 of a month follows the last day of the month before it. */
  lemma PreviousMonth(y: int, m: int)
    requires 0 <= m < 12
    ensures var py := if m == 0 then y - 1 else y;
      var pm := if m == 0 then 11 else m - 1;
      CivilDay(py, pm, DaysInMonth(py, pm) + 1) == CivilDay(y, m, 1)
  {
    if m == 0 {
      YearLength(y - 1);
      assert DaysBeforeMonth(y - 1, 12) == DaysBeforeMonth(y - 1, 11) + DaysInMonth(y - 1, 11);
    } else {
      assert DaysBeforeMonth(y, m) == DaysBeforeMonth(y, m - 1) + DaysInMonth(y, m - 1);
    }
  }

  /** The day after the last of a month is day 1 of the next month. */
  lemma NextMonth(y: int, m: int)
    requires 0 <= m < 12
    ensures var ny := if m == 11 then y + 1 else y;
      var nm := if m == 11 then 0 else m + 1;
      CivilDay(ny, nm, 1) == CivilDay(y, m, DaysInMonth(y, m) + 1)
  {
    if m == 11 {
      YearLength(y);
      assert DaysBeforeMonth(y, 12) == DaysBeforeMonth(y, 11) + DaysInMonth(y, 11);
    } else {
      assert DaysBeforeMonth(y, m + 1) == DaysBeforeMonth(y, m) + DaysInMonth(y, m);
    }
  }

  /** Moves a day number that overflows its month into the month it falls
      in, as MakeDay does: day 0 is the last day of the previous month. The
      carried date is the same day as day `d` counted from the first of
      month `m`. */
  function NormaliseDay(y: int, m: int, d: int): (r: (int, int, int))
    requires 0 <= m < 12
    ensures 0 <= r.1 < 12 && 1 <= r.2 <= DaysInMonth(r.0, r.1)
    ensures 1 <= d <= DaysInMonth(y, m) ==> r == (y, m, d)
    decreases if d < 1 then 32 - d else d
  {
    if d < 1 then
      var py := if m == 0 then y - 1 else y;
      var pm := if m == 0 then 11 else m - 1;
      NormaliseDay(py, pm, d + DaysInMonth(py, pm))
    else if d > DaysInMonth(y, m) then
      var ny := if m == 11 then y + 1 else y;
      var nm := if m == 11 then 0 else m + 1;
      NormaliseDay(ny, nm, d - DaysInMonth(y, m))
    else (y, m, d)
  }

  /** The carried date is the same day as day `d` counted from the first of
      month `m`. */
  lemma {:induction false} NormaliseDayKeepsDay(y: int, m: int, d: int)
    requires 0 <= m < 12
    ensures var r := NormaliseDay(y, m, d); CivilDay(r.0, r.1, r.2) == CivilDay(y, m, d)
    decreases if d < 1 then 32 - d else d
  {
    if d < 1 {
      var py := if m == 0 then y - 1 else y;
      var pm := if m == 0 then 11 else m - 1;
      PreviousMonth(y, m);
      NormaliseDayKeepsDay(py, pm, d + DaysInMonth(py, pm));
    } else if d > DaysInMonth(y, m) {
      var ny := if m == 11 then y + 1 else y;
      var nm := if m == 11 then 0 else m + 1;
      NextMonth(y, m);
      NormaliseDayKeepsDay(ny, nm, d - DaysInMonth(y, m));
    }
  }

  /** The carried calendar date of `new Date(y, m, d)` is well formed and
      its midnight is the instant of the date as given. */
  lemma CarriedMidnight(y: int, m: int, d: int)
    ensures var nd := NormaliseDay(y + m / 12, m % 12, d);
      var c := DateTime(nd.0, nd.1, nd.2, 0, 0, 0, 0);
      WellFormed(c) && TimeValue(c) == DayNumber(DateTime(y, m, d, 0, 0, 0, 0)) * 86_400_000
  {
    var nd := NormaliseDay(y + m / 12, m % 12, d);
    var c := DateTime(nd.0, nd.1, nd.2, 0, 0, 0, 0);
    NormaliseDayKeepsDay(y + m / 12, m % 12, d);
    DayNumberInYear(c);
    assert DayNumber(DateTime(y, m, d, 0, 0, 0, 0)) == CivilDay(y + m / 12, m % 12, d);
    assert TimeValue(c) == DayNumber(c) * 86_400_000;
  }

  /** The year `new Date(y, m, d)` reads: 0..99 stand for 1900..1999. */
  function FullYear(y: int): int {
    if 0 <= y <= 99 then 1900 + y else y
  }

  /** `new Date(y, m, d)`: a two-digit year means 19yy, a month outside
      0..11 carries into the year, a day outside the month carries into the
      month; `None` when an argument is NaN or the instant is out of range.
      The instant is midnight of day `DayNumber` of the date as given. */
  function MakeDate(y: Option<int>, m: Option<int>, d: Option<int>): (r: Option<DateTime>)
    ensures r.Some? ==> IsValid(r.value)
    ensures r.Some? ==> r.value.hour == 0 && r.value.minute == 0 && r.value.second == 0 && r.value.ms == 0
    ensures y.None? || m.None? || d.None? ==> r.None?
    ensures y.Some? && m.Some? && d.Some? ==>
      var t := DayNumber(DateTime(FullYear(y.value), m.value, d.value, 0, 0, 0, 0)) * 86_400_000;
      (r.Some? <==> -MaxTime <= t <= MaxTime) && (r.Some? ==> TimeValue(r.value) == t)
  {
    if y.None? || m.None? || d.None? then None
    else
      var year := FullYear(y.value);
      var nd := NormaliseDay(year + m.value / 12, m.value % 12, d.value);
      CarriedMidnight(year, m.value, d.value);
      Checked(Some(DateTime(nd.0, nd.1, nd.2, 0, 0, 0, 0)))
  }

  /** A calendar date that exists and is in range comes back unchanged from
      `new Date(y, m, d)`, provided the year is not one of the two-digit
      years the constructor reinterprets. */
  lemma MakeDateExact(y: int, m: int, d: int)
    requires !(0 <= y <= 99)
    requires IsValid(DateTime(y, m, d, 0, 0, 0, 0))
    ensures MakeDate(Some(y), Some(m), Some(d)) == Some(DateTime(y, m, d, 0, 0, 0, 0))
  {
    assert m / 12 == 0 && m % 12 == m;
  }

  /** The value `setHours(h, m)` gives a valid Date `d`: minutes and hours
      carry into the day, seconds and milliseconds are kept; `None` when an
      argument is NaN or the instant leaves the range. */
  function SetHoursValue(d: DateTime, h: Option<int>, m: Option<int>): (r: Option<DateTime>)
    requires WellFormed(d)
    ensures r.Some? ==> IsValid(r.value)
    ensures h.None? || m.None? ==> r.None?
    ensures h.Some? && m.Some? ==>
      var t := DayNumber(d) * 86_400_000 + (h.value * 60 + m.value) * 60_000 + d.second * 1000 + d.ms;
      (r.Some? <==> -MaxTime <= t <= MaxTime) && (r.Some? ==> TimeValue(r.value) == t)
  {
    if h.None? || m.None? then None
    else Checked(Some(MinutesInto(d, h.value * 60 + m.value)))
  }

  /** The date `total` minutes after the midnight of `d`'s day, minutes and
      hours carrying into the day, seconds and milliseconds kept. */
  function MinutesInto(d: DateTime, total: int): (moved: DateTime)
    requires WellFormed(d)
    ensures WellFormed(moved)
    ensures TimeValue(moved) == DayNumber(d) * 86_400_000 + total * 60_000 + d.second * 1000 + d.ms
  {
    var nd := NormaliseDay(d.year, d.month, d.day + total / 1440);
    var minuteOfDay := total % 1440;
    CarriedMinutes(d, total);
    DateTime(nd.0, nd.1, nd.2, minuteOfDay / 60, minuteOfDay % 60, d.second, d.ms)
  }

  /** `total` minutes from the start of the day of `d` land on a well-formed
      date whose instant is that many minutes after the day's midnight. */
  lemma CarriedMinutes(d: DateTime, total: int)
    requires WellFormed(d)
    ensures var nd := NormaliseDay(d.year, d.month, d.day + total / 1440);
      var minuteOfDay := total % 1440;
      var moved := DateTime(nd.0, nd.1, nd.2, minuteOfDay / 60, minuteOfDay % 60, d.second, d.ms);
      WellFormed(moved) &&
      TimeValue(moved) == DayNumber(d) * 86_400_000 + total * 60_000 + d.second * 1000 + d.ms
  {
    var nd := NormaliseDay(d.year, d.month, d.day + total / 1440);
    var minuteOfDay := total % 1440;
    var moved := DateTime(nd.0, nd.1, nd.2, minuteOfDay / 60, minuteOfDay % 60, d.second, d.ms);
    NormaliseDayKeepsDay(d.year, d.month, d.day + total / 1440);
    DayNumberInYear(d);
    DayNumberInYear(moved);
    assert DayNumber(moved) == DayNumber(d) + total / 1440;
    assert total == total / 1440 * 1440 + minuteOfDay;
    assert minuteOfDay == minuteOfDay / 60 * 60 + minuteOfDay % 60;
  }

  /** Setting an hour and minute of the day keeps the calendar day and the
      seconds and changes only the hour and minute. */
  lemma SetHoursWithinDay(d: DateTime, h: int, m: int)
    requires IsValid(d)
    requires 0 <= h < 24 && 0 <= m < 60
    requires IsValid(d.(hour := h, minute := m))
    ensures SetHoursValue(d, Some(h), Some(m)) == Some(d.(hour := h, minute := m))
  {
    SameDay(d, h, m);
  }

  lemma SameDay(d: DateTime, h: int, m: int)
    requires WellFormed(d)
    requires 0 <= h < 24 && 0 <= m < 60
    ensures SetHoursValue(d, Some(h), Some(m)) == Checked(Some(d.(hour := h, minute := m)))
  {
    var total := h * 60 + m;
    assert MinutesInto(d, total) == d.(hour := h, minute := m) by {
      assert total / 1440 == 0 && total % 1440 == total;
      assert total / 60 == h && total % 60 == m;
      assert NormaliseDay(d.year, d.month, d.day + total / 1440) == (d.year, d.month, d.day);
    }
  }

  /** A well-formed date of the years 1 to 9999 is always in range. */
  lemma FourDigitYearsInRange(d: DateTime)
    requires WellFormed(d) && 1 <= d.year <= 9999
    ensures IsValid(d)
  {
    var y := d.year;
    assert d.month / 12 == 0 && d.month % 12 == d.month;
    assert -720000 <= DayFromYear(y) <= 2933000;
    DaysBeforeMonthBounds(y, d.month);
  }

  lemma {:induction false} DaysBeforeMonthBounds(y: int, m: int)
    requires 0 <= m <= 12
    ensures 0 <= DaysBeforeMonth(y, m) <= 31 * m
  {
    if m > 0 {
      DaysBeforeMonthBounds(y, m - 1);
    }
  }

  /** The engine's Date object; `value` is `None` for an Invalid Date. */
  class DateObject {
    var value: Option<DateTime>

    ghost predicate Valid()
      reads this
    {
      value.Some? ==> IsValid(value.value)
    }

    constructor (v: Option<DateTime>)
      requires v.Some? ==> IsValid(v.value)
      ensures Valid() && value == v
    {
      value := v;
    }

    /** `isNaN(date.getTime())`. */
    function IsNaN(): bool
      reads this
    {
      value.None?
    }

    /** `date.setHours(h, m)`: on an Invalid Date it stays invalid. */
    method SetHours(h: Option<int>, m: Option<int>)
      requires Valid()
      modifies this
      ensures Valid()
      ensures value == if old(value).Some? then SetHoursValue(old(value).value, h, m) else None
    {
      if value.Some? {
        value := SetHoursValue(value.value, h, m);
      }
    }
  }
}
