/** DateTime::recalculate of basis/fwoop_datetime.cpp for UTC, against the calendar. */
module DateTime {
  import opened Calendar

  const DAYS_IN_WEEK := 7
  const DAYS_IN_YEAR := 365
  const SECONDS_IN_MINUTE := 60
  const SECONDS_IN_HOUR := 3600
  const SECONDS_IN_DAY := 86400
  const SECONDS_IN_YEAR := 31536000
  const THURSDAY := 4
  const UINT32 := 0x1_0000_0000

  const DAYS_PER_MONTH: seq<nat> := [31, 28, 31, 30, 31, 30, 31, 31, 30, 31, 30, 31]

  /** SecondsPerMonth[month] */
  function SecondsPerMonth(month: nat): nat
    requires month < 12
  {
    86400 * DAYS_PER_MONTH[month]
  }

  /** C++ division and remainder, towards zero. */
  function Quotient(a: int, b: int): int
    requires b > 0
  {
    if a >= 0 then a / b else -((-a) / b)
  }

  function Remainder(a: int, b: int): int
    requires b > 0
  {
    a - b * Quotient(a, b)
  }

  /** Assignment to a uint8_t field.  From a double out of range this is undefined in C++; here it
      wraps, and no correctness claim below rests on a wrapped value. */
  function ToUint8(n: int): nat { n % 256 }

  // ----- The loops, as functions

  /** The year loop from a given year on: year, remaining seconds, days counted. */
  function YearLoop(year: nat, remaining: int, days: int): (nat, int, int)
    decreases remaining
  {
    if remaining > SECONDS_IN_YEAR then
      var leap := if IsLeap(year) then 1 else 0;
      YearLoop(year + 1, remaining - SECONDS_IN_YEAR - 86400 * leap, days + DAYS_IN_YEAR + leap)
    else (year, remaining, days)
  }

  function MonthLoop(year: nat, month: nat, remaining: int, days: int): (nat, int, int)
    decreases 12 - month
  {
    if month < 12 && remaining > 0 && remaining - SecondsPerMonth(month) >= 0 then
      var leap := if IsLeap(year) && month == 1 then 1 else 0;
      MonthLoop(year, month + 1, remaining - SecondsPerMonth(month) - 86400 * leap,
                days + DAYS_PER_MONTH[month] + leap)
    else (month, remaining, days)
  }

  lemma MonthLoopUnfolds(year: nat, month: nat, remaining: int, days: int)
    requires month <= 12
    ensures MonthLoop(year, month, remaining, days) ==
      if month == 12 || remaining <= 0 || remaining - SecondsPerMonth(month) < 0 then (month, remaining, days)
      else if IsLeap(year) && month == 1 then
        MonthLoop(year, month + 1, remaining - SecondsPerMonth(month) - 86400, days + DAYS_PER_MONTH[month] + 1)
      else MonthLoop(year, month + 1, remaining - SecondsPerMonth(month), days + DAYS_PER_MONTH[month])
  {
    hide IsLeap, SecondsPerMonth;
  }

  datatype Fields = Fields(year: nat, month: nat, day: nat, hour: nat, minute: nat, second: nat,
                           dow: int, firstOfMonth: int, weekOfMonth: nat)

  /** The assignments after the two loops. */
  function Finish(year: nat, month: nat, remaining: int, days: int): Fields {
    var firstOfMonth := Remainder(days + THURSDAY, DAYS_IN_WEEK);
    var day := ToUint8(Quotient(remaining, SECONDS_IN_DAY) + 1);
    var afterDay := remaining - ((day - 1) * 86400) % UINT32;
    var dow := Remainder(days + day - 1 + THURSDAY, DAYS_IN_WEEK);
    var hour := ToUint8(Quotient(afterDay, SECONDS_IN_HOUR));
    var afterHour := afterDay - hour * 3600;
    var minute := ToUint8(Quotient(afterHour, SECONDS_IN_MINUTE));
    var second := ToUint8(afterHour - minute * 60);
    Fields(year, month, day, hour, minute, second, dow, firstOfMonth,
           ToUint8(Quotient(day + firstOfMonth + 1, DAYS_IN_WEEK)))
  }

  function Recalculated(time: nat): Fields {
    var (year, inYear, days) := YearLoop(1970, time, 0);
    var (month, inMonth, days') := MonthLoop(year, 0, inYear, days);
    Finish(year, month, inMonth, days')
  }

  // ----- The class

  class DateTime {
    var d_time: nat
    var d_year: nat
    var d_month: nat
    var d_day: nat
    var d_hour: nat
    var d_minute: nat
    var d_second: nat
    var d_dow: int
    var d_firstOfMonth: int
    var d_weekOfMonth: nat

    function Now(): Fields
      reads this
    {
      Fields(d_year, d_month, d_day, d_hour, d_minute, d_second, d_dow, d_firstOfMonth, d_weekOfMonth)
    }

    constructor (unixTime: nat)
      requires unixTime < UINT32
      ensures d_time == unixTime && Now() == Recalculated(unixTime)
    {
      d_time := unixTime;
      d_year, d_month, d_day, d_hour, d_minute, d_second := 0, 0, 0, 0, 0, 0;
      d_dow, d_firstOfMonth, d_weekOfMonth := 0, 0, 0;
      new;
      Recalculate();
    }

    method Recalculate()
      requires d_time < UINT32
      modifies this
      ensures d_time == old(d_time) && Now() == Recalculated(d_time)
    {
      hide Finish, YearLoop, MonthLoop;
      var remaining, daysSinceEpoch := SubtractYears(d_time);
      remaining, daysSinceEpoch := SubtractMonths(remaining, daysSinceEpoch);
      SetFields(remaining, daysSinceEpoch);
    }

    /** The year loop of recalculate. */
    method SubtractYears(time: nat) returns (remaining: int, daysSinceEpoch: int)
      modifies this`d_year
      ensures YearLoop(1970, time, 0) == (d_year, remaining, daysSinceEpoch)
    {
      hide IsLeap;
      remaining, daysSinceEpoch := time, 0;
      d_year := 1970;
      while remaining > SECONDS_IN_YEAR
        invariant YearLoop(1970, time, 0) == YearLoop(d_year, remaining, daysSinceEpoch)
        decreases remaining
      {
        daysSinceEpoch := daysSinceEpoch + DAYS_IN_YEAR;
        remaining := remaining - SECONDS_IN_YEAR;
        if IsLeap(d_year) {
          daysSinceEpoch := daysSinceEpoch + 1;
          remaining := remaining - SECONDS_IN_DAY;
        }
        d_year := d_year + 1;
      }
    }

    /** The month loop of recalculate. */
    method SubtractMonths(inYear: int, days: int) returns (remaining: int, daysSinceEpoch: int)
      modifies this`d_month
      ensures MonthLoop(d_year, 0, inYear, days) == (d_month, remaining, daysSinceEpoch)
    {
      hide IsLeap, MonthLoop, SecondsPerMonth;
      remaining, daysSinceEpoch := inYear, days;
      d_month := 0;
      while d_month < |DAYS_PER_MONTH| && remaining > 0
        invariant d_month <= 12
        invariant MonthLoop(d_year, 0, inYear, days) == MonthLoop(d_year, d_month, remaining, daysSinceEpoch)
        decreases 12 - d_month
      {
        MonthLoopUnfolds(d_year, d_month, remaining, daysSinceEpoch);
        if remaining - SecondsPerMonth(d_month) < 0 {
          break;
        }
        remaining := remaining - SecondsPerMonth(d_month);
        daysSinceEpoch := daysSinceEpoch + DAYS_PER_MONTH[d_month];
        if IsLeap(d_year) && d_month == 1 {
          remaining := remaining - SECONDS_IN_DAY;
          daysSinceEpoch := daysSinceEpoch + 1;
        }
        d_month := d_month + 1;
      }
      MonthLoopUnfolds(d_year, d_month, remaining, daysSinceEpoch);
    }

    /** The part of recalculate after the loops. */
    method SetFields(inMonth: int, days: int)
      modifies this
      ensures d_time == old(d_time) && Now() == Finish(old(d_year), old(d_month), inMonth, days)
    {
      hide Quotient, Remainder, ToUint8;
      var remaining, daysSinceEpoch := inMonth, days;
      d_firstOfMonth := Remainder(daysSinceEpoch + THURSDAY, DAYS_IN_WEEK);
      d_day := ToUint8(Quotient(remaining, SECONDS_IN_DAY) + 1);
      remaining := remaining - ((d_day - 1) * 86400) % UINT32;
      daysSinceEpoch := daysSinceEpoch + d_day - 1;
      d_dow := Remainder(daysSinceEpoch + THURSDAY, DAYS_IN_WEEK);
      d_weekOfMonth := ToUint8(Quotient(d_day + d_firstOfMonth + 1, DAYS_IN_WEEK));
      d_hour := ToUint8(Quotient(remaining, SECONDS_IN_HOUR));
      remaining := remaining - d_hour * 3600;
      d_minute := ToUint8(Quotient(remaining, SECONDS_IN_MINUTE));
      d_second := ToUint8(remaining - d_minute * 60);
    }
  }

  // ----- Correctness

  /** The fields say this moment. */
  predicate Shows(f: Fields, t: Moment) {
    && f.year == t.year && f.month == t.month && f.day == t.day
    && f.hour < 24 && f.minute < 60 && f.second < 60
    && f.hour * 3600 + f.minute * 60 + f.second == t.second
  }

  /** The instants recalculate gets wrong: all of 29 February; 31 December of a leap year after
      midnight; and midnight of 1 January after a common year. */
  predicate Misread(t: Moment) {
    || (t.month == 1 && t.day == 29)
    || LastOfLeapYear(t)
    || StrokeOfYear(t)
  }

  /** Seconds from the start of the year. */
  function InYear(t: Moment): int
    requires t.Valid()
  {
    86400 * (DaysBeforeMonth(t.year, t.month) + t.day - 1) + t.second
  }

  /** The loop variables when the year loop stands at the start of year y. */
  function AtYear(time: int, y: nat): (nat, int, int)
    requires y >= 1970
  {
    var days := DaysBeforeYear(y) - EPOCH;
    YearLoop(y, time - 86400 * days, days)
  }

  lemma YearStep(time: int, y: nat)
    requires y >= 1970 && time - 86400 * (DaysBeforeYear(y) - EPOCH) > SECONDS_IN_YEAR
    ensures AtYear(time, y) == AtYear(time, y + 1)
  {
    YearsAddUp(y);
    hide DaysBeforeYear, IsLeap;
  }

  lemma YearLoopStart(time: nat)
    ensures YearLoop(1970, time, 0) == AtYear(time, 1970)
  {
    EpochYear();
    hide DaysBeforeYear;
  }

  /** Midnight of 1 January after a common year. */
  predicate StrokeOfYear(t: Moment) {
    t.year > 1970 && !IsLeap(t.year - 1) && t.month == 0 && t.day == 1 && t.second == 0
  }

  /** The last day of a leap year, after midnight. */
  predicate LastOfLeapYear(t: Moment) {
    IsLeap(t.year) && t.month == 11 && t.day == 31 && t.second > 0
  }

  lemma InYearZero(t: Moment)
    requires t.Valid()
    ensures InYear(t) == 0 <==> t.month == 0 && t.day == 1 && t.second == 0
  {
    if t.month > 0 {
      MonthsGrow(t.year, 0, t.month);
    }
  }

  lemma InYearLast(t: Moment)
    requires t.Valid()
    ensures InYear(t) > SECONDS_IN_YEAR <==> LastOfLeapYear(t)
  {
    DayOfYear(t);
    MonthsAddUp(t.year);
    if t.month < 11 {
      MonthsGrow(t.year, t.month, 11);
    }
    assert DaysBeforeMonth(t.year, 12) == DaysBeforeMonth(t.year, 11) + 31;
  }

  /** The year loop walks to the moment's year, or stops a year short at the stroke of a year. */
  lemma {:induction false} YearLoopReaches(t: Moment, y: nat)
    requires t.Valid() && 1970 <= y <= t.year
    ensures AtYear(t.UnixTime(), y)
         == AtYear(t.UnixTime(), if StrokeOfYear(t) && y < t.year then t.year - 1 else t.year)
    decreases t.year - y
  {
    hide DaysBeforeYear, AtYear, IsLeap, DaysBeforeMonth, MonthLength;
    DayOfYear(t);
    InYearZero(t);
    if y < t.year {
      YearsAddUp(y);
      YearsGrow(y + 1, t.year);
      if y == t.year - 1 && StrokeOfYear(t) {
      } else {
        YearStep(t.UnixTime(), y);
        YearLoopReaches(t, y + 1);
      }
    }
  }

  /** Where the year loop ends: the year, the seconds left and the days counted. */
  lemma YearLoopEnds(t: Moment)
    requires t.Valid()
    ensures var (year, remaining, days) := YearLoop(1970, t.UnixTime(), 0);
      if StrokeOfYear(t) then year == t.year - 1
      else if LastOfLeapYear(t) then year == t.year + 1
      else year == t.year && remaining == InYear(t) && days == DaysBeforeYear(t.year) - EPOCH
  {
    hide DaysBeforeYear, IsLeap, DaysBeforeMonth, MonthLength;
    EpochYear();
    DayOfYear(t);
    assert t.UnixTime() >= 0 by { YearsGrow(1970, t.year); }
    YearLoopStart(t.UnixTime());
    YearLoopReaches(t, 1970);
    InYearLast(t);
    if StrokeOfYear(t) {
      InYearZero(t);
      YearsAddUp(t.year - 1);
    } else if LastOfLeapYear(t) {
      YearStep(t.UnixTime(), t.year);
      YearsAddUp(t.year);
    }
  }

  /** The loop variables when the month loop stands at the start of month m. */
  function AtMonth(y: nat, inYear: int, days: int, m: nat): (nat, int, int)
    requires m <= 12
  {
    MonthLoop(y, m, inYear - 86400 * DaysBeforeMonth(y, m), days + DaysBeforeMonth(y, m))
  }

  lemma MonthStep(y: nat, inYear: int, days: int, m: nat)
    requires m < 12 && inYear - 86400 * DaysBeforeMonth(y, m) > 0
    requires inYear - 86400 * DaysBeforeMonth(y, m) >= SecondsPerMonth(m)
    ensures AtMonth(y, inYear, days, m) == AtMonth(y, inYear, days, m + 1)
  {
    hide IsLeap;
    assert MonthLength(y, m) == DAYS_PER_MONTH[m] + (if IsLeap(y) && m == 1 then 1 else 0);
  }

  lemma {:induction false} MonthLoopReaches(t: Moment, days: int, m: nat)
    requires t.Valid() && m <= t.month
    ensures AtMonth(t.year, InYear(t), days, m) == AtMonth(t.year, InYear(t), days, t.month)
    decreases t.month - m
  {
    hide AtMonth, IsLeap;
    if m < t.month {
      MonthsGrow(t.year, m, t.month);
      MonthStep(t.year, InYear(t), days, m);
      MonthLoopReaches(t, days, m + 1);
    }
  }

  lemma MonthLoopEnds(t: Moment, days: int)
    requires t.Valid()
    ensures var (month, remaining, days') := MonthLoop(t.year, 0, InYear(t), days);
      if t.month == 1 && t.day == 29 then month == 2
      else (month, remaining, days') == (t.month, 86400 * (t.day - 1) + t.second, days
        + DaysBeforeMonth(t.year, t.month))
  {
    hide IsLeap, MonthLoop, AtMonth;
    AtMonthStart(t.year, InYear(t), days);
    MonthLoopReaches(t, days, 0);
    if t.month == 1 && t.day == 29 {
      MonthStep(t.year, InYear(t), days, 1);
      AtMonthStops(t.year, InYear(t), days, 2);
    } else {
      AtMonthStops(t.year, InYear(t), days, t.month);
    }
  }

  lemma AtMonthStart(y: nat, inYear: int, days: int)
    ensures MonthLoop(y, 0, inYear, days) == AtMonth(y, inYear, days, 0)
  {
    hide MonthLoop;
  }

  lemma AtMonthStops(y: nat, inYear: int, days: int, m: nat)
    requires m < 12
    requires var r := inYear - 86400 * DaysBeforeMonth(y, m); r <= 0 || r < 86400 * DAYS_PER_MONTH[m]
    ensures AtMonth(y, inYear, days, m) == (m, inYear - 86400 * DaysBeforeMonth(y, m), days + DaysBeforeMonth(y, m))
  {
    hide DaysBeforeMonth;
  }

  /** The assignments after the loops split a day and a second of the day correctly. */
  lemma FinishIsRight(t: Moment, days: int)
    requires t.Valid() && days >= 0
    ensures var f := Finish(t.year, t.month, 86400 * (t.day - 1) + t.second, days);
      Shows(f, t) && f.dow == (days + t.day - 1 + THURSDAY) % 7 && f.firstOfMonth == (days + THURSDAY) % 7
        && f.weekOfMonth == (t.day + f.firstOfMonth + 1) / 7
  {
    hide IsLeap;
    assert 1 <= t.day <= 31;
    DaySplit(t.day - 1, t.second);
    TimeSplit(t.second);
    RemainderOfDays(days + THURSDAY);
    RemainderOfDays(days + t.day - 1 + THURSDAY);
    hide Quotient, Remainder;
    var f := Finish(t.year, t.month, 86400 * (t.day - 1) + t.second, days);
    assert f.day == t.day;
    WeekSplit(t.day, f.firstOfMonth);
  }

  lemma DaySplit(day: nat, s: nat)
    requires day < 31 && s < 86400
    ensures ToUint8(Quotient(86400 * day + s, SECONDS_IN_DAY) + 1) == day + 1
    ensures (day * 86400) % UINT32 == day * 86400
  {
    assert (86400 * day + s) / 86400 == day;
  }

  lemma TimeSplit(s: nat)
    requires s < 86400
    ensures var hour := ToUint8(Quotient(s, SECONDS_IN_HOUR));
      var minute := ToUint8(Quotient(s - hour * 3600, SECONDS_IN_MINUTE));
      var second := ToUint8(s - hour * 3600 - minute * 60);
      hour < 24 && minute < 60 && second < 60 && hour * 3600 + minute * 60 + second == s
  {
    HourOf(s);
    MinuteOf(s - ToUint8(Quotient(s, SECONDS_IN_HOUR)) * 3600);
  }

  lemma HourOf(s: nat)
    requires s < 86400
    ensures var hour := ToUint8(Quotient(s, SECONDS_IN_HOUR)); hour < 24 && 0 <= s - hour * 3600 < 3600
  {
  }

  lemma MinuteOf(s: nat)
    requires s < 3600
    ensures var minute := ToUint8(Quotient(s, SECONDS_IN_MINUTE));
      minute < 60 && 0 <= s - minute * 60 < 60 && ToUint8(s - minute * 60) == s - minute * 60
  {
  }

  lemma RemainderOfDays(n: int)
    requires n >= 0
    ensures Remainder(n, DAYS_IN_WEEK) == n % 7
  {
  }

  lemma WeekSplit(day: nat, first: int)
    requires day <= 31 && 0 <= first < 7
    ensures ToUint8(Quotient(day + first + 1, DAYS_IN_WEEK)) == (day + first + 1) / 7
  {
  }

  /** For every instant: recalculate shows the moment it is exactly when that is not one of the misread
      ones; and then the weekday is the weekday of the day number. */
  lemma RecalculatedExactly(t: Moment)
    requires t.Valid() && t.UnixTime() < UINT32
    ensures t.UnixTime() >= 0
    ensures Shows(Recalculated(t.UnixTime()), t) <==> !Misread(t)
    ensures !Misread(t) ==> Recalculated(t.UnixTime()).dow == (t.DayNumber() + THURSDAY) % 7
    ensures !Misread(t) ==> Recalculated(t.UnixTime()).firstOfMonth == (t.DayNumber() - (t.day - 1) + THURSDAY) % 7
  {
    hide DaysBeforeYear, IsLeap, DaysBeforeMonth, Finish, YearLoop, MonthLoop;
    EpochYear();
    DayOfYear(t);
    YearsGrow(1970, t.year);
    YearLoopEnds(t);
    var days := DaysBeforeYear(t.year) - EPOCH;
    MonthLoopEnds(t, days);
    if !Misread(t) {
      FinishIsRight(t, days + DaysBeforeMonth(t.year, t.month));
    } else {
      var (year, inYear, d) := YearLoop(1970, t.UnixTime(), 0);
      var (month, inMonth, d') := MonthLoop(year, 0, inYear, d);
      FinishKeepsDate(year, month, inMonth, d');
    }
  }

  lemma FinishKeepsDate(year: nat, month: nat, remaining: int, days: int)
    ensures var f := Finish(year, month, remaining, days); f.year == year && f.month == month
  {
  }

  /** Every instant has one moment, and the class shows it outside the misread ones. */
  lemma EveryInstant(time: nat) returns (t: Moment)
    requires time < UINT32
    ensures t.Valid() && t.UnixTime() == time
    ensures Shows(Recalculated(time), t) <==> !Misread(t)
  {
    t := MomentExists(time);
    RecalculatedExactly(t);
  }
}
