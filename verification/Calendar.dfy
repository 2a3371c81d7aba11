/** The Gregorian calendar, as a count of days since 1 January 1970. */
module Calendar {

  predicate IsLeap(y: nat) { y % 4 == 0 && (y % 100 != 0 || y % 400 == 0) }

  function YearLength(y: nat): nat { if IsLeap(y) then 366 else 365 }

  /** Days from 1 January of year 1 to 1 January of year y. */
  function DaysBeforeYear(y: nat): int
    requires y >= 1
  {
    365 * (y - 1) + (y - 1) / 4 - (y - 1) / 100 + (y - 1) / 400
  }

  const EPOCH := 719162

  /** Months are counted from 0. */
  function MonthLength(y: nat, m: nat): nat
    requires m < 12
  {
    if m == 1 then (if IsLeap(y) then 29 else 28) else if m == 3 || m == 5 || m == 8 || m == 10 then 30 else 31
  }

  function DaysBeforeMonth(y: nat, m: nat): nat
    requires m <= 12
  {
    if m == 0 then 0 else DaysBeforeMonth(y, m - 1) + MonthLength(y, m - 1)
  }

  /** A date, months from 0 and days from 1, and the second of the day. */
  datatype Moment = Moment(year: nat, month: nat, day: nat, second: nat) {
    predicate Valid() {
      year >= 1970 && month < 12 && 1 <= day <= MonthLength(year, month) && second < 86400
    }

    /** Days since the epoch. */
    function DayNumber(): int
      requires Valid()
    {
      DaysBeforeYear(year) - EPOCH + DaysBeforeMonth(year, month) + day - 1
    }

    function UnixTime(): int
      requires Valid()
    {
      86400 * DayNumber() + second
    }
  }

  lemma YearsAddUp(y: nat)
    requires y >= 1
    ensures DaysBeforeYear(y + 1) == DaysBeforeYear(y) + YearLength(y)
  {
    FourthYears(y - 1);
    Centuries(y - 1);
    FourthCenturies(y - 1);
    LeapsNest(y);
  }

  lemma FourthYears(n: nat)
    ensures (n + 1) / 4 == n / 4 + (if (n + 1) % 4 == 0 then 1 else 0)
  {
  }

  lemma Centuries(n: nat)
    ensures (n + 1) / 100 == n / 100 + (if (n + 1) % 100 == 0 then 1 else 0)
  {
  }

  lemma FourthCenturies(n: nat)
    ensures (n + 1) / 400 == n / 400 + (if (n + 1) % 400 == 0 then 1 else 0)
  {
  }

  lemma LeapsNest(y: nat)
    ensures y % 400 == 0 ==> y % 100 == 0
    ensures y % 100 == 0 ==> y % 4 == 0
  {
    if y % 400 == 0 {
      Hundreds(4 * (y / 400));
    }
    if y % 100 == 0 {
      Fours(25 * (y / 100));
    }
  }

  lemma Hundreds(n: nat)
    ensures 100 * n % 100 == 0
  {
  }

  lemma Fours(n: nat)
    ensures 4 * n % 4 == 0
  {
  }

  lemma EpochYear()
    ensures DaysBeforeYear(1970) == EPOCH
  {
  }

  lemma YearsGrow(y: nat, z: nat)
    requires 1 <= y <= z
    ensures DaysBeforeYear(y) + 365 * (z - y) <= DaysBeforeYear(z)
    decreases z - y
  {
    hide IsLeap, DaysBeforeYear;
    if y < z {
      YearsAddUp(y);
      YearsGrow(y + 1, z);
    }
  }

  lemma MonthsAddUp(y: nat)
    ensures DaysBeforeMonth(y, 12) == YearLength(y)
  {
    assert DaysBeforeMonth(y, 1) == 31;
    assert DaysBeforeMonth(y, 3) == DaysBeforeMonth(y, 2) + 31 == DaysBeforeMonth(y, 1) + MonthLength(y, 1) + 31;
    assert DaysBeforeMonth(y, 6) == DaysBeforeMonth(y, 5) + 30 == DaysBeforeMonth(y, 4) + 61
      == DaysBeforeMonth(y, 3) + 91;
    assert DaysBeforeMonth(y, 9) == DaysBeforeMonth(y, 8) + 30 == DaysBeforeMonth(y, 7) + 61
      == DaysBeforeMonth(y, 6) + 92;
    assert DaysBeforeMonth(y, 12) == DaysBeforeMonth(y, 11) + 31 == DaysBeforeMonth(y, 10) + 61
      == DaysBeforeMonth(y, 9) + 92;
  }

  lemma MonthsGrow(y: nat, m: nat, n: nat)
    requires m < n <= 12
    ensures DaysBeforeMonth(y, m) + MonthLength(y, m) <= DaysBeforeMonth(y, n)
    decreases n - m
  {
    if m + 1 < n {
      MonthsGrow(y, m + 1, n);
    }
  }

  /** The day of the year stays inside the year. */
  lemma DayOfYear(t: Moment)
    requires t.Valid()
    ensures 0 <= DaysBeforeMonth(t.year, t.month) + t.day - 1 < YearLength(t.year)
  {
    MonthsGrow(t.year, t.month, 12);
    MonthsAddUp(t.year);
  }

  /** Every instant since the epoch is one moment. */
  lemma MomentExists(time: nat) returns (t: Moment)
    ensures t.Valid() && t.UnixTime() == time
  {
    var day := time / 86400;
    EpochYear();
    var y := YearOf(day, 1970);
    var rest := day - (DaysBeforeYear(y) - EPOCH);
    var m := MonthOf(y, rest, 0);
    t := Moment(y, m, rest - DaysBeforeMonth(y, m) + 1, time % 86400);
  }

  lemma YearOf(day: nat, from: nat) returns (y: nat)
    requires from >= 1970 && DaysBeforeYear(from) - EPOCH <= day
    ensures y >= 1970 && DaysBeforeYear(y) - EPOCH <= day < DaysBeforeYear(y) - EPOCH + YearLength(y)
    decreases day - (DaysBeforeYear(from) - EPOCH)
  {
    hide DaysBeforeYear;
    YearsAddUp(from);
    if day < DaysBeforeYear(from) - EPOCH + YearLength(from) {
      y := from;
    } else {
      y := YearOf(day, from + 1);
    }
  }

  lemma MonthOf(y: nat, rest: nat, from: nat) returns (m: nat)
    requires from < 12 && DaysBeforeMonth(y, from) <= rest < YearLength(y)
    ensures m < 12 && DaysBeforeMonth(y, m) <= rest < DaysBeforeMonth(y, m) + MonthLength(y, m)
    decreases 12 - from
  {
    if rest < DaysBeforeMonth(y, from) + MonthLength(y, from) {
      m := from;
    } else {
      MonthsAddUp(y);
      m := MonthOf(y, rest, from + 1);
    }
  }

  /** No two moments are one instant. */
  lemma MomentUnique(t: Moment, u: Moment)
    requires t.Valid() && u.Valid() && t.UnixTime() == u.UnixTime()
    ensures t == u
  {
    assert t.DayNumber() == u.DayNumber() && t.second == u.second;
    DayOfYear(t);
    DayOfYear(u);
    hide DaysBeforeYear;
    YearsOrdered(t.year, u.year);
    if t.month < u.month {
      MonthsGrow(t.year, t.month, u.month);
    } else if u.month < t.month {
      MonthsGrow(t.year, u.month, t.month);
    }
  }

  lemma YearsOrdered(y: nat, z: nat)
    requires y >= 1 && z >= 1
    ensures y < z ==> DaysBeforeYear(y) + YearLength(y) <= DaysBeforeYear(z)
    ensures z < y ==> DaysBeforeYear(z) + YearLength(z) <= DaysBeforeYear(y)
  {
    YearsAddUp(y);
    YearsAddUp(z);
    if y < z {
      YearsGrow(y + 1, z);
    } else if z < y {
      YearsGrow(z + 1, y);
    }
  }
}
