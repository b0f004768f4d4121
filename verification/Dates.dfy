/** Calendar normalisation of out-of-range dates, the way `mktime` does it. */
module Dates {
  predicate Leap(y: int) { (y % 4 == 0 && y % 100 != 0) || y % 400 == 0 }

  function DaysInMonth(y: int, m: int): (d: int)
    ensures 28 <= d <= 31
  {
    if m == 4 || m == 6 || m == 9 || m == 11 then 30
    else if m == 2 then (if Leap(y) then 29 else 28)
    else 31
  }

  predicate IsDate(y: int, m: int, d: int) { 1 <= m <= 12 && 1 <= d <= DaysInMonth(y, m) }

  // ----- an independent reference: days since the eve of 1 January of year 1, in the proleptic calendar -----

  function DaysBeforeYear(y: int): int {
    var p := y - 1;
    365 * p + p / 4 - p / 100 + p / 400
  }

  function YearLength(y: int): int { if Leap(y) then 366 else 365 }

  function DaysBeforeMonth(y: int, m: int): int
    requires 1 <= m <= 12
  {
    [0, 31, 59, 90, 120, 151, 181, 212, 243, 273, 304, 334][m - 1] + if m > 2 && Leap(y) then 1 else 0
  }

  function DayNumber(y: int, m: int, d: int): int
    requires 1 <= m <= 12
  {
    DaysBeforeYear(y) + DaysBeforeMonth(y, m) + d
  }

  /** The absolute day an unnormalised triple means: the month counts on from January of its year. */
  function AbsoluteDay(y: int, m: int, d: int): int {
    DayNumber(y + (m - 1) / 12, (m - 1) % 12 + 1, d)
  }

  lemma NextYear(y: int)
    ensures DaysBeforeYear(y + 1) == DaysBeforeYear(y) + YearLength(y)
  {
    LeapQuotients(y);
    LeapNesting(y);
  }

  lemma LeapNesting(y: int)
    ensures y % 400 == 0 ==> y % 100 == 0
    ensures y % 100 == 0 ==> y % 4 == 0
  {}

  lemma LeapQuotients(y: int)
    ensures y / 4 == (y - 1) / 4 + if y % 4 == 0 then 1 else 0
    ensures y / 100 == (y - 1) / 100 + if y % 100 == 0 then 1 else 0
    ensures y / 400 == (y - 1) / 400 + if y % 400 == 0 then 1 else 0
  {}

  /** The month after `m` of year `y`. */
  function NextMonth(y: int, m: int): (int, int) { if m == 12 then (y + 1, 1) else (y, m + 1) }

  lemma MonthLength(y: int, m: int, d: int)
    requires 1 <= m <= 12
    ensures var (y', m') := NextMonth(y, m); DayNumber(y', m', d) == DayNumber(y, m, d + DaysInMonth(y, m))
  {
    NextYear(y);
  }

  /** Steps whole months until the day fits. */
  method NormalizeYmd(y0: int, m0: int, d0: int) returns (y: int, m: int, d: int)
    ensures IsDate(y, m, d)
    ensures DayNumber(y, m, d) == AbsoluteDay(y0, m0, d0)
  {
    hide DaysBeforeYear, DaysBeforeMonth;
    var idx := m0 - 1;
    y, m, d := y0 + idx / 12, idx % 12 + 1, d0;
    while true
      invariant 1 <= m <= 12
      invariant DayNumber(y, m, d) == AbsoluteDay(y0, m0, d0)
      decreases if d < 1 then 32 - d else d
    {
      if d < 1 {
        m := m - 1;
        if m < 1 {
          m := 12;
          y := y - 1;
        }
        MonthLength(y, m, d);
        d := d + DaysInMonth(y, m);
      } else {
        var dim := DaysInMonth(y, m);
        if d <= dim { break; }
        MonthLength(y, m, d - dim);
        d := d - dim;
        m := m + 1;
        if m > 12 {
          m := 1;
          y := y + 1;
        }
      }
    }
  }

  // ----- the result is the only valid date of its day -----

  lemma {:induction false} YearsIncrease(y: int, z: int)
    requires y < z
    ensures DaysBeforeYear(y) + YearLength(y) <= DaysBeforeYear(z)
    decreases z - y
  {
    hide DaysBeforeYear;
    NextYear(y);
    if y + 1 < z { YearsIncrease(y + 1, z); }
  }

  lemma WithinYear(y: int, m: int, d: int)
    requires IsDate(y, m, d)
    ensures 1 <= DaysBeforeMonth(y, m) + d <= YearLength(y)
  {}

  lemma SameYearUnique(y: int, m: int, d: int, n: int, e: int)
    requires IsDate(y, m, d) && IsDate(y, n, e) && DaysBeforeMonth(y, m) + d == DaysBeforeMonth(y, n) + e
    ensures m == n && d == e
  {}

  /** Two valid dates with the same day number are the same date. */
  lemma DayNumberIsInjective(y: int, m: int, d: int, z: int, n: int, e: int)
    requires IsDate(y, m, d) && IsDate(z, n, e) && DayNumber(y, m, d) == DayNumber(z, n, e)
    ensures y == z && m == n && d == e
  {
    hide DaysBeforeYear, DaysBeforeMonth;
    WithinYear(y, m, d);
    WithinYear(z, n, e);
    if y < z {
      YearsIncrease(y, z);
    } else if z < y {
      YearsIncrease(z, y);
    } else {
      SameYearUnique(y, m, d, n, e);
    }
  }

  /** So a normalised date is determined by the triple alone, and a valid date is left as it is. */
  lemma NormalizedIsUnique(y0: int, m0: int, d0: int, y: int, m: int, d: int, z: int, n: int, e: int)
    requires IsDate(y, m, d) && DayNumber(y, m, d) == AbsoluteDay(y0, m0, d0)
    requires IsDate(z, n, e) && DayNumber(z, n, e) == AbsoluteDay(y0, m0, d0)
    ensures (y, m, d) == (z, n, e) && (IsDate(y0, m0, d0) ==> (y, m, d) == (y0, m0, d0))
  {
    hide DaysBeforeYear, DaysBeforeMonth;
    DayNumberIsInjective(y, m, d, z, n, e);
    if IsDate(y0, m0, d0) {
      assert (m0 - 1) / 12 == 0 && (m0 - 1) % 12 == m0 - 1;
      DayNumberIsInjective(y, m, d, y0, m0, d0);
    }
  }

  /** A packed DOS date: seven bits of year from 1980, four of month, five of day. Normalising it stays within the
      years and field widths that the later casts assume. */
  lemma DosDateStaysInRange(year: int, month: int, day: int, y: int, m: int, d: int)
    requires 1980 <= year < 1980 + 128 && 0 <= month < 16 && 0 <= day < 32
    requires IsDate(y, m, d) && DayNumber(y, m, d) == AbsoluteDay(year, month, day)
    ensures 1979 <= y <= 2108
  {
    hide DaysBeforeYear, DaysBeforeMonth;
    WithinYear(y, m, d);
    var y1, m1 := year + (month - 1) / 12, (month - 1) % 12 + 1;
    assert year - 1 <= y1 <= year + 1 && (y1 < year ==> m1 == 12) && (y1 > year ==> m1 <= 3);
    MonthStart(y1, m1);
    NextYear(1979);
    NextYear(2107);
    NextYear(2108);
    if y < 1979 {
      YearsIncrease(y, 1979);
      YearsDoNotDecrease(if y1 > 1979 then 1980 else 1979, y1);
    } else if y > 2108 {
      YearsIncrease(2108, y);
      YearsDoNotDecrease(y1, if y1 < 2108 then 2107 else 2108);
    }
  }

  lemma MonthStart(y: int, m: int)
    requires 1 <= m <= 12
    ensures 0 <= DaysBeforeMonth(y, m) <= 335 && (m == 12 ==> DaysBeforeMonth(y, m) >= 334)
    ensures m <= 3 ==> DaysBeforeMonth(y, m) <= 60
  {}

  lemma YearsDoNotDecrease(y: int, z: int)
    requires y <= z
    ensures DaysBeforeYear(y) <= DaysBeforeYear(z)
  {
    hide DaysBeforeYear;
    if y < z { YearsIncrease(y, z); }
  }
}
