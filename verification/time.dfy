/** `my_timegm` (src/time.h): broken-down UTC time to seconds since the Unix epoch.
    C integer division truncates toward zero, which is modelled explicitly by `CDiv`/`CMod`;
    Dafny's own `/` and `%` floor for a positive divisor. */
module Time {

  /** The fields of `struct tm` the core reads. `year` counts from 1900 and `mon` from 0. */
  datatype Tm = Tm(sec: int, min: int, hour: int, mday: int, mon: int, year: int,
                   wday: int, isdst: int)

  const MonthsPerYear: int := 12

  /** Cumulative days before each month of a common year (the `cumdays` table). */
  const CumDays: seq<int> := [0, 31, 59, 90, 120, 151, 181, 212, 243, 273, 304, 334]

  /** C's `/` for a positive divisor: truncation toward zero. */
  function CDiv(a: int, b: int): (q: int)
    requires b > 0
    ensures a >= 0 ==> q == a / b
    ensures a < 0 ==> q == -((-a) / b)
  {
    if a >= 0 then a / b else -((-a) / b)
  }

  /** C's `%` for a positive divisor: the sign follows the dividend. */
  function CMod(a: int, b: int): (r: int)
    requires b > 0
    ensures a == CDiv(a, b) * b + r
  {
    a - CDiv(a, b) * b
  }

  predicate IsLeapYear(year: int) {
    CMod(year, 4) == 0 && (CMod(year, 100) != 0 || CMod(year, 400) == 0)
  }

  /** The day count of `my_timegm` as written, before the time of day is added: the month is
      first folded into the year. For the non-negative months the source accepts, C's `/` and
      `%` agree with Dafny's. */
  function DaysAsWritten(tmYear: int, tmMon: int, mday: int): int
    requires tmMon >= 0
  {
    YearMonthDays(1900 + tmYear + tmMon / MonthsPerYear, tmMon % MonthsPerYear, mday)
  }

  /** The day count for a calendar year and a month index 0..11, with C's truncating division
      in the leap-day terms. */
  function YearMonthDays(year: int, m: int, mday: int): int
    requires 0 <= m < 12
  {
    var days := (year - 1970) * 365 + CumDays[m]
                + CDiv(year - 1968, 4) - CDiv(year - 1900, 100) + CDiv(year - 1600, 400);
    (if IsLeapYear(year) && m < 2 then days - 1 else days) + mday - 1
  }

  /** Days, then hours, minutes and seconds; an hour less when `tm_isdst` is 1. */
  function Seconds(days: int, t: Tm): int {
    var s := ((days * 24 + t.hour) * 60 + t.min) * 60 + t.sec;
    if t.isdst == 1 then s - 3600 else s
  }

  /** `my_timegm` as written. `tm_mon % 12` indexes `cumdays`, so a negative month is outside
      what the source can handle. From 1968 on, the seconds counted are those of the proleptic
      Gregorian calendar. */
  function MyTimegm(t: Tm): (r: int)
    requires t.mon >= 0
    ensures t.mon < 12 && 1900 + t.year >= 1968 ==> r == Seconds(CivilDays(1900 + t.year, t.mon, t.mday), t)
  {
    if t.mon < 12 && 1900 + t.year >= 1968 then
      DaysAgreeFrom1968(t);
      JanuaryFirstIsYearStart(1900 + t.year);
      Seconds(DaysAsWritten(t.year, t.mon, t.mday), t)
    else
      Seconds(DaysAsWritten(t.year, t.mon, t.mday), t)
  }

  // ---------------------------------------------------------------------------
  // properties of the function as written
  // ---------------------------------------------------------------------------

  lemma {:induction false} EpochIsZero(isdst: int)
    requires isdst != 1
    ensures MyTimegm(Tm(0, 0, 0, 1, 0, 70, 4, isdst)) == 0
  {
  }

  /** The result is ((days * 24 + hour) * 60 + min) * 60 + sec: one more second, minute, hour
      or day moves it by exactly that many seconds. */
  lemma {:induction false} TimeOfDayIsLinear(t: Tm)
    requires t.mon >= 0
    ensures MyTimegm(t.(sec := t.sec + 1)) == MyTimegm(t) + 1
    ensures MyTimegm(t.(min := t.min + 1)) == MyTimegm(t) + 60
    ensures MyTimegm(t.(hour := t.hour + 1)) == MyTimegm(t) + 3600
    ensures MyTimegm(t.(mday := t.mday + 1)) == MyTimegm(t) + 86400
  {
    var d := DaysAsWritten(t.year, t.mon, t.mday);
    assert DaysAsWritten(t.year, t.mon, t.mday + 1) == d + 1;
  }

  lemma {:induction false} DaylightSavingSubtractsAnHour(t: Tm)
    requires t.mon >= 0
    ensures MyTimegm(t.(isdst := 1)) == MyTimegm(t.(isdst := 0)) - 3600
  {
  }

  /** Month `mon + 12k` splits into `k` whole years and month `mon`. */
  lemma {:induction false} MonthSplit(mon: int, k: nat)
    requires 0 <= mon < 12
    ensures (mon + 12 * k) / 12 == k && (mon + 12 * k) % 12 == mon
    ensures mon / 12 == 0 && mon % 12 == mon
  {
    assert (mon + 12 * k) / 12 == k;
  }

  /** A month number of 12 or more is folded into whole years. */
  lemma {:induction false} MonthOverflowFoldsIntoYear(t: Tm, k: nat)
    requires 0 <= t.mon < 12
    ensures MyTimegm(t.(mon := t.mon + 12 * k)) == MyTimegm(t.(year := t.year + k))
  {
    MonthSplit(t.mon, k);
  }

  // ---------------------------------------------------------------------------
  // reference: the proleptic Gregorian calendar, counted year by year
  // ---------------------------------------------------------------------------

  /** Leap years by Euclidean remainders (which agree with C's for a zero test). */
  predicate Leap(y: int) {
    y % 4 == 0 && (y % 100 != 0 || y % 400 == 0)
  }

  function YearLength(y: int): int {
    if Leap(y) then 366 else 365
  }

  /** Days from 1970-01-01 to January 1st of year `y`, one year at a time. */
  ghost function YearStart(y: int): int
    decreases if y >= 1970 then y - 1970 else 1970 - y
  {
    if y == 1970 then 0
    else if y > 1970 then YearStart(y - 1) + YearLength(y - 1)
    else YearStart(y + 1) - YearLength(y)
  }

  function DaysBeforeMonth(y: int, m: int): int
    requires 0 <= m < 12
  {
    CumDays[m] + if Leap(y) && m >= 2 then 1 else 0
  }

  /** Days from 1970-01-01 to the given date of the proleptic Gregorian calendar. */
  ghost function CivilDays(y: int, m: int, d: int): int
    requires 0 <= m < 12
  {
    YearStart(y) + DaysBeforeMonth(y, m) + d - 1
  }

  lemma {:induction false} LeapAgreesWithC(y: int)
    ensures IsLeapYear(y) <==> Leap(y)
  {
    CModZero(y, 4);
    CModZero(y, 100);
    CModZero(y, 400);
  }

  /** C's remainder is zero exactly when the floor remainder is. */
  lemma {:induction false} CModZero(a: int, b: int)
    requires b == 4 || b == 100 || b == 400
    ensures CMod(a, b) == 0 <==> a % b == 0
  {
    if b == 4 {
      assert CMod(a, 4) == 0 <==> a % 4 == 0;
    } else if b == 100 {
      assert CMod(a, 100) == 0 <==> a % 100 == 0;
    } else {
      assert CMod(a, 400) == 0 <==> a % 400 == 0;
    }
  }

  // ---------------------------------------------------------------------------
  // corrected day count: floor division
  // ---------------------------------------------------------------------------

  /** The leap-day correction for January 1st of `y` with floor division. */
  function JanuaryFirst(y: int): int {
    (y - 1970) * 365 + (y - 1968) / 4 - (y - 1900) / 100 + (y - 1600) / 400
    - if Leap(y) then 1 else 0
  }

  /** `my_timegm` with the year arithmetic done by floor division. */
  function MyTimegmFloor(t: Tm): (r: int)
    requires t.mon >= 0
  {
    var year := 1900 + t.year + t.mon / MonthsPerYear;
    var m := t.mon % MonthsPerYear;
    Seconds(JanuaryFirst(year) + DaysBeforeMonth(year, m) + t.mday - 1, t)
  }

  /** Moving from `y` to `y + 1` crosses a multiple of 4, 100 or 400 in the shifted numerators
      of `JanuaryFirst` exactly when `y + 1` is such a multiple. */
  lemma {:induction false} StepBy4(y: int)
    ensures (y + 1 - 1968) / 4 - (y - 1968) / 4 == if (y + 1) % 4 == 0 then 1 else 0
  {
    assert (y + 1 - 1968) % 4 == (y + 1) % 4;
  }

  lemma {:induction false} StepBy100(y: int)
    ensures (y + 1 - 1900) / 100 - (y - 1900) / 100 == if (y + 1) % 100 == 0 then 1 else 0
  {
    assert (y + 1 - 1900) % 100 == (y + 1) % 100;
  }

  lemma {:induction false} StepBy400(y: int)
    ensures (y + 1 - 1600) / 400 - (y - 1600) / 400 == if (y + 1) % 400 == 0 then 1 else 0
  {
    assert (y + 1 - 1600) % 400 == (y + 1) % 400;
  }

  /** Inclusion-exclusion over 4, 100 and 400 counts one for a leap year and zero otherwise. */
  lemma {:induction false} LeapIndicator(z: int)
    ensures (if z % 4 == 0 then 1 else 0) - (if z % 100 == 0 then 1 else 0)
            + (if z % 400 == 0 then 1 else 0) == if Leap(z) then 1 else 0
  {
    if z % 400 == 0 {
      Multiple400(z);
    } else if z % 100 == 0 {
      Multiple100(z);
    }
  }

  lemma {:induction false} Multiple400(z: int)
    requires z % 400 == 0
    ensures z % 100 == 0 && z % 4 == 0
  {
    var j := z / 400;
    assert z == (4 * j) * 100;
    assert z == (100 * j) * 4;
  }

  lemma {:induction false} Multiple100(z: int)
    requires z % 100 == 0
    ensures z % 4 == 0
  {
    var j := z / 100;
    assert z == (25 * j) * 4;
  }

  /** Consecutive Januaries lie one year length apart, for every year. */
  lemma {:induction false} JanuaryFirstStep(y: int)
    ensures JanuaryFirst(y + 1) == JanuaryFirst(y) + YearLength(y)
  {
    StepBy4(y);
    StepBy100(y);
    StepBy400(y);
    LeapIndicator(y + 1);
  }

  lemma {:induction false} JanuaryFirstIsYearStart(y: int)
    ensures JanuaryFirst(y) == YearStart(y)
    decreases if y >= 1970 then y - 1970 else 1970 - y
  {
    if y > 1970 {
      JanuaryFirstIsYearStart(y - 1);
      JanuaryFirstStep(y - 1);
    } else if y < 1970 {
      JanuaryFirstIsYearStart(y + 1);
      JanuaryFirstStep(y);
    }
  }

  /** The corrected function counts calendar days exactly, for every year. */
  lemma {:induction false} MyTimegmFloorIsCivil(t: Tm)
    requires 0 <= t.mon < 12
    ensures MyTimegmFloor(t) == Seconds(CivilDays(1900 + t.year, t.mon, t.mday), t)
  {
    MonthSplit(t.mon, 0);
    JanuaryFirstIsYearStart(1900 + t.year);
  }

  /** From 1968 on every numerator is non-negative, so truncation and floor agree on the day
      count. */
  lemma {:induction false} DaysAgreeFrom1968(t: Tm)
    requires 0 <= t.mon < 12 && 1900 + t.year >= 1968
    ensures DaysAsWritten(t.year, t.mon, t.mday)
            == JanuaryFirst(1900 + t.year) + DaysBeforeMonth(1900 + t.year, t.mon) + t.mday - 1
  {
    var y := 1900 + t.year;
    MonthSplit(t.mon, 0);
    LeapAgreesWithC(y);
    assert CDiv(y - 1968, 4) == (y - 1968) / 4;
    assert CDiv(y - 1900, 100) == (y - 1900) / 100;
    assert CDiv(y - 1600, 400) == (y - 1600) / 400;
  }

  /** From 1968 on the function as written counts calendar days exactly. */
  lemma {:induction false} MyTimegmIsCivilFrom1968(t: Tm)
    requires 0 <= t.mon < 12 && 1900 + t.year >= 1968
    ensures MyTimegm(t) == Seconds(CivilDays(1900 + t.year, t.mon, t.mday), t)
  {
    DaysAgreeFrom1968(t);
    JanuaryFirstIsYearStart(1900 + t.year);
  }

  /** The day count as written for 1967-01-01. */
  lemma {:induction false} DaysOf1967()
    ensures DaysAsWritten(67, 0, 1) == -1095
  {
    assert CDiv(-1, 4) == 0;
    assert CDiv(67, 100) == 0;
    assert CDiv(367, 400) == 0;
    assert !IsLeapYear(1967) by {
      assert CMod(1967, 4) == 3;
    }
    assert YearMonthDays(1967, 0, 1) == -1095;
  }

  /** Before 1968 truncation rounds the leap-day count the wrong way: 1967-01-01 comes out
      as 1095 days before the epoch. */
  lemma {:induction false} MyTimegmWrongBefore1968()
    ensures MyTimegm(Tm(0, 0, 0, 1, 0, 67, 0, 0)) == -1095 * 86400
  {
    DaysOf1967();
  }

  /** ... whereas the calendar puts it 1096 days before: 1968 was a leap year. */
  lemma {:induction false} CalendarBefore1968()
    ensures Seconds(CivilDays(1967, 0, 1), Tm(0, 0, 0, 1, 0, 67, 0, 0)) == -1096 * 86400
  {
    assert YearStart(1969) == -365;
    assert Leap(1968);
    assert YearStart(1968) == -731;
    assert YearStart(1967) == -1096;
    assert CivilDays(1967, 0, 1) == -1096;
  }
}
