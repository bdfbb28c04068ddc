/**
 * ECMAScript time values: a `Date` is a number of milliseconds since
 * 1970-01-01T00:00:00Z, and its UTC calendar fields are computed by the
 * Day, YearFromTime, MonthFromTime, DateFromTime and WeekDay abstract
 * operations of section 21.4.1 of ECMA-262. Leap seconds do not exist
 * there, so every UTC day is exactly 86400000 ms long.
 */
module Calendar {

  /** A `Date`'s time value, `Date.prototype.getTime()`. */
  type Time = int

  const MsPerDay: int := 86400000

  /** The largest and smallest time values a `Date` can hold (section 21.4.1.31, TimeClip). */
  const MaxTime: int := 8640000000000000

  /** Day(t): the number of the UTC day holding `t`, rounded towards minus infinity. */
  function Day(t: Time): int {
    t / MsPerDay
  }

  /** TimeWithinDay(t): milliseconds since that day's midnight. */
  function TimeWithinDay(t: Time): (ms: int)
    ensures 0 <= ms < MsPerDay
    ensures t == Day(t) * MsPerDay + ms
  {
    t % MsPerDay
  }

  /** WeekDay(t): 0 is Sunday, 6 is Saturday; day 0 (1970-01-01) was a Thursday. */
  function WeekDay(t: Time): (w: int)
    ensures 0 <= w < 7
  {
    (Day(t) + 4) % 7
  }

  /** DayFromYear(y): the number of the day on which year `y` begins (1 January). */
  function DayFromYear(y: int): int {
    365 * (y - 1970) + (y - 1969) / 4 - (y - 1901) / 100 + (y - 1601) / 400
  }

  /** 1 when `y` is a leap year of the proleptic Gregorian calendar, else 0. */
  function LeapDays(y: int): (n: int)
    ensures n == 0 || n == 1
  {
    if y % 4 != 0 then 0
    else if y % 100 != 0 then 1
    else if y % 400 != 0 then 0
    else 1
  }

  /** DaysInYear(y). */
  function DaysInYear(y: int): int {
    365 + LeapDays(y)
  }

  /** Shifting a dividend by whole multiples of a constant divisor shifts the quotient. */
  lemma DivShift(x: int, d: int, m: int)
    requires d in {4, 7, 100, 400, MsPerDay}
    ensures (x + d * m) / d == x / d + m
  {
    if d == 4 {
      assert (x + 4 * m) / 4 == x / 4 + m;
    } else if d == 7 {
      assert (x + 7 * m) / 7 == x / 7 + m;
    } else if d == 100 {
      assert (x + 100 * m) / 100 == x / 100 + m;
    } else if d == 400 {
      assert (x + 400 * m) / 400 == x / 400 + m;
    } else {
      assert (x + 86400000 * m) / 86400000 == x / 86400000 + m;
    }
  }

  /** The remainder ignores whole multiples of the divisor. */
  lemma ModShift(x: int, d: int, m: int)
    requires d in {4, 100, 400}
    ensures (x + d * m) % d == x % d
  {
    DivShift(x, d, m);
    if d == 4 {
      assert (x + 4 * m) % 4 == (x + 4 * m) - 4 * ((x + 4 * m) / 4);
    } else if d == 100 {
      assert (x + 100 * m) % 100 == (x + 100 * m) - 100 * ((x + 100 * m) / 100);
    } else {
      assert (x + 400 * m) % 400 == (x + 400 * m) - 400 * ((x + 400 * m) / 400);
    }
  }

  /** Every fourth year adds one to the count of four-year steps. */
  lemma LeapStep4(y: int)
    ensures (y - 1968) / 4 == (y - 1969) / 4 + (if y % 4 == 0 then 1 else 0)
  {
    DivShift(y, 4, -492);
    ModShift(y, 4, -492);
  }

  /** Every hundredth year adds one to the count of century steps. */
  lemma LeapStep100(y: int)
    ensures (y - 1900) / 100 == (y - 1901) / 100 + (if y % 100 == 0 then 1 else 0)
  {
    DivShift(y, 100, -19);
    ModShift(y, 100, -19);
  }

  /** Every four-hundredth year adds one to the count of four-century steps. */
  lemma LeapStep400(y: int)
    ensures (y - 1600) / 400 == (y - 1601) / 400 + (if y % 400 == 0 then 1 else 0)
  {
    DivShift(y, 400, -4);
    ModShift(y, 400, -4);
  }

  /** A multiple of 400 is a multiple of 100, and a multiple of 100 is a multiple of 4. */
  lemma MultiplesNest(y: int)
    ensures y % 100 == 0 ==> y % 4 == 0
    ensures y % 400 == 0 ==> y % 100 == 0
  {
    if y % 100 == 0 {
      var q := y / 100;
      assert y == 4 * (25 * q);
      ModShift(0, 4, 25 * q);
    }
    if y % 400 == 0 {
      var q := y / 400;
      assert y == 100 * (4 * q);
      ModShift(0, 100, 4 * q);
    }
  }

  /** Years follow each other without gaps: year `y` lasts DaysInYear(y) days. */
  lemma {:induction false} NextYear(y: int)
    ensures DayFromYear(y + 1) == DayFromYear(y) + DaysInYear(y)
  {
    LeapStep4(y);
    LeapStep100(y);
    LeapStep400(y);
    MultiplesNest(y);
    assert DayFromYear(y + 1) == 365 * (y - 1969) + (y - 1968) / 4 - (y - 1900) / 100 + (y - 1600) / 400;
  }

  /** Four hundred Gregorian years are exactly 146097 days long. */
  lemma {:induction false} FourCenturies(y: int, k: int)
    ensures DayFromYear(y + 400 * k) == DayFromYear(y) + 146097 * k
  {
    DivShift(y - 1969, 4, 100 * k);
    DivShift(y - 1901, 100, 4 * k);
    DivShift(y - 1601, 400, k);
  }

  /** Years begin on strictly increasing days. */
  lemma {:induction false} YearsIncrease(y: int, z: int)
    requires y <= z
    ensures DayFromYear(y) + 365 * (z - y) <= DayFromYear(z)
    decreases z - y
  {
    if y < z {
      NextYear(y);
      YearsIncrease(y + 1, z);
    }
  }

  /** The year of the four-century cycle holding day `r` of that cycle, found by search from year `y`. */
  lemma {:induction false} YearInCycle(r: int, y: int) returns (n: int)
    requires 0 <= y < 400 && DayFromYear(1970 + y) <= r < 146097
    ensures y <= n < 400
    ensures DayFromYear(1970 + n) <= r < DayFromYear(1970 + n + 1)
    decreases 400 - y
  {
    NextYear(1970 + y);
    if y == 399 || r < DayFromYear(1970 + y + 1) {
      FourCenturies(1970, 1);
      n := y;
    } else {
      n := YearInCycle(r, y + 1);
    }
  }

  /** Every day lies in some year. */
  lemma YearExists(d: int)
    ensures exists y :: DayFromYear(y) <= d < DayFromYear(y + 1)
  {
    var k, r := d / 146097, d % 146097;
    FourCenturies(1970, k);
    var n := YearInCycle(r, 0);
    CycleYear(d, k, r, n);
  }

  /** No day lies in two years. */
  lemma YearUnique(d: int)
    ensures forall y, z :: DayFromYear(y) <= d < DayFromYear(y + 1) && DayFromYear(z) <= d < DayFromYear(z + 1) ==> y == z
  {
    forall y, z | DayFromYear(y) <= d < DayFromYear(y + 1) && DayFromYear(z) <= d < DayFromYear(z + 1)
      ensures y == z
    {
      if y < z {
        YearsIncrease(y + 1, z);
      } else if z < y {
        YearsIncrease(z + 1, y);
      }
    }
  }

  /** YearFromTime on day numbers: the year holding day `d`. */
  function YearFromDay(d: int): (y: int)
    ensures DayFromYear(y) <= d < DayFromYear(y + 1)
  {
    YearExists(d);
    YearUnique(d);
    var y :| DayFromYear(y) <= d < DayFromYear(y + 1);
    y
  }

  /** The year `n` of the cycle holding day `r` of cycle `k` holds day `d`. */
  lemma CycleYear(d: int, k: int, r: int, n: int)
    requires d == 146097 * k + r
    requires DayFromYear(1970 + n) <= r < DayFromYear(1970 + n + 1)
    ensures DayFromYear(1970 + 400 * k + n) <= d < DayFromYear(1970 + 400 * k + n + 1)
  {
    FourCenturies(1970 + n, k);
    FourCenturies(1970 + n + 1, k);
    assert 1970 + n + 400 * k == 1970 + 400 * k + n;
    assert 1970 + n + 1 + 400 * k == 1970 + 400 * k + n + 1;
  }

  /** YearFromTime(t), `Date.prototype.getUTCFullYear()`. */
  function YearFromTime(t: Time): int {
    YearFromDay(Day(t))
  }

  /** The year of `t` begins on or before its day and lasts past it. */
  lemma YearHolds(t: Time)
    ensures var y := YearFromTime(t); DayFromYear(y) <= Day(t) < DayFromYear(y) + DaysInYear(y)
  {
    var y := YearFromDay(Day(t));
    NextYear(y);
  }

  /** DayWithinYear(t): 0 for 1 January. */
  function DayWithinYear(t: Time): (n: int)
    ensures 0 <= n < DaysInYear(YearFromTime(t))
  {
    YearHolds(t);
    Day(t) - DayFromYear(YearFromTime(t))
  }

  /** The day within the year on which month `m` (0 for January) begins. */
  function MonthStart(m: int, leap: int): int
    requires 0 <= m < 12
  {
    if m == 0 then 0
    else if m == 1 then 31
    else if m == 2 then 59 + leap
    else if m == 3 then 90 + leap
    else if m == 4 then 120 + leap
    else if m == 5 then 151 + leap
    else if m == 6 then 181 + leap
    else if m == 7 then 212 + leap
    else if m == 8 then 243 + leap
    else if m == 9 then 273 + leap
    else if m == 10 then 304 + leap
    else 334 + leap
  }

  /** The month (0 to 11) holding day `dwy` of a year; `leap` is its LeapDays. */
  function MonthOfDayInYear(dwy: int, leap: int): (m: int)
    requires leap == 0 || leap == 1
    requires 0 <= dwy < 365 + leap
    ensures 0 <= m < 12
    ensures MonthStart(m, leap) <= dwy
    ensures m < 11 ==> dwy < MonthStart(m + 1, leap)
  {
    if dwy < 31 then 0
    else if dwy < 59 + leap then 1
    else if dwy < 90 + leap then 2
    else if dwy < 120 + leap then 3
    else if dwy < 151 + leap then 4
    else if dwy < 181 + leap then 5
    else if dwy < 212 + leap then 6
    else if dwy < 243 + leap then 7
    else if dwy < 273 + leap then 8
    else if dwy < 304 + leap then 9
    else if dwy < 334 + leap then 10
    else 11
  }

  /** MonthFromTime(t), `Date.prototype.getUTCMonth()`: 0 for January. */
  function MonthFromTime(t: Time): (m: int)
    ensures 0 <= m < 12
  {
    MonthOfDayInYear(DayWithinYear(t), LeapDays(YearFromTime(t)))
  }

  /** DateFromTime(t), `Date.prototype.getUTCDate()`: the day of the month, from 1. */
  function DateFromTime(t: Time): (d: int)
    ensures 1 <= d <= 31
  {
    DayWithinYear(t) - MonthStart(MonthFromTime(t), LeapDays(YearFromTime(t))) + 1
  }

  /** The UTC year, month and day of the month fix the day they were computed from. */
  lemma DayFromFields(t: Time)
    ensures Day(t) == DayFromYear(YearFromTime(t))
                      + MonthStart(MonthFromTime(t), LeapDays(YearFromTime(t)))
                      + DateFromTime(t) - 1
  {
  }

  /** MakeDay(year, month, date) for a month in 0 to 11: the day number of that calendar date,
      where a date past the month's end runs on into the following days. */
  function MakeDay(year: int, month: int, date: int): int
    requires 0 <= month < 12
  {
    DayFromYear(year) + MonthStart(month, LeapDays(year)) + date - 1
  }

  /** `d.setUTCDate(n)` on a valid date: same year, month and time of day, day of the month `n`. */
  function SetUtcDate(t: Time, date: int): Time {
    MakeDay(YearFromTime(t), MonthFromTime(t), date) * MsPerDay + TimeWithinDay(t)
  }

  /** `d.setUTCDate(d.getUTCDate() + 1)` moves the date exactly one day forward. */
  lemma NextUtcDate(t: Time)
    ensures SetUtcDate(t, DateFromTime(t) + 1) == t + MsPerDay
    ensures Day(t + MsPerDay) == Day(t) + 1
    ensures TimeWithinDay(t + MsPerDay) == TimeWithinDay(t)
  {
    DayFromFields(t);
    DivShift(t, MsPerDay, 1);
  }

  /** The UTC calendar fields of two time values agree exactly when they fall on the same UTC day. */
  lemma {:induction false} SameFieldsSameDay(a: Time, b: Time)
    ensures (YearFromTime(a) == YearFromTime(b) && MonthFromTime(a) == MonthFromTime(b)
             && DateFromTime(a) == DateFromTime(b)) <==> Day(a) == Day(b)
  {
    DayFromFields(a);
    DayFromFields(b);
  }

  /** Any seven consecutive days hold each weekday once. */
  lemma WeekDayShift(t: Time, k: int)
    ensures WeekDay(t + k * MsPerDay) == (WeekDay(t) + k) % 7
  {
    DivShift(t, MsPerDay, k);
    DivShift(Day(t) + 4, 7, 0);
    var d := Day(t) + 4;
    assert (d + k) % 7 == (d % 7 + k) % 7 by {
      DivShift(d % 7 + k, 7, d / 7);
    }
  }
}
