/**
 * `new Date(s).getTime()` for the timestamps of the transaction log, which are
 * written in the fixed UTC form YYYY-MM-DDTHH:MM:SSZ of section 5.6 of RFC 3339
 * (the same form as ECMAScript's Date Time String Format without milliseconds).
 * Times are milliseconds since 1970-01-01T00:00:00Z on the proleptic Gregorian
 * calendar, as ECMAScript's MakeDay/MakeTime/MakeDate compute them.
 */
module Timestamps {
  import opened Wrappers
  import JsNumbers

  datatype DateTime = DateTime(year: int, month: int, day: int, hour: int, minute: int, second: int)

  predicate IsLeapYear(y: int) {
    y % 4 == 0 && (y % 100 != 0 || y % 400 == 0)
  }

  function DaysInMonth(y: int, m: int): (r: int)
    requires 1 <= m <= 12
    ensures 28 <= r <= 31
    ensures r == 29 <==> m == 2 && IsLeapYear(y)
  {
    if m == 2 then (if IsLeapYear(y) then 29 else 28)
    else if m == 4 || m == 6 || m == 9 || m == 11 then 30
    else 31
  }

  /** A real calendar date and time of day (no leap seconds, no 24:00). */
  predicate Valid(t: DateTime) {
    && 1 <= t.month <= 12
    && 1 <= t.day <= DaysInMonth(t.year, t.month)
    && 0 <= t.hour < 24 && 0 <= t.minute < 60 && 0 <= t.second < 60
  }

  /** The number of days from 1970-01-01 to March 1 of year `y`. Years are counted from
      March so that a leap day is the last day of its year; a 400-year era has 146097 days. */
  function MarchFirst(y: int): int {
    var era := y / 400;
    var yoe := y - era * 400;
    era * 146097 + EraDays(yoe) - 719468
  }

  /** The days of the first `n` March-based years of an era: 365 each, one more every
      fourth year, one fewer every hundredth. */
  function EraDays(n: int): int {
    n * 365 + n / 4 - n / 100
  }

  /** The number of days from 1970-01-01 to the date y-m-d. */
  function DaysFromCivil(y: int, m: int, d: int): int
    requires 1 <= m <= 12
  {
    var y' := if m <= 2 then y - 1 else y;
    var mp := if m > 2 then m - 3 else m + 9;
    MarchFirst(y') + (153 * mp + 2) / 5 + d - 1
  }

  /** The calendar day after y-m-d. */
  function NextDay(y: int, m: int, d: int): (int, int, int)
    requires 1 <= m <= 12 && 1 <= d <= DaysInMonth(y, m)
  {
    if d < DaysInMonth(y, m) then (y, m, d + 1)
    else if m < 12 then (y, m + 1, 1)
    else (y + 1, 1, 1)
  }

  /** The day count starts at the Unix epoch ... */
  lemma EpochIsDayZero()
    ensures DaysFromCivil(1970, 1, 1) == 0
  {
  }

  /** ... and advances by exactly one from each calendar day to the next, across month
      ends, year ends and leap days: it is the count of days since 1970-01-01. */
  lemma DaysFromCivilNextDay(y: int, m: int, d: int)
    requires 1 <= m <= 12 && 1 <= d <= DaysInMonth(y, m)
    ensures var (y2, m2, d2) := NextDay(y, m, d);
            1 <= m2 <= 12 && DaysFromCivil(y2, m2, d2) == DaysFromCivil(y, m, d) + 1
  {
    if d == DaysInMonth(y, m) && m == 2 {
      LeapDayEndsShiftedYear(y);
    }
  }

  /** The March-based year that starts in `y` has 366 days exactly when the calendar
      year `y + 1`, which holds its February, is a leap year. */
  lemma MarchYearLength(y: int)
    ensures MarchFirst(y + 1) == MarchFirst(y) + if IsLeapYear(y + 1) then 366 else 365
  {
    var era, yoe := y / 400, y % 400;
    assert y == 400 * era + yoe && 0 <= yoe < 400;
    if yoe == 399 {
      YearClosingEra(era);
      assert y + 1 == 400 * (era + 1);
    } else {
      YearWithinEra(era, yoe + 1);
    }
  }

  /** The last year of an era, whose February falls in a year divisible by 400, is long. */
  lemma YearClosingEra(era: int)
    ensures MarchFirst(400 * (era + 1)) == MarchFirst(400 * era + 399) + 366
    ensures IsLeapYear(400 * (era + 1))
  {
    MarchFirstInEra(era, 399);
    MarchFirstInEra(era + 1, 0);
    assert EraDays(399) == 145731 && EraDays(0) == 0;
    LeapInEra(era + 1, 0);
  }

  /** Any other year of an era is long exactly when the calendar year holding its
      February is a leap year. */
  lemma YearWithinEra(era: int, n: int)
    requires 1 <= n < 400
    ensures MarchFirst(400 * era + n) == MarchFirst(400 * era + (n - 1))
                                        + if IsLeapYear(400 * era + n) then 366 else 365
  {
    MarchFirstInEra(era, n);
    MarchFirstInEra(era, n - 1);
    LeapInEra(era, n);
    EraDaysStep(n);
    CenturyIsFourth(n);
  }

  /** A multiple of a hundred is a multiple of four. */
  lemma CenturyIsFourth(n: int)
    ensures n % 100 == 0 ==> n % 4 == 0
  {
    if n % 100 == 0 {
      assert n == 4 * (25 * (n / 100));
    }
  }

  /** March 1 of year `n` of an era, counted from the era's start. */
  lemma MarchFirstInEra(era: int, n: int)
    requires 0 <= n < 400
    ensures MarchFirst(400 * era + n) == era * 146097 + EraDays(n) - 719468
  {
    var y := 400 * era + n;
    assert y / 400 == era;
  }

  /** The leap rule looks only at the year's place in its 400-year era. */
  lemma LeapInEra(era: int, n: int)
    requires 0 <= n < 400
    ensures IsLeapYear(400 * era + n) <==> n % 4 == 0 && (n % 100 != 0 || n == 0)
  {
    ShiftMod(100 * era, 4, n);
    ShiftMod(4 * era, 100, n);
    ShiftMod(era, 400, n);
  }

  /** Adding a multiple of `d` does not change the remainder by `d`. */
  lemma ShiftMod(k: int, d: int, n: int)
    requires d == 4 || d == 100 || d == 400
    ensures (d * k + n) % d == n % d
  {
    var q, r := n / d, n % d;
    assert n == d * q + r && 0 <= r < d;
    assert d * k + n == d * (k + q) + r;
    if d == 4 {
      assert (4 * (k + q) + r) % 4 == r;
    } else if d == 100 {
      assert (100 * (k + q) + r) % 100 == r;
    } else {
      assert (400 * (k + q) + r) % 400 == r;
    }
  }

  /** One more year of an era adds 365 days, one more on multiples of four, one fewer on
      multiples of a hundred. */
  lemma EraDaysStep(n: int)
    ensures EraDays(n) == EraDays(n - 1) + 365 + (if n % 4 == 0 then 1 else 0)
                                               - (if n % 100 == 0 then 1 else 0)
  {
    DivStep4(n);
    DivStep100(n);
  }

  /** Counting one more year adds a fourth year exactly at multiples of four ... */
  lemma DivStep4(n: int)
    ensures n / 4 == (n - 1) / 4 + if n % 4 == 0 then 1 else 0
  {
    var q := (n - 1) / 4;
    assert n - 1 == 4 * q + (n - 1) % 4;
  }

  /** ... and a century exactly at multiples of a hundred. */
  lemma DivStep100(n: int)
    ensures n / 100 == (n - 1) / 100 + if n % 100 == 0 then 1 else 0
  {
    var q := (n - 1) / 100;
    assert n - 1 == 100 * q + (n - 1) % 100;
  }

  /** Moving from the last day of February to March 1 advances the day count by one,
      in every case of the Gregorian leap rule. */
  lemma LeapDayEndsShiftedYear(y: int)
    ensures DaysFromCivil(y, 3, 1) == DaysFromCivil(y, 2, DaysInMonth(y, 2)) + 1
  {
    MarchYearLength(y - 1);
  }

  /** `getTime()` of a date and time: milliseconds since the epoch. */
  function EpochMillis(t: DateTime): (r: int)
    requires Valid(t)
    ensures r % 1000 == 0
    ensures DaysFromCivil(t.year, t.month, t.day) * 86400000 <= r < (DaysFromCivil(t.year, t.month, t.day) + 1) * 86400000
  {
    (((DaysFromCivil(t.year, t.month, t.day) * 24 + t.hour) * 60 + t.minute) * 60 + t.second) * 1000
  }

  /** `t1` is an earlier date and time than `t2`: the fields compared most significant first. */
  predicate Before(t1: DateTime, t2: DateTime) {
    || t1.year < t2.year
    || (t1.year == t2.year && t1.month < t2.month)
    || (t1.year == t2.year && t1.month == t2.month && t1.day < t2.day)
    || (t1.year == t2.year && t1.month == t2.month && t1.day == t2.day && t1.hour < t2.hour)
    || (t1.year == t2.year && t1.month == t2.month && t1.day == t2.day && t1.hour == t2.hour
        && t1.minute < t2.minute)
    || (t1.year == t2.year && t1.month == t2.month && t1.day == t2.day && t1.hour == t2.hour
        && t1.minute == t2.minute && t1.second < t2.second)
  }

  /** Every day of a month comes before the first day of any later month of the same year. */
  lemma {:induction false} MonthsAdvance(y: int, m: int, d: int, m2: int)
    requires 1 <= m < m2 <= 12 && 1 <= d <= DaysInMonth(y, m)
    ensures DaysFromCivil(y, m, d) < DaysFromCivil(y, m2, 1)
    decreases m2 - m
  {
    DaysFromCivilNextDay(y, m, DaysInMonth(y, m));
    if m + 1 < m2 {
      MonthsAdvance(y, m + 1, 1, m2);
    }
  }

  /** Every day of a year comes before January 1 of the next year. */
  lemma DaysBeforeNewYear(y: int, m: int, d: int)
    requires 1 <= m <= 12 && 1 <= d <= DaysInMonth(y, m)
    ensures DaysFromCivil(y, m, d) < DaysFromCivil(y + 1, 1, 1)
  {
    DaysFromCivilNextDay(y, 12, 31);
    if m < 12 {
      MonthsAdvance(y, m, d, 12);
    }
  }

  /** January 1 of a year comes no later than any day of a later year. */
  lemma {:induction false} NewYearBeforeLaterDays(y: int, y2: int, m2: int, d2: int)
    requires y <= y2 && 1 <= m2 <= 12 && 1 <= d2 <= DaysInMonth(y2, m2)
    ensures DaysFromCivil(y, 1, 1) <= DaysFromCivil(y2, m2, d2)
    decreases y2 - y
  {
    if y < y2 {
      DaysBeforeNewYear(y, 1, 1);
      NewYearBeforeLaterDays(y + 1, y2, m2, d2);
    } else if m2 > 1 {
      MonthsAdvance(y, 1, 1, m2);
    }
  }

  /** The day count is strictly increasing in calendar order. */
  lemma DaysFromCivilIncreasing(t1: DateTime, t2: DateTime)
    requires Valid(t1) && Valid(t2)
    requires Before(t1, t2) && !(t1.year == t2.year && t1.month == t2.month && t1.day == t2.day)
    ensures DaysFromCivil(t1.year, t1.month, t1.day) < DaysFromCivil(t2.year, t2.month, t2.day)
  {
    if t1.year < t2.year {
      DaysBeforeNewYear(t1.year, t1.month, t1.day);
      NewYearBeforeLaterDays(t1.year + 1, t2.year, t2.month, t2.day);
    } else if t1.month < t2.month {
      MonthsAdvance(t1.year, t1.month, t1.day, t2.month);
    }
  }

  /** The milliseconds into its day of a time of day. */
  function TimeOfDayMillis(t: DateTime): int {
    ((t.hour * 60 + t.minute) * 60 + t.second) * 1000
  }

  /** `getTime()` is strictly increasing in calendar order: comparing epoch milliseconds
      compares the dates and times chronologically. */
  lemma EpochMillisIncreasing(t1: DateTime, t2: DateTime)
    requires Valid(t1) && Valid(t2) && Before(t1, t2)
    ensures EpochMillis(t1) < EpochMillis(t2)
  {
    var d1 := DaysFromCivil(t1.year, t1.month, t1.day);
    var d2 := DaysFromCivil(t2.year, t2.month, t2.day);
    assert EpochMillis(t1) == d1 * 86400000 + TimeOfDayMillis(t1);
    assert EpochMillis(t2) == d2 * 86400000 + TimeOfDayMillis(t2);
    assert 0 <= TimeOfDayMillis(t1) < 86400000 && 0 <= TimeOfDayMillis(t2) < 86400000;
    if t1.year == t2.year && t1.month == t2.month && t1.day == t2.day {
      assert TimeOfDayMillis(t1) < TimeOfDayMillis(t2);
    } else {
      DaysFromCivilIncreasing(t1, t2);
      assert d1 * 86400000 + 86400000 <= d2 * 86400000;
    }
  }

  predicate IsDecimalDigit(c: char) {
    '0' <= c <= '9'
  }

  /** `s` has the shape DDDD-DD-DDTDD:DD:DDZ. */
  predicate HasTimestampShape(s: string) {
    && |s| == 20
    && s[4] == '-' && s[7] == '-' && s[10] == 'T' && s[13] == ':' && s[16] == ':' && s[19] == 'Z'
    && (forall i :: 0 <= i < 4 ==> IsDecimalDigit(s[i]))
    && IsDecimalDigit(s[5]) && IsDecimalDigit(s[6]) && IsDecimalDigit(s[8]) && IsDecimalDigit(s[9])
    && IsDecimalDigit(s[11]) && IsDecimalDigit(s[12]) && IsDecimalDigit(s[14]) && IsDecimalDigit(s[15])
    && IsDecimalDigit(s[17]) && IsDecimalDigit(s[18])
  }

  function Digit(c: char): nat
    requires IsDecimalDigit(c)
  {
    c as int - '0' as int
  }

  function TwoDigits(a: char, b: char): nat
    requires IsDecimalDigit(a) && IsDecimalDigit(b)
  {
    10 * Digit(a) + Digit(b)
  }

  /** The fields of a timestamp in the fixed form; `None` when the text does not have that
      form or does not name a real date and time (an invalid `Date`). */
  function ParseDateTime(s: string): (r: Option<DateTime>)
    ensures r.Some? ==> Valid(r.value)
  {
    if !HasTimestampShape(s) then None
    else
      var t := DateTime(
        1000 * Digit(s[0]) + 100 * Digit(s[1]) + 10 * Digit(s[2]) + Digit(s[3]),
        TwoDigits(s[5], s[6]), TwoDigits(s[8], s[9]),
        TwoDigits(s[11], s[12]), TwoDigits(s[14], s[15]), TwoDigits(s[17], s[18]));
      if Valid(t) then Some(t) else None
  }

  /** `new Date(s).getTime()`; `None` stands for `NaN`. */
  function TimestampMillis(s: string): (r: Option<int>)
    ensures r.Some? <==> ParseDateTime(s).Some?
    ensures r.Some? ==> HasTimestampShape(s) && r.value % 1000 == 0
  {
    match ParseDateTime(s)
    case None => None
    case Some(t) => Some(EpochMillis(t))
  }

  function DigitChar(n: nat): (c: char)
    requires n < 10
    ensures IsDecimalDigit(c) && Digit(c) == n
  {
    ('0' as int + n) as char
  }

  /** `n` in exactly two decimal digits, with a leading zero when needed. */
  function Pad2(n: nat): (r: string)
    requires n < 100
    ensures |r| == 2 && IsDecimalDigit(r[0]) && IsDecimalDigit(r[1]) && TwoDigits(r[0], r[1]) == n
  {
    [DigitChar(n / 10), DigitChar(n % 10)]
  }

  /** `n` in exactly four decimal digits, with leading zeros when needed. */
  function Pad4(n: nat): (r: string)
    requires n < 10000
    ensures |r| == 4 && forall i :: 0 <= i < 4 ==> IsDecimalDigit(r[i])
    ensures 1000 * Digit(r[0]) + 100 * Digit(r[1]) + 10 * Digit(r[2]) + Digit(r[3]) == n
  {
    var q1 := n / 10;
    var q2 := q1 / 10;
    var q3 := q2 / 10;
    assert n == 1000 * q3 + 100 * (q2 % 10) + 10 * (q1 % 10) + n % 10;
    [DigitChar(q3), DigitChar(q2 % 10), DigitChar(q1 % 10), DigitChar(n % 10)]
  }

  /** The fixed-form text of a date and time with a four-digit year, DDDD-DD-DDTDD:DD:DDZ. */
  function Format(t: DateTime): (s: string)
    requires Valid(t) && 0 <= t.year < 10000
    ensures |s| == 20
  {
    var y, mo, d := Pad4(t.year), Pad2(t.month), Pad2(t.day);
    var h, mi, se := Pad2(t.hour), Pad2(t.minute), Pad2(t.second);
    [y[0], y[1], y[2], y[3], '-', mo[0], mo[1], '-', d[0], d[1], 'T',
     h[0], h[1], ':', mi[0], mi[1], ':', se[0], se[1], 'Z']
  }

  /** Parsing the fixed-form text of a date and time gives that date and time back, so
      its `getTime()` is the date's epoch milliseconds. */
  lemma ParseFormat(t: DateTime)
    requires Valid(t) && 0 <= t.year < 10000
    ensures ParseDateTime(Format(t)) == Some(t)
    ensures TimestampMillis(Format(t)) == Some(EpochMillis(t))
  {
    FormatFields(t);
  }

  /** The fixed-form text has the shape ... */
  lemma FormatShape(t: DateTime)
    requires Valid(t) && 0 <= t.year < 10000
    ensures HasTimestampShape(Format(t))
  {
  }

  /** ... and its digit groups read back as the fields. */
  lemma FormatFields(t: DateTime)
    requires Valid(t) && 0 <= t.year < 10000
    ensures var s := Format(t);
            && HasTimestampShape(s)
            && 1000 * Digit(s[0]) + 100 * Digit(s[1]) + 10 * Digit(s[2]) + Digit(s[3]) == t.year
            && TwoDigits(s[5], s[6]) == t.month && TwoDigits(s[8], s[9]) == t.day
            && TwoDigits(s[11], s[12]) == t.hour && TwoDigits(s[14], s[15]) == t.minute
            && TwoDigits(s[17], s[18]) == t.second
  {
    FormatShape(t);
  }
}
