/** Dates of the real-time clock and seconds since 1970 (POSIX.1-2017, Base Definitions, section 4.16). */
module Calendar {
  const U64: nat := 0x1_0000_0000_0000_0000
  const SECONDS_A_DAY: nat := 86400

  type uint8 = n: int | 0 <= n < 0x100
  type uint16 = n: int | 0 <= n < 0x1_0000

  datatype Datetime = Datetime(
    second: uint8, minute: uint8, hour: uint8, day: uint8, month: uint8, year: uint16, century: uint8)

  predicate Leap(year: nat) {
    (year % 4 == 0 && year % 100 != 0) || year % 400 == 0
  }

  function YearLength(year: nat): nat {
    if Leap(year) then 366 else 365
  }

  function DaysInMonth(): (days: seq<nat>)
    ensures |days| == 12
  {
    [31, 28, 31, 30, 31, 30, 31, 31, 30, 31, 30, 31]
  }

  function MonthLength(year: nat, month: nat): (days: nat)
    requires 1 <= month <= 12
    ensures 28 <= days <= 31
  {
    DaysInMonth()[month - 1] + if month == 2 && Leap(year) then 1 else 0
  }

  /** Days from the start of 1970 to that of a year; none before 1970. */
  function DaysBefore(year: nat): nat {
    if year <= 1970 then 0 else DaysBefore(year - 1) + YearLength(year - 1)
  }

  function DaysBeforeMonth(year: nat, month: nat): (days: nat)
    requires month <= 13
    ensures month <= 1 ==> days == 0
  {
    if month <= 1 then 0 else DaysBeforeMonth(year, month - 1) + MonthLength(year, month - 1)
  }

  predicate ValidDate(d: Datetime) {
    d.second < 60 && d.minute < 60 && d.hour < 24 && 1 <= d.month <= 12 && 1 <= d.day <= MonthLength(d.year, d.month)
  }

  function DayNumber(d: Datetime): int
    requires d.month <= 13
  {
    DaysBefore(d.year) + DaysBeforeMonth(d.year, d.month) + d.day - 1
  }

  function SecondOfDay(d: Datetime): nat {
    d.hour * 3600 + d.minute * 60 + d.second
  }

  /** Negative only for day 0 of January 1970 or earlier, which the code wraps into 64 bits. */
  function Timestamp(d: Datetime): int
    requires d.month <= 13
  {
    DayNumber(d) * SECONDS_A_DAY + SecondOfDay(d)
  }

  /** The first timestamp past the last 16-bit year. */
  function Limit(): nat {
    DaysBefore(0x1_0000) * SECONDS_A_DAY
  }

  /** Year and day of the year of the day that is so many days after the start of a year; years have 16 bits. */
  function SplitYears(days: nat, year: uint16): (uint16, nat) {
    if days >= YearLength(year) then SplitYears(days - YearLength(year), (year + 1) % 0x1_0000) else (year, days)
  }

  /** Month and day of the month, from 0. */
  function SplitMonths(days: nat, year: uint16, month: uint8): (split: (uint8, nat))
    requires 1 <= month <= 12 && DaysBeforeMonth(year, month) + days < YearLength(year)
    ensures 1 <= split.0 <= 12 && split.1 < MonthLength(year, split.0)
    ensures DaysBeforeMonth(year, split.0) + split.1 == DaysBeforeMonth(year, month) + days
    decreases 12 - month
  {
    if days >= MonthLength(year, month) then
      MonthsFillYear(year);
      SplitMonths(days - MonthLength(year, month), year, month + 1)
    else (month, days)
  }

  /** The date that the code computes for a timestamp of any size. */
  function DateOf(ts: nat): (d: Datetime)
    ensures ValidDate(d) && d.century == d.year / 100 % 0x100
  {
    var (year, days) := SplitYears(ts / 60 / 60 / 24, 1970);
    YearsLeaveLess(ts / 60 / 60 / 24, 1970);
    var (month, day) := SplitMonths(days, year, 1);
    Datetime(ts % 60, ts / 60 % 60, ts / 60 / 60 % 24, day + 1, month, year, year / 100 % 0x100)
  }

  lemma MonthsFillYear(year: nat)
    ensures DaysBeforeMonth(year, 12) + MonthLength(year, 12) == YearLength(year)
  {
    hide Leap;
    var leapDay := if Leap(year) then 1 else 0;
    assert DaysBeforeMonth(year, 2) == 31;
    assert DaysBeforeMonth(year, 3) == 59 + leapDay;
    assert DaysBeforeMonth(year, 4) == 90 + leapDay;
    assert DaysBeforeMonth(year, 6) == 151 + leapDay;
    assert DaysBeforeMonth(year, 8) == 212 + leapDay;
    assert DaysBeforeMonth(year, 10) == 273 + leapDay;
  }

  lemma {:induction false} YearsLeaveLess(days: nat, year: uint16)
    ensures SplitYears(days, year).1 < YearLength(SplitYears(days, year).0)
  {
    if days >= YearLength(year) {
      YearsLeaveLess(days - YearLength(year), (year + 1) % 0x1_0000);
    }
  }

  lemma {:induction false} YearsRise(y: nat, z: nat)
    requires 1970 <= y < z
    ensures DaysBefore(y) + YearLength(y) <= DaysBefore(z)
  {
    if y + 1 < z {
      YearsRise(y, z - 1);
    }
  }

  lemma {:induction false} MonthsRise(year: nat, m: nat, n: nat)
    requires 1 <= m < n <= 13
    ensures DaysBeforeMonth(year, m) + MonthLength(year, m) <= DaysBeforeMonth(year, n)
  {
    if m + 1 < n {
      MonthsRise(year, m, n - 1);
    }
  }

  /** Short of the limit no year wraps and no day is lost. */
  lemma {:induction false} YearsKeepDays(days: nat, year: uint16)
    requires year >= 1970 && DaysBefore(year) + days < DaysBefore(0x1_0000)
    ensures SplitYears(days, year).0 >= year
    ensures DaysBefore(SplitYears(days, year).0) + SplitYears(days, year).1 == DaysBefore(year) + days
  {
    hide Leap;
    if days >= YearLength(year) {
      assert DaysBefore(year + 1) == DaysBefore(year) + YearLength(year);
      YearsKeepDays(days - YearLength(year), year + 1);
    }
  }

  lemma DayOfYear(d: Datetime)
    requires ValidDate(d)
    ensures 0 <= DaysBeforeMonth(d.year, d.month) + d.day - 1 < YearLength(d.year)
    ensures 0 <= DayNumber(d) < DaysBefore(0x1_0000)
    ensures d.year >= 1970 ==> DayNumber(d) < DaysBefore(d.year + 1)
    ensures d.year < 1970 ==> DayNumber(d) < 366
  {
    hide Leap, DaysInMonth;
    MonthsFillYear(d.year);
    if d.month < 12 {
      MonthsRise(d.year, d.month, 12);
    }
    YearsRise(if d.year < 1970 then 1970 else d.year, 0x1_0000);
    YearsRise(1970, 1972);
    YearsRise(1972, 0x1_0000);
  }

  lemma ClockFace(ts: nat)
    ensures ts == ts / 60 / 60 / 24 * SECONDS_A_DAY + SecondOfDay(DateOf(ts))
    ensures SecondOfDay(DateOf(ts)) < SECONDS_A_DAY
  {
    hide Leap, DaysInMonth, SplitYears, SplitMonths;
  }

  /** Back to the timestamp, exactly where the years fit 16 bits. */
  lemma TimestampOfDateOf(ts: nat)
    ensures Timestamp(DateOf(ts)) == ts <==> ts < Limit()
    ensures ts < Limit() ==> DateOf(ts).year >= 1970
  {
    hide SecondOfDay, Leap, DaysInMonth, SplitMonths;
    var d := DateOf(ts);
    ClockFace(ts);
    DayOfYear(d);
    if ts < Limit() {
      YearsKeepDays(ts / 60 / 60 / 24, 1970);
    }
  }

  predicate Earlier(d: Datetime, e: Datetime) {
    || d.year < e.year
    || (d.year == e.year &&
      (d.month < e.month || (d.month == e.month && (d.day < e.day || (d.day == e.day && EarlierInDay(d, e))))))
  }

  predicate EarlierInDay(d: Datetime, e: Datetime) {
    || d.hour < e.hour
    || (d.hour == e.hour && (d.minute < e.minute || (d.minute == e.minute && d.second < e.second)))
  }

  lemma DaysRise(d: Datetime, e: Datetime)
    requires ValidDate(d) && ValidDate(e) && 1970 <= d.year && Earlier(d, e)
    ensures DayNumber(d) < DayNumber(e) || (DayNumber(d) == DayNumber(e) && EarlierInDay(d, e))
  {
    hide Leap, DaysInMonth;
    DayOfYear(d);
    DayOfYear(e);
    if d.year < e.year {
      YearsRise(d.year, e.year);
    } else if d.month < e.month {
      MonthsRise(d.year, d.month, e.month);
    }
  }

  /** Later dates have greater timestamps. */
  lemma TimestampRises(d: Datetime, e: Datetime)
    requires ValidDate(d) && ValidDate(e) && 1970 <= d.year && Earlier(d, e)
    ensures Timestamp(d) < Timestamp(e)
  {
    hide DayNumber, MonthLength;
    DaysRise(d, e);
  }

  lemma TimestampsDiffer(d: Datetime, e: Datetime)
    requires ValidDate(d) && ValidDate(e) && 1970 <= d.year && 1970 <= e.year && Timestamp(d) == Timestamp(e)
    ensures d == e.(century := d.century)
  {
    hide ValidDate, Timestamp;
    if Earlier(d, e) {
      TimestampRises(d, e);
    } else if Earlier(e, d) {
      TimestampRises(e, d);
    }
  }

  lemma TimestampRange(d: Datetime)
    requires ValidDate(d)
    ensures 0 <= Timestamp(d) < Limit() < U64
  {
    hide DayNumber, Leap, MonthLength;
    DayOfYear(d);
    LimitFits();
  }

  /** Back to the date, exactly from valid dates since 1970; the century is not looked at but computed. */
  lemma DateOfTimestamp(d: Datetime)
    requires d.month <= 13
    ensures DateOf(Timestamp(d) % U64) == d.(century := d.year / 100 % 0x100) <==> ValidDate(d) && d.year >= 1970
  {
    hide Timestamp, Limit, DateOf;
    var e := DateOf(Timestamp(d) % U64);
    if ValidDate(d) {
      TimestampRange(d);
      TimestampOfDateOf(Timestamp(d));
      if d.year >= 1970 {
        TimestampsDiffer(d, e);
      }
    }
  }

  lemma {:induction false} FewDays(year: nat)
    ensures DaysBefore(year) <= 366 * year
  {
    hide Leap;
    if year > 1970 {
      FewDays(year - 1);
    }
  }

  lemma LimitFits()
    ensures Limit() < U64
  {
    FewDays(0x1_0000);
  }

  method ToTimestamp(d: Datetime) returns (seconds: nat)
    requires d.month <= 13
    ensures seconds == Timestamp(d) % U64
  {
    hide Leap;
    var days: nat := 0;
    var y: nat := 1970;
    while y < d.year
      invariant d.year >= 1970 ==> y <= d.year
      invariant d.year < 1970 ==> y == 1970
      invariant days == DaysBefore(y)
    {
      days := days + 365;
      if Leap(y) {
        days := days + 1;
      }
      y := y + 1;
    }
    var m: nat := 1;
    while m < d.month
      invariant 1 <= m && (d.month >= 1 ==> m <= d.month) && (d.month == 0 ==> m == 1)
      invariant days == DaysBefore(d.year) + DaysBeforeMonth(d.year, m)
    {
      days := days + DaysInMonth()[m - 1];
      if m == 2 && Leap(d.year) {
        days := days + 1;
      }
      m := m + 1;
    }
    seconds := ((days + d.day - 1) * SECONDS_A_DAY + d.hour * 3600 + d.minute * 60 + d.second) % U64;
  }

  /** The month loop short of its end goes on to a month, and at its end has found it. */
  lemma MonthTurn(days: nat, year: uint16, month: uint8)
    requires 1 <= month <= 12 && DaysBeforeMonth(year, month) + days < YearLength(year)
    ensures days < MonthLength(year, month) ==> SplitMonths(days, year, month) == (month, days)
    ensures days >= MonthLength(year, month) ==>
      && month < 12 && DaysBeforeMonth(year, month + 1) + days - MonthLength(year, month) < YearLength(year)
      && SplitMonths(days, year, month) == SplitMonths(days - MonthLength(year, month), year, month + 1)
  {
    hide Leap, DaysInMonth;
    MonthsFillYear(year);
  }

  method FromTimestamp(ts: nat) returns (d: Datetime)
    requires ts < U64
    ensures d == DateOf(ts)
  {
    hide Leap, SplitMonths, DaysBeforeMonth;
    var second, minute, hour := ts % 60, ts / 60 % 60, ts / 60 / 60 % 24;
    var days: nat := ts / 60 / 60 / 24;
    ghost var all := days;
    var year: uint16 := 1970;
    while days >= 365
      invariant SplitYears(days, year) == SplitYears(all, 1970)
    {
      var length := if Leap(year) then 366 else 365;
      if days >= length {
        days := days - length;
        year := (year + 1) % 0x1_0000;
      } else {
        break;
      }
    }
    YearsLeaveLess(all, 1970);
    ghost var dayOfYear := days;
    var month: uint8 := 1;
    while days >= DaysInMonth()[month - 1]
      invariant 1 <= month <= 12 && DaysBeforeMonth(year, month) + days < YearLength(year)
      invariant SplitMonths(days, year, month) == SplitMonths(dayOfYear, year, 1)
      decreases days
    {
      MonthTurn(days, year, month);
      var length := DaysInMonth()[month - 1];
      if month == 2 && Leap(year) {
        length := length + 1;
      }
      if days >= length {
        days := days - length;
        month := month + 1;
      } else {
        break;
      }
    }
    MonthTurn(days, year, month);
    d := Datetime(second, minute, hour, days + 1, month, year, year / 100 % 0x100);
  }
}
