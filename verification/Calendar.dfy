/** Conversion between EFI_TIME and NTFS time, the number of 100 ns ticks since 1601-01-01
    (NtfsDxe/Misc.c).  One direction counts leap years and months in loops, the other divides by
    the lengths of 400, 100, 4 and 1 years; they are related through the calendar itself. */
module Calendar {

  const BASE_YEAR := 1601
  const TICKS_PER_SECOND := 10_000_000
  const SECONDS_PER_DAY := 86400
  const TICKS_PER_DAY := 864_000_000_000
  /** Day numbers are masked to 19 bits, seconds to 17. */
  const DAY_LIMIT := 0x80000
  const SECOND_MASK := 0x20000
  const MONTH_DAYS: seq<nat> := [31, 28, 31, 30, 31, 30, 31, 31, 30, 31, 30, 31]

  datatype EfiTime = EfiTime(year: nat, month: nat, day: nat, hour: nat, minute: nat, second: nat, nanosecond: nat)

  predicate IsLeapYear(y: nat) {
    y % 4 == 0 && (y % 100 != 0 || y % 400 == 0)
  }

  // ----- The calendar -----

  function DaysInMonth(y: nat, m: nat): nat
    requires 1 <= m <= 12
  {
    MONTH_DAYS[m - 1] + if m == 2 && IsLeapYear(y) then 1 else 0
  }

  function DaysInYear(y: nat): nat {
    if IsLeapYear(y) then 366 else 365
  }

  /** Days from the epoch to the first day of year `y`. */
  function DaysBeforeYear(y: nat): nat
    requires y >= BASE_YEAR
  {
    if y == BASE_YEAR then 0 else DaysBeforeYear(y - 1) + DaysInYear(y - 1)
  }

  function DaysBeforeMonth(y: nat, m: nat): nat
    requires 1 <= m <= 13
  {
    if m == 1 then 0 else DaysBeforeMonth(y, m - 1) + DaysInMonth(y, m - 1)
  }

  predicate ValidDate(t: EfiTime) {
    t.year >= BASE_YEAR && 1 <= t.month <= 12 && 1 <= t.day <= DaysInMonth(t.year, t.month)
  }

  predicate ValidTime(t: EfiTime) {
    ValidDate(t) && t.hour <= 23 && t.minute <= 59 && t.second <= 59 && t.nanosecond <= 999_999_999
  }

  function DayNumber(t: EfiTime): nat
    requires t.year >= BASE_YEAR && 1 <= t.month <= 12 && t.day >= 1
  {
    DaysBeforeYear(t.year) + DaysBeforeMonth(t.year, t.month) + t.day - 1
  }

  /** NTFS time of a date: the meaning of the conversion. */
  function Ticks(t: EfiTime): nat
    requires t.year >= BASE_YEAR && 1 <= t.month <= 12 && t.day >= 1
  {
    (DayNumber(t) * SECONDS_PER_DAY + t.hour * 3600 + t.minute * 60 + t.second) * TICKS_PER_SECOND + t.nanosecond / 100
  }

  /** `EfiTime2NtfsTime`: the leap years and the months are counted in loops. */
  method EfiTime2NtfsTime(t: EfiTime) returns (clock: int)
    requires ValidTime(t)
    ensures clock == Ticks(t)
  {
    var addedDays := 0;
    var year := BASE_YEAR;
    while year < t.year
      invariant BASE_YEAR <= year <= t.year
      invariant DaysBeforeYear(year) == (year - BASE_YEAR) * 365 + addedDays
    {
      if IsLeapYear(year) {
        addedDays := addedDays + 1;
      }
      year := year + 1;
    }
    clock := (t.year - BASE_YEAR) * 365;
    clock := clock + addedDays;
    var month := 0;
    ghost var years := clock;
    while month < t.month - 1
      invariant 0 <= month <= t.month - 1
      invariant DaysBeforeMonth(t.year, month + 1)
                == clock - years + (if IsLeapYear(t.year) && month >= 2 then 1 else 0)
    {
      clock := clock + MONTH_DAYS[month];
      month := month + 1;
    }
    clock := clock + (t.day - 1);
    if IsLeapYear(t.year) && t.month > 2 {
      clock := clock + 1;
    }
    clock := clock * SECONDS_PER_DAY;
    clock := clock + t.hour * 3600 + t.minute * 60 + t.second;
    clock := clock * TICKS_PER_SECOND + t.nanosecond / 100;
  }

  // ----- Closed form of the calendar -----

  /** The Gregorian rule in divisions: every fourth year, less the centuries, plus the fourth. */
  lemma {:induction false} DaysBeforeYearClosed(y: nat)
    requires y >= BASE_YEAR
    ensures var n := y - BASE_YEAR; DaysBeforeYear(y) == 365 * n + n / 4 - n / 100 + n / 400
  {
    if y > BASE_YEAR {
      DaysBeforeYearClosed(y - 1);
      LeapStep(y - 1 - BASE_YEAR);
    }
  }

  lemma Div4(q: int, r: int)
    requires 0 <= r < 4
    ensures (4 * q + r) / 4 == q && (4 * q + r) % 4 == r
  {
  }

  lemma Div100(q: int, r: int)
    requires 0 <= r < 100
    ensures (100 * q + r) / 100 == q && (100 * q + r) % 100 == r
  {
  }

  lemma Div400(q: int, r: int)
    requires 0 <= r < 400
    ensures (400 * q + r) / 400 == q && (400 * q + r) % 400 == r
  {
  }

  /** Passing from year n to year n + 1 after the epoch adds the day that the rule gives. */
  lemma LeapStep(n: nat)
    ensures var m := n + 1;
            (m / 4 - n / 4) - (m / 100 - n / 100) + (m / 400 - n / 400) == if IsLeapYear(BASE_YEAR + n) then 1 else 0
  {
    var m := n + 1;
    Div4(400 + m / 4, m % 4);
    Div100(16 + m / 100, m % 100);
    Div400(4 + m / 400, m % 400);
    assert m % 400 == 0 ==> m % 100 == 0 by { Div100(4 * (m / 400), 0); }
    assert m % 100 == 0 ==> m % 4 == 0 by { Div4(25 * (m / 100), 0); }
    Carry4(n);
    Carry100(n);
    Carry400(n);
  }

  lemma Carry4(n: nat)
    ensures (n + 1) / 4 - n / 4 == if (n + 1) % 4 == 0 then 1 else 0
  {
  }

  lemma Carry100(n: nat)
    ensures (n + 1) / 100 - n / 100 == if (n + 1) % 100 == 0 then 1 else 0
  {
  }

  lemma Carry400(n: nat)
    ensures (n + 1) / 400 - n / 400 == if (n + 1) % 400 == 0 then 1 else 0
  {
  }

  /** A year written as 400a + 100b + 4c + e years after the epoch. */
  lemma YearDigits(a: nat, b: nat, c: nat, e: nat)
    requires b <= 3 && c <= 24 && e <= 3
    ensures var y := BASE_YEAR + 400 * a + 100 * b + 4 * c + e;
            && DaysBeforeYear(y) == 146097 * a + 36524 * b + 1461 * c + 365 * e
            && (IsLeapYear(y) <==> e == 3 && (c < 24 || b == 3))
  {
    var n := 400 * a + 100 * b + 4 * c + e;
    DaysBeforeYearClosed(BASE_YEAR + n);
    Div4(100 * a + 25 * b + c, e);
    Div100(4 * a + b, 4 * c + e);
    Div400(a, 100 * b + 4 * c + e);
    LeapOfDigits(a, b, c, e);
  }

  lemma LeapOfDigits(a: nat, b: nat, c: nat, e: nat)
    requires b <= 3 && c <= 24 && e <= 3
    ensures IsLeapYear(BASE_YEAR + 400 * a + 100 * b + 4 * c + e) <==> e == 3 && (c < 24 || b == 3)
  {
    if e < 3 {
      Div4(400 + 100 * a + 25 * b + c, e + 1);
    } else {
      Div4(400 + 100 * a + 25 * b + c + 1, 0);
      if c < 24 {
        Div100(16 + 4 * a + b, 4 * c + 4);
      } else {
        Div100(16 + 4 * a + b + 1, 0);
        if b < 3 {
          Div400(4 + a, 100 * b + 100);
        } else {
          Div400(4 + a + 1, 0);
        }
      }
    }
  }

  // ----- From ticks to a date -----

  /** Division and remainder of C, which truncate towards zero. */
  function TruncDiv(x: int, d: int): int
    requires d > 0
  {
    if x >= 0 then x / d else -((-x) / d)
  }

  function TruncMod(x: int, d: int): int
    requires d > 0
  {
    x - d * TruncDiv(x, d)
  }

  function MaskedDays(stamp: int): nat {
    TruncDiv(stamp, TICKS_PER_DAY) % DAY_LIMIT
  }

  function MaskedSeconds(stamp: int): nat {
    TruncMod(TruncDiv(stamp, TICKS_PER_SECOND), SECONDS_PER_DAY) % SECOND_MASK
  }

  /** What `NtfsTime2EfiTime` promises of its result for any 64-bit stamp. */
  ghost predicate IsTime(t: EfiTime, stamp: int) {
    && ValidDate(t) && DayNumber(t) == MaskedDays(stamp)
    && t.hour * 3600 + t.minute * 60 + t.second == MaskedSeconds(stamp) && t.minute <= 59 && t.second <= 59
    && t.nanosecond == TruncMod(stamp, TICKS_PER_SECOND) * 100 % 0x1_0000_0000
  }

  /** Day of the year, counted as if every February had 29 days, to month and day. */
  method MonthAndDay(index: nat) returns (mon: nat, day: nat)
    requires index <= 365
    ensures 1 <= mon <= 12 && 1 <= day <= DaysInMonth(2000, mon)
    ensures DaysBeforeMonth(2000, mon) + day - 1 == index
  {
    var days := index;
    if days > 59 {
      mon := (5 * days + 161) / 153;
      days := days - (153 * mon - 162) / 5;
    } else {
      mon := days / 31 + 1;
      days := days - (31 * (mon - 1) - 1);
    }
    day := days;
    LeapMonths();
  }

  lemma LeapMonths()
    ensures DaysBeforeMonth(2000, 1) == 0 && DaysBeforeMonth(2000, 2) == 31 && DaysBeforeMonth(2000, 3) == 60
    ensures DaysBeforeMonth(2000, 4) == 91 && DaysBeforeMonth(2000, 5) == 121 && DaysBeforeMonth(2000, 6) == 152
    ensures DaysBeforeMonth(2000, 7) == 182 && DaysBeforeMonth(2000, 8) == 213 && DaysBeforeMonth(2000, 9) == 244
    ensures DaysBeforeMonth(2000, 10) == 274 && DaysBeforeMonth(2000, 11) == 305 && DaysBeforeMonth(2000, 12) == 335
  {
  }

  /** The lengths of the periods bound the four quotients that the code computes. */
  lemma PeriodQuotients(d: nat)
    requires d < 146097
    ensures var b := (3 * d + 3) / 109573; var d2 := d - 36524 * b;
            var c := d2 / 1461; var d3 := d2 - 1461 * c;
            var e := (3 * d3 + 3) / 1096; var d4 := d3 - 365 * e;
            && 0 <= b <= 3 && 0 <= d2 && 0 <= c <= 24 && 0 <= d3 && 0 <= e <= 3
            && 0 <= d4 <= (if e == 3 && (c < 24 || b == 3) then 365 else 364)
  {
  }

  /** Skipping the 29th of February of the other years relates the two day counts. */
  lemma CommonYear(y: nat, m: nat)
    requires 1 <= m <= 12
    ensures DaysBeforeMonth(y, m) == DaysBeforeMonth(2000, m) - (if m > 2 && !IsLeapYear(y) then 1 else 0)
    ensures DaysInMonth(y, m) == DaysInMonth(2000, m) - (if m == 2 && !IsLeapYear(y) then 1 else 0)
  {
    assert IsLeapYear(2000);
    if m > 1 {
      CommonYear(y, m - 1);
    }
  }

  /** The year of a day, found by divisions by period lengths, and the day in that year. */
  method YearOfDay(dayNumber: nat) returns (year: nat, days: nat)
    ensures year >= BASE_YEAR && DaysBeforeYear(year) + days == dayNumber && days < DaysInYear(year)
  {
    days := dayNumber;
    year := BASE_YEAR;
    var cnt := days / 146097;
    ghost var a := cnt;
    days := days - 146097 * cnt;
    PeriodQuotients(days);
    year := year + 400 * cnt;
    cnt := (3 * days + 3) / 109573;
    ghost var b := cnt;
    days := days - 36524 * cnt;
    year := year + 100 * cnt;
    cnt := days / 1461;
    ghost var c := cnt;
    days := days - 1461 * cnt;
    year := year + 4 * cnt;
    cnt := (3 * days + 3) / 1096;
    days := days - 365 * cnt;
    year := year + cnt;
    YearDigits(a, b, c, cnt);
  }

  /** The date part of `NtfsTime2EfiTime`: year and day of the year, then a linear formula for the month. */
  method DateOfDay(dayNumber: nat) returns (year: nat, mon: nat, day: nat)
    ensures ValidDate(EfiTime(year, mon, day, 0, 0, 0, 0))
            && DayNumber(EfiTime(year, mon, day, 0, 0, 0, 0)) == dayNumber
  {
    var days;
    year, days := YearOfDay(dayNumber);
    var common := (if year % 100 == 0 then year % 400 else year % 4) != 0;
    CommonIsNotLeap(year);
    if common && days > 58 {
      days := days + 1;
    }
    mon, day := MonthAndDay(days);
    CommonYear(year, mon);
    MonthOfCommonYear(mon, day, days, common);
  }

  /** `NtfsIsValidTime`: the dates of the calendar from 1980 on. */
  method NtfsIsValidTime(t: EfiTime) returns (valid: bool)
    ensures valid <==> ValidTime(t) && t.year >= 1980
  {
    valid := true;
    if t.year < 1980 || t.month < 1 || t.month > 12 || t.day < 1 || t.day > 31 || t.hour > 23 || t.minute > 59
      || t.second > 59
       || t.nanosecond > 999_999_999 {
      valid := false;
    } else {
      var day := MONTH_DAYS[t.month - 1];
      if t.month == 2 && IsLeapYear(t.year) {
        day := day + 1;
      }
      if t.day > day {
        valid := false;
      }
    }
  }

  lemma CommonIsNotLeap(year: nat)
    ensures ((if year % 100 == 0 then year % 400 else year % 4) != 0) <==> !IsLeapYear(year)
  {
    if year % 100 == 0 {
      Div4(25 * (year / 100), 0);
    }
  }

  /** In a common year the index 59, the 29th of February, is skipped. */
  lemma MonthOfCommonYear(mon: nat, day: nat, index: nat, common: bool)
    requires 1 <= mon <= 12 && 1 <= day <= DaysInMonth(2000, mon)
    requires DaysBeforeMonth(2000, mon) + day - 1 == index
    ensures mon > 2 <==> index > 59
    ensures mon == 2 && day == 29 <==> index == 59
  {
    LeapMonths();
    if mon > 3 {
      MonthsMonotone(2000, 3, mon);
    }
  }

  /** `NtfsTime2EfiTime`, for any stamp. */
  method NtfsTime2EfiTime(stamp: int) returns (t: EfiTime)
    ensures IsTime(t, stamp)
  {
    var days := TruncDiv(stamp, TICKS_PER_DAY) % DAY_LIMIT;
    var seconds := TruncMod(TruncDiv(stamp, TICKS_PER_SECOND), SECONDS_PER_DAY) % SECOND_MASK;
    var nanoseconds := TruncMod(stamp, TICKS_PER_SECOND) * 100;
    var year, mon, day := DateOfDay(days);
    t := EfiTime(year, mon, day, seconds / 3600, seconds / 60 % 60, seconds % 60, nanoseconds % 0x1_0000_0000);
    Clock(seconds);
  }

  lemma Clock(seconds: nat)
    ensures seconds / 3600 * 3600 + seconds / 60 % 60 * 60 + seconds % 60 == seconds
  {
    assert seconds / 3600 == seconds / 60 / 60;
  }

  /** A second of the day has one reading. */
  lemma ClockInjective(h1: nat, m1: nat, s1: nat, h2: nat, m2: nat, s2: nat)
    requires m1 <= 59 && s1 <= 59 && m2 <= 59 && s2 <= 59
    requires h1 * 3600 + m1 * 60 + s1 == h2 * 3600 + m2 * 60 + s2
    ensures h1 == h2 && m1 == m2 && s1 == s2
  {
  }

  // ----- The two conversions are inverse -----

  lemma {:induction false} YearsMonotone(y1: nat, y2: nat)
    requires BASE_YEAR <= y1 < y2
    ensures DaysBeforeYear(y1) + DaysInYear(y1) <= DaysBeforeYear(y2)
  {
    if y1 + 1 < y2 {
      YearsMonotone(y1, y2 - 1);
    }
  }

  lemma {:induction false} MonthsMonotone(y: nat, m1: nat, m2: nat)
    requires 1 <= m1 < m2 <= 13
    ensures DaysBeforeMonth(y, m1) + DaysInMonth(y, m1) <= DaysBeforeMonth(y, m2)
    decreases m2
  {
    if m1 + 1 < m2 {
      MonthsMonotone(y, m1, m2 - 1);
    }
  }

  lemma DateWithinYear(t: EfiTime)
    requires ValidDate(t)
    ensures DaysBeforeYear(t.year) <= DayNumber(t) < DaysBeforeYear(t.year) + DaysInYear(t.year)
  {
    MonthsMonotone(t.year, t.month, 13);
    CommonYear(t.year, 12);
    LeapMonths();
  }

  /** A day number belongs to one date. */
  lemma DayNumberInjective(s: EfiTime, t: EfiTime)
    requires ValidDate(s) && ValidDate(t) && DayNumber(s) == DayNumber(t)
    ensures s.year == t.year && s.month == t.month && s.day == t.day
  {
    DateWithinYear(s);
    DateWithinYear(t);
    if s.year < t.year {
      YearsMonotone(s.year, t.year);
    } else if t.year < s.year {
      YearsMonotone(t.year, s.year);
    } else if s.month < t.month {
      MonthsMonotone(s.year, s.month, t.month);
    } else if t.month < s.month {
      MonthsMonotone(s.year, t.month, s.month);
    }
  }

  /** The stamp of a valid time splits into the parts that the conversion back extracts. */
  lemma TicksParts(t: EfiTime)
    requires ValidTime(t)
    ensures TruncDiv(Ticks(t), TICKS_PER_DAY) == DayNumber(t)
    ensures TruncMod(TruncDiv(Ticks(t), TICKS_PER_SECOND), SECONDS_PER_DAY) == t.hour * 3600 + t.minute * 60 + t.second
    ensures TruncMod(Ticks(t), TICKS_PER_SECOND) == t.nanosecond / 100
  {
    var secs := t.hour * 3600 + t.minute * 60 + t.second;
    var n := t.nanosecond / 100;
    var all := DayNumber(t) * SECONDS_PER_DAY + secs;
    assert Ticks(t) / TICKS_PER_SECOND == all;
    assert all / SECONDS_PER_DAY == DayNumber(t);
    assert Ticks(t) == DayNumber(t) * TICKS_PER_DAY + (secs * TICKS_PER_SECOND + n);
  }

  /** From a date to ticks and back: the identity exactly for the day numbers of 19 bits and
      nanoseconds that are whole ticks. */
  lemma DateRoundTrip(t: EfiTime, r: EfiTime)
    requires ValidTime(t) && IsTime(r, Ticks(t))
    ensures r == t <==> DayNumber(t) < DAY_LIMIT && t.nanosecond % 100 == 0
  {
    TicksParts(t);
    if DayNumber(t) < DAY_LIMIT {
      assert MaskedDays(Ticks(t)) == DayNumber(t);
      DayNumberInjective(r, t);
      assert MaskedSeconds(Ticks(t)) == t.hour * 3600 + t.minute * 60 + t.second;
      ClockInjective(r.hour, r.minute, r.second, t.hour, t.minute, t.second);
    }
  }

  /** The start of Unix time has a known stamp. */
  lemma UnixEpoch(t: EfiTime)
    requires t == EfiTime(1970, 1, 1, 0, 0, 0, 0)
    ensures Ticks(t) == 116_444_736_000_000_000
  {
    var y := t.year;
    DaysBeforeYearClosed(y);
    assert DayNumber(t) == 134774;
  }

  /** And so has a moment of a leap day. */
  lemma LeapDayStamp(t: EfiTime)
    requires t == EfiTime(2000, 2, 29, 22, 58, 57, 900)
    ensures Ticks(t) == 125_963_387_370_000_009
  {
    var y := t.year;
    DaysBeforeYearClosed(y);
    assert DaysBeforeMonth(y, t.month) == 31;
    assert DayNumber(t) == 145790;
  }

  /** A date that does not survive: the first day of 3037 comes back as 20 July 1601. */
  lemma TooLate(t: EfiTime, r: EfiTime)
    requires t == EfiTime(3037, 1, 1, 0, 0, 0, 0) && r == EfiTime(1601, 7, 20, 0, 0, 0, 0)
    ensures ValidTime(t) && IsTime(r, Ticks(t))
  {
    var y := t.year;
    DaysBeforeYearClosed(y);
    assert DayNumber(t) == DAY_LIMIT + 200;
    assert DaysBeforeMonth(r.year, r.month) == 181 by {
      assert DaysBeforeMonth(r.year, r.month - 3) == 90;
    }
    TicksParts(t);
  }

  /** From ticks to a date and back: the identity exactly for the stamps below 2^19 days. */
  lemma TickRoundTrip(stamp: int, t: EfiTime)
    requires IsTime(t, stamp)
    ensures Ticks(t) == stamp <==> 0 <= stamp < DAY_LIMIT * TICKS_PER_DAY
    ensures 0 <= stamp ==> ValidTime(t)
  {
    var secs := t.hour * 3600 + t.minute * 60 + t.second;
    if stamp >= 0 {
      assert MaskedSeconds(stamp) == stamp / TICKS_PER_SECOND % SECONDS_PER_DAY == secs;
      assert t.nanosecond == stamp % TICKS_PER_SECOND * 100;
      assert stamp / TICKS_PER_SECOND / SECONDS_PER_DAY == stamp / TICKS_PER_DAY;
      if stamp < DAY_LIMIT * TICKS_PER_DAY {
        assert DayNumber(t) == stamp / TICKS_PER_DAY;
      } else {
        assert DayNumber(t) < DAY_LIMIT;
        assert Ticks(t) < DAY_LIMIT * TICKS_PER_DAY;
      }
    }
  }

  /** The result of the conversion is determined by what is promised of it. */
  lemma IsTimeUnique(r: EfiTime, t: EfiTime, stamp: int)
    requires IsTime(r, stamp) && IsTime(t, stamp)
    ensures r == t
  {
    DayNumberInjective(r, t);
    ClockInjective(r.hour, r.minute, r.second, t.hour, t.minute, t.second);
  }
}
