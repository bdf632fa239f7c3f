/**
 European daylight saving time: from the last Sunday of March, 01:00 UTC, up to
 the last Sunday of October, 01:00 UTC (Directive 2000/84/EC, articles 2 and 3).
 The calendar is measured by counting days from Thursday 1970-01-01.
 */
module EuDst {
  import opened Bytes
  import opened Powers

  const I64_MAX: int := 0x7fff_ffff_ffff_ffff
  const DAY: nat := 86400

  predicate IsLeapYear(year: nat) {
    (year % 4 == 0 && year % 100 != 0) || year % 400 == 0
  }

  function DaysInMonth(year: nat, month: nat): nat
    requires 1 <= month <= 12
  {
    if month == 4 || month == 6 || month == 9 || month == 11 then 30
    else if month == 2 then if IsLeapYear(year) then 29 else 28
    else 31
  }

  function DaysInYear(year: nat): nat {
    if IsLeapYear(year) then 366 else 365
  }

  // ---------- counting days ----------

  /** Days from 1970-01-01 to January 1st of the year. */
  function DaysBeforeYear(year: nat): nat
    requires year >= 1970
  {
    if year == 1970 then 0 else DaysBeforeYear(year - 1) + DaysInYear(year - 1)
  }

  function DaysBeforeMonth(year: nat, month: nat): nat
    requires 1 <= month <= 13
  {
    if month == 1 then 0 else DaysBeforeMonth(year, month - 1) + DaysInMonth(year, month - 1)
  }

  predicate IsDate(year: nat, month: nat, day: nat) {
    year >= 1970 && 1 <= month <= 12 && 1 <= day <= DaysInMonth(year, month)
  }

  function DayNumber(year: nat, month: nat, day: nat): nat
    requires IsDate(year, month, day)
  {
    DaysBeforeYear(year) + DaysBeforeMonth(year, month) + day - 1
  }

  lemma TwelveMonths(year: nat)
    ensures DaysBeforeMonth(year, 13) == DaysInYear(year)
  {
    MonthOffsets(year, 12);
  }

  /** Days before each month of a common year; from March on a leap day comes on top. */
  function CommonOffset(month: nat): nat
    requires 1 <= month <= 12
  {
    [0, 31, 59, 90, 120, 151, 181, 212, 243, 273, 304, 334][month - 1]
  }

  lemma {:induction false} MonthOffsets(year: nat, month: nat)
    requires 1 <= month <= 12
    ensures DaysBeforeMonth(year, month) == CommonOffset(month) + if month >= 3 && IsLeapYear(year) then 1 else 0
  {
    if month > 1 {
      MonthOffsets(year, month - 1);
    }
  }

  lemma {:induction false} MonthsGrow(year: nat, m: nat, n: nat)
    requires 1 <= m <= n <= 13
    ensures DaysBeforeMonth(year, m) <= DaysBeforeMonth(year, n)
  {
    if m < n {
      MonthsGrow(year, m, n - 1);
    }
  }

  lemma {:induction false} YearsGrow(y: nat, z: nat)
    requires 1970 <= y <= z
    ensures DaysBeforeYear(y) + 365 * (z - y) <= DaysBeforeYear(z)
  {
    if y < z {
      YearsGrow(y, z - 1);
    }
  }

  /** A day number lies in its year and month. */
  lemma DateWithinYear(year: nat, month: nat, day: nat)
    requires IsDate(year, month, day)
    ensures DaysBeforeYear(year) <= DayNumber(year, month, day) < DaysBeforeYear(year + 1)
    ensures DaysBeforeMonth(year, month + 1) <= DaysInYear(year)
  {
    MonthsGrow(year, month + 1, 13);
    TwelveMonths(year);
  }

  /** Counting days never gives two dates the same number. */
  lemma DayNumberInjective(y: nat, m: nat, d: nat, y': nat, m': nat, d': nat)
    requires IsDate(y, m, d) && IsDate(y', m', d') && DayNumber(y, m, d) == DayNumber(y', m', d')
    ensures y == y' && m == m' && d == d'
  {
    DateWithinYear(y, m, d);
    DateWithinYear(y', m', d');
    if y < y' {
      YearsGrow(y + 1, y');
    } else if y' < y {
      YearsGrow(y' + 1, y);
    }
    if m < m' {
      MonthsGrow(y, m + 1, m');
    } else if m' < m {
      MonthsGrow(y, m' + 1, m);
    }
  }

  /** The year the day falls in. */
  function YearOf(dayNumber: nat): (year: nat)
    ensures year >= 1970 && DaysBeforeYear(year) <= dayNumber < DaysBeforeYear(year + 1)
  {
    YearFrom(dayNumber, 1970)
  }

  function YearFrom(dayNumber: nat, year: nat): (y: nat)
    requires year >= 1970 && DaysBeforeYear(year) <= dayNumber
    ensures y >= year && DaysBeforeYear(y) <= dayNumber < DaysBeforeYear(y + 1)
    decreases dayNumber - DaysBeforeYear(year)
  {
    if dayNumber < DaysBeforeYear(year + 1) then year else YearFrom(dayNumber, year + 1)
  }

  lemma YearIsUnique(dayNumber: nat, year: nat)
    requires year >= 1970 && DaysBeforeYear(year) <= dayNumber < DaysBeforeYear(year + 1)
    ensures year == YearOf(dayNumber)
  {
    var y := YearOf(dayNumber);
    if y < year {
      YearsGrow(y + 1, year);
    } else if year < y {
      YearsGrow(year + 1, y);
    }
  }

  /** Day and hour counts held in 32 bits: later days are taken for the last one that fits. */
  function ClampedDays(unixSecs: nat): nat {
    if unixSecs / DAY <= U32_MAX then unixSecs / DAY else U32_MAX
  }

  /** Inverts day counting. */
  method UnixToDate(unixSecs: nat) returns (year: nat, month: nat, day: nat, hour: nat)
    ensures IsDate(year, month, day) && DayNumber(year, month, day) == ClampedDays(unixSecs)
    ensures hour == unixSecs % DAY / 3600
  {
    var days := ClampedDays(unixSecs);
    hour := unixSecs % DAY / 3600;
    year := 1970;
    var remainingDays := days;
    while remainingDays >= DaysInYear(year)
      invariant year >= 1970 && remainingDays >= 0 && DaysBeforeYear(year) + remainingDays == days
      decreases remainingDays
    {
      remainingDays := remainingDays - DaysInYear(year);
      year := year + 1;
    }
    month := 1;
    ghost var inYear := remainingDays;
    TwelveMonths(year);
    while month <= 12 && remainingDays >= DaysInMonth(year, month)
      invariant 1 <= month <= 13 && remainingDays >= 0
      invariant DaysBeforeMonth(year, month) + remainingDays == inYear < DaysBeforeMonth(year, 13)
    {
      remainingDays := remainingDays - DaysInMonth(year, month);
      month := month + 1;
    }
    day := remainingDays + 1;
  }

  // ---------- weekdays ----------

  /** 0 is Sunday; day 0 was a Thursday. */
  function Weekday(dayNumber: nat): nat {
    (dayNumber + 4) % 7
  }

  /** Leap days up to and including the year, counted from year 1. */
  function LeapDays(year: nat): int {
    year / 4 - year / 100 + year / 400
  }

  lemma LeapDayStep(year: nat)
    requires year >= 1
    ensures LeapDays(year) == LeapDays(year - 1) + if IsLeapYear(year) then 1 else 0
  {
    MultipleStep(year, 4);
    MultipleStep(year, 100);
    MultipleStep(year, 400);
    if year % 100 == 0 {
      RemainderIs(year, 4, 25 * (year / 100), 0);
    }
    if year % 400 == 0 {
      RemainderIs(year, 100, 4 * (year / 400), 0);
    }
  }

  lemma MultipleStep(n: nat, d: nat)
    requires n >= 1 && d >= 2
    ensures n / d == (n - 1) / d + if n % d == 0 then 1 else 0
  {
    var q, r := (n - 1) / d, (n - 1) % d;
    assert n - 1 == d * q + r;
    if r == d - 1 {
      assert n == d * (q + 1) + 0;
      RemainderIs(n, d, q + 1, 0);
    } else {
      RemainderIs(n, d, q, r + 1);
    }
  }

  lemma {:induction false} DaysBeforeYearClosed(year: nat)
    requires year >= 1970
    ensures DaysBeforeYear(year) == 365 * (year - 1970) + LeapDays(year - 1) - 477
  {
    if year > 1970 {
      DaysBeforeYearClosed(year - 1);
      LeapDayStep(year - 1);
    }
  }

  /** Zeller's formula as the code evaluates it, for the last day of the month; 0 is Sunday. */
  function ZellerLastDay(year: nat, month: nat): nat
    requires 1 <= month <= 12 && year >= 1970
  {
    var day := DaysInMonth(year, month);
    var m := if month < 3 then month + 12 else month;
    var y := if month < 3 then year - 1 else year;
    var k := y % 100;
    var j := y / 100;
    var h := (day + 13 * (m + 1) / 5 + k + k / 4 + j / 4 + 5 * j) % 7;
    (h + 6) % 7
  }

  /** What year and century add to the weekday. */
  function YearTerm(y: nat): nat {
    y % 100 + y % 100 / 4 + y / 100 / 4 + 5 * (y / 100)
  }

  lemma CenturySplit(y: nat)
    ensures 365 * y + LeapDays(y) == 7 * (52 * y + 17 * (y / 100)) + YearTerm(y)
  {
    var k, j := y % 100, y / 100;
    assert y == 100 * j + k;
    RemainderIs(y, 4, 25 * j + k / 4, k % 4);
    RemainderIs(y, 400, j / 4, 100 * (j % 4) + k);
  }

  lemma SevensDropOut(a: int, b: int, q: int)
    requires a == 7 * q + b
    ensures a % 7 == b % 7
  {}

  /** Zeller's month term counts the days of the months before, up to whole weeks. */
  lemma MonthTerm(month: nat) returns (weeks: int)
    requires 1 <= month <= 12
    ensures month < 3 ==> 13 * (month + 13) / 5 + 6 == CommonOffset(month) + 7 * weeks
    ensures month >= 3 ==> 13 * (month + 1) / 5 == CommonOffset(month) + 7 * weeks
  {
    weeks := [6, 2, -7, -11, -15, -19, -23, -27, -31, -35, -39, -43][month - 1];
  }

  /** Weeks separate the day count from Zeller's sum. */
  lemma WeeksApart(year: nat, month: nat) returns (weeks: int)
    requires 1 <= month <= 12 && year >= 1970
    ensures var day := DaysInMonth(year, month);
            var m := if month < 3 then month + 12 else month;
            var y := if month < 3 then year - 1 else year;
            DayNumber(year, month, day) + 4 == 7 * weeks + (day + 13 * (m + 1) / 5 + YearTerm(y) + 6)
  {
    DaysBeforeYearClosed(year);
    MonthOffsets(year, month);
    var t := MonthTerm(month);
    var y := if month < 3 then year - 1 else year;
    CenturySplit(y);
    if month < 3 {
      weeks := 52 * y + 17 * (y / 100) - 102737 - t;
    } else {
      LeapDayStep(year);
      weeks := 52 * y + 17 * (y / 100) - 102790 - t;
    }
  }

  /** Zeller's congruence agrees with counting days, for every month of every year. */
  lemma ZellerAgrees(year: nat, month: nat)
    requires 1 <= month <= 12 && year >= 1970
    ensures ZellerLastDay(year, month) == Weekday(DayNumber(year, month, DaysInMonth(year, month)))
  {
    var day := DaysInMonth(year, month);
    var m := if month < 3 then month + 12 else month;
    var y := if month < 3 then year - 1 else year;
    var z := day + 13 * (m + 1) / 5 + YearTerm(y);
    var weeks := WeeksApart(year, month);
    SevensDropOut(DayNumber(year, month, day) + 4, z + 6, weeks);
    SevensDropOut(z + 6, z % 7 + 6, z / 7);
  }

  /** A Sunday of the month with no later one. */
  predicate IsLastSunday(year: nat, month: nat, day: nat) {
    IsDate(year, month, day) && Weekday(DayNumber(year, month, day)) == 0 && day + 7 > DaysInMonth(year, month)
  }

  /** From a last day with weekday `dow`, the last Sunday is `dow` days back. */
  lemma DaysBack(year: nat, month: nat, last: nat, dow: nat)
    requires IsDate(year, month, last) && last == DaysInMonth(year, month)
    requires dow == Weekday(DayNumber(year, month, last))
    ensures IsLastSunday(year, month, last - dow)
  {
    assert DayNumber(year, month, last - dow) == DayNumber(year, month, last) - dow;
  }

  function LastSundayOfMonth(year: nat, month: nat): (day: nat)
    requires 1 <= month <= 12 && year >= 1970
    ensures IsLastSunday(year, month, day)
  {
    ZellerAgrees(year, month);
    DaysBack(year, month, DaysInMonth(year, month), ZellerLastDay(year, month));
    var daysInMonth := DaysInMonth(year, month);
    var dow := ZellerLastDay(year, month);
    if dow == 0 then daysInMonth else daysInMonth - dow
  }

  lemma LastSundayUnique(year: nat, month: nat, d: nat, d': nat)
    requires IsLastSunday(year, month, d) && IsLastSunday(year, month, d')
    ensures d == d'
  {
    var n, n' := DayNumber(year, month, d), DayNumber(year, month, d');
    assert n - n' == d - d' && (n + 4) % 7 == (n' + 4) % 7;
  }

  // ---------- daylight saving time ----------

  /** 01:00 UTC on the last Sunday of the month, in Unix seconds. */
  function Transition(year: nat, month: nat): nat
    requires 1 <= month <= 12 && year >= 1970
  {
    DayNumber(year, month, LastSundayOfMonth(year, month)) * DAY + 3600
  }

  /** The rule itself. */
  predicate SummerTime(unixSecs: nat) {
    var year := YearOf(unixSecs / DAY);
    Transition(year, 3) <= unixSecs < Transition(year, 10)
  }

  /** The instant the code works with: the same time of day on the last day that fits 32 bits. */
  function ClampedInstant(unixSecs: nat): (t: nat)
    ensures unixSecs / DAY <= U32_MAX ==> t == unixSecs
    ensures t / DAY == ClampedDays(unixSecs) && t % DAY == unixSecs % DAY
  {
    ClampedDays(unixSecs) * DAY + unixSecs % DAY
  }

  /** Two instants compare by day, then by hour, when the later one is on the hour. */
  lemma OnTheHour(t: nat, dayNumber: nat)
    ensures t < dayNumber * DAY + 3600 <==> t / DAY < dayNumber || (t / DAY == dayNumber && t % DAY / 3600 < 1)
  {
    assert t == t / DAY * DAY + t % DAY;
  }

  lemma MonthOrder(year: nat, m: nat, d: nat, m': nat, d': nat)
    requires IsDate(year, m, d) && IsDate(year, m', d') && m < m'
    ensures DayNumber(year, m, d) < DayNumber(year, m', d')
  {
    MonthsGrow(year, m + 1, m');
  }

  method IsDstActive(unixSecs: nat) returns (active: bool)
    ensures active == SummerTime(ClampedInstant(unixSecs))
  {
    var year, month, day, hour := UnixToDate(unixSecs);
    var marchLastSunday := LastSundayOfMonth(year, 3);
    var octoberLastSunday := LastSundayOfMonth(year, 10);
    ghost var t := ClampedInstant(unixSecs);
    DateWithinYear(year, month, day);
    YearIsUnique(t / DAY, year);
    OnTheHour(t, DayNumber(year, 3, marchLastSunday));
    OnTheHour(t, DayNumber(year, 10, octoberLastSunday));
    if month < 10 {
      MonthOrder(year, month, day, 10, octoberLastSunday);
    } else if month > 10 {
      MonthOrder(year, 10, octoberLastSunday, month, day);
    }
    if month < 3 {
      MonthOrder(year, month, day, 3, marchLastSunday);
    } else if month > 3 {
      MonthOrder(year, 3, marchLastSunday, month, day);
    }
    if month > 3 && month < 10 {
      active := true;
    } else if month == 3 {
      active := day > marchLastSunday || (day == marchLastSunday && hour >= 1);
    } else if month == 10 {
      active := day < octoberLastSunday || (day == octoberLastSunday && hour < 1);
    } else {
      active := false;
    }
  }

  // ---------- days past 32 bits ----------

  /** The last day that fits 32 bits is 20 January of the year 11761191. */
  lemma LastDayThatFits(year: nat)
    requires year == 11761191
    ensures DaysBeforeYear(year) == U32_MAX - 19 && !IsLeapYear(year) && YearOf(U32_MAX) == year
  {
    DaysBeforeYearClosed(year);
    YearIsUnique(U32_MAX, year);
  }

  /** Summer time keeps to the days from March to October. */
  lemma SummerDays(year: nat, t: nat)
    requires year >= 1970 && year == YearOf(t / DAY)
    ensures SummerTime(t) ==> t / DAY >= DaysBeforeYear(year) + 59
    ensures DaysBeforeYear(year) + 91 <= t / DAY < DaysBeforeYear(year) + 296 ==> SummerTime(t)
  {
    MonthOffsets(year, 3);
    MonthOffsets(year, 10);
    OnTheHour(t, DayNumber(year, 3, LastSundayOfMonth(year, 3)));
    OnTheHour(t, DayNumber(year, 10, LastSundayOfMonth(year, 10)));
  }

  /** From the last day that fits on, the code answers winter time. */
  lemma ClampedIsWinter(t: nat)
    requires t / DAY >= U32_MAX
    ensures !SummerTime(ClampedInstant(t))
  {
    var year := YearOf(U32_MAX);
    var last := LastYear();
    LastDayThatFits(last);
    SummerDays(year, ClampedInstant(t));
  }

  lemma LastYear() returns (year: nat)
    ensures year == 11761191
  {
    year := 11761191;
  }

  /** The answer for an instant is right exactly if its day fits 32 bits or it is outside the summer. */
  lemma ClampRightIff(t: nat)
    ensures SummerTime(ClampedInstant(t)) == SummerTime(t) <==> t / DAY <= U32_MAX || !SummerTime(t)
  {
    hide SummerTime;
    if t / DAY > U32_MAX {
      ClampedIsWinter(t);
    }
  }

  /** A midsummer day after the last day that fits. */
  lemma LateSummerMissed(t: nat)
    requires t == (U32_MAX + 171) * DAY
    ensures SummerTime(t) && !SummerTime(ClampedInstant(t))
  {
    var year := LastYear();
    LastDayThatFits(year);
    RemainderIs(t, DAY, U32_MAX + 171, 0);
    YearIsUnique(t / DAY, year);
    SummerDays(year, t);
    ClampedIsWinter(t);
  }

  // ---------- local time ----------

  datatype Timezone = Timezone(baseOffsetSecs: int)

  method OffsetSecs(zone: Timezone, unixSecs: nat) returns (offset: int)
    requires -I64_MAX - 1 <= zone.baseOffsetSecs <= I64_MAX
    requires SummerTime(ClampedInstant(unixSecs)) ==> zone.baseOffsetSecs <= I64_MAX - 3600
    ensures offset == zone.baseOffsetSecs + if SummerTime(ClampedInstant(unixSecs)) then 3600 else 0
  {
    var dst := IsDstActive(unixSecs);
    offset := if dst then zone.baseOffsetSecs + 3600 else zone.baseOffsetSecs;
  }

  /** No 64-bit number is nearer. */
  function Saturate(x: int): (r: int)
    ensures -0x8000_0000_0000_0000 <= r < 0x8000_0000_0000_0000
    ensures forall y :: -0x8000_0000_0000_0000 <= y < 0x8000_0000_0000_0000 ==> Distance(x, r) <= Distance(x, y)
  {
    if x > I64_MAX then I64_MAX else if x < -I64_MAX - 1 then -I64_MAX - 1 else x
  }

  function Distance(x: int, y: int): nat {
    if x <= y then y - x else x - y
  }

  /** The local time of day, to the second. */
  method ToLocalHms(zone: Timezone, unixSecs: nat) returns (hours: nat, minutes: nat, seconds: nat)
    requires -I64_MAX - 1 <= zone.baseOffsetSecs <= I64_MAX
    requires SummerTime(ClampedInstant(unixSecs)) ==> zone.baseOffsetSecs <= I64_MAX - 3600
    ensures hours < 24 && minutes < 60 && seconds < 60
    ensures var offset := zone.baseOffsetSecs + if SummerTime(ClampedInstant(unixSecs)) then 3600 else 0;
            hours * 3600 + minutes * 60 + seconds == Saturate(Saturate(unixSecs) + offset) % 86400
  {
    var offset := OffsetSecs(zone, unixSecs);
    var localSecs := Saturate(Saturate(unixSecs) + offset);
    var secsToday := localSecs % DAY;
    hours := secsToday / 3600;
    minutes := secsToday % 3600 / 60;
    seconds := secsToday % 60;
    RemainderIs(secsToday, 60, 60 * hours + minutes, secsToday % 3600 % 60);
  }
}
