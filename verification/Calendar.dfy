/** Broken-down time: seconds since 1970 taken apart by loops and put together by a closed form. */
module Calendar {
  import Arith

  const TIME_MAX: int := 2147483647
  const YEAR0: int := 1900
  const EPOCH_YR: int := 1970
  const SECS_DAY: int := 86400
  const WORD: int := 0x1_0000_0000

  /** a / b and a % b in C: towards zero. */
  function Quot(a: int, b: int): int
    requires b > 0
  {
    if a >= 0 then a / b else -(-a / b)
  }

  function Rem(a: int, b: int): int
    requires b > 0
  {
    if a >= 0 then a % b else -(-a % b)
  }

  /** Division and remainder as C has them: the remainder has the sign of the dividend. */
  lemma TowardsZero(a: int, b: int)
    requires b > 0
    ensures a == b * Quot(a, b) + Rem(a, b) && -b < Rem(a, b) < b
    ensures (a >= 0 ==> Rem(a, b) >= 0) && (a <= 0 ==> Rem(a, b) <= 0)
  {
  }

  predicate LeapYear(year: int) {
    year % 4 == 0 && (year % 100 != 0 || year % 400 == 0)
  }

  function YearSize(year: int): int {
    if LeapYear(year) then 366 else 365
  }

  const YTAB: seq<int> := [31, 28, 31, 30, 31, 30, 31, 31, 30, 31, 30, 31]
  const LEAP_YTAB: seq<int> := [31, 29, 31, 30, 31, 30, 31, 31, 30, 31, 30, 31]

  /** The days of a month, 0 to 11. */
  function MonthSize(year: int, mon: int): (n: int)
    requires 0 <= mon < 12
    ensures 28 <= n <= 31
  {
    if LeapYear(year) then LEAP_YTAB[mon] else YTAB[mon]
  }

  // ---------- days, counted month by month ----------

  /** The size of the m-th month, counted from year 0. */
  function Len(m: int): (n: int)
    ensures 28 <= n <= 31
  {
    MonthSize(m / 12, m % 12)
  }

  /** Days from the epoch to the start of month m. */
  function MonthStart(m: int): int
    decreases if m >= 12 * EPOCH_YR then m - 12 * EPOCH_YR else 12 * EPOCH_YR - m
  {
    if m == 12 * EPOCH_YR then 0
    else if m > 12 * EPOCH_YR then MonthStart(m - 1) + Len(m - 1)
    else MonthStart(m + 1) - Len(m)
  }

  lemma MonthStep(m: int)
    ensures MonthStart(m + 1) == MonthStart(m) + Len(m)
  {
  }

  lemma {:induction false} MonthsGrow(m: int, n: int)
    requires m <= n
    ensures MonthStart(m) + 28 * (n - m) <= MonthStart(n)
    decreases n - m
  {
    if m < n {
      MonthsGrow(m, n - 1);
      MonthStep(n - 1);
    }
  }

  /** A day lies in one month only. */
  lemma MonthOfDay(m: int, d: int, n: int, e: int)
    requires 0 <= d < Len(m) && 0 <= e < Len(n) && MonthStart(m) + d == MonthStart(n) + e
    ensures m == n && d == e
  {
    if m < n {
      MonthsGrow(m + 1, n);
      MonthStep(m);
    } else if n < m {
      MonthsGrow(n + 1, m);
      MonthStep(n);
    }
  }

  function YearStart(year: int): int {
    MonthStart(12 * year)
  }

  /** Days from the start of the year to the start of a month, or of the next year. */
  function DaysBefore(year: int, mon: nat): int
    requires mon <= 12
  {
    if mon == 0 then 0 else DaysBefore(year, mon - 1) + MonthSize(year, mon - 1)
  }

  lemma LenOfMonth(year: int, mon: int)
    requires 0 <= mon < 12
    ensures Len(12 * year + mon) == MonthSize(year, mon)
  {
    assert (12 * year + mon) / 12 == year && (12 * year + mon) % 12 == mon;
  }

  lemma {:induction false} MonthInYear(year: int, mon: nat)
    requires mon <= 12
    ensures MonthStart(12 * year + mon) == YearStart(year) + DaysBefore(year, mon)
  {
    if mon > 0 {
      hide MonthStart, Len, MonthSize;
      MonthInYear(year, mon - 1);
      MonthStep(12 * year + mon - 1);
      LenOfMonth(year, mon - 1);
    }
  }

  /** The twelve months make up the year. */
  lemma YearStep(year: int)
    ensures YearStart(year + 1) == YearStart(year) + YearSize(year) && DaysBefore(year, 12) == YearSize(year)
  {
    MonthInYear(year, 12);
    var d := DaysBefore(year, 2);
    assert d == 31 + MonthSize(year, 1) by { assert DaysBefore(year, 1) == 31; }
    assert DaysBefore(year, 5) == d + 92 by { assert DaysBefore(year, 3) == d + 31 && DaysBefore(year, 4) == d + 61; }
    assert DaysBefore(year, 8) == d + 184 by {
      assert DaysBefore(year, 6) == d + 122 && DaysBefore(year, 7) == d + 153;
    }
    assert DaysBefore(year, 11) == d + 275 by {
      assert DaysBefore(year, 9) == d + 214 && DaysBefore(year, 10) == d + 245;
    }
  }

  // ---------- the closed form ----------

  /** How many multiples of p lie in [EPOCH_YR, year), as mktime computes it. */
  function Multiples(year: int, p: int): int
    requires p > 0
  {
    Quot(year - EPOCH_YR, p) + if Rem(year, p) != 0 && Rem(year, p) < Rem(EPOCH_YR, p) then 1 else 0
  }

  lemma MultiplesIs(year: int, p: nat)
    requires EPOCH_YR <= year && 1 < p && 0 < EPOCH_YR % p
    ensures Multiples(year, p) == year / p - EPOCH_YR / p - if year % p == 0 then 1 else 0
  {
    var q, s, c, e := year / p, year % p, EPOCH_YR / p, EPOCH_YR % p;
    assert year - EPOCH_YR == p * (q - c) + (s - e);
    if s >= e {
      Arith.DivModUnique(year - EPOCH_YR, p, q - c, s - e);
    } else {
      assert p * (q - c) == p * (q - c - 1) + p;
      Arith.DivModUnique(year - EPOCH_YR, p, q - c - 1, s - e + p);
    }
  }

  lemma MultiplesStep(year: int, p: nat)
    requires EPOCH_YR <= year && 1 < p && 0 < EPOCH_YR % p
    ensures Multiples(year + 1, p) == Multiples(year, p) + if year % p == 0 then 1 else 0
  {
    MultiplesIs(year, p);
    MultiplesIs(year + 1, p);
    var q, s := year / p, year % p;
    hide Multiples;
    if s + 1 < p {
      Arith.DivModUnique(year + 1, p, q, s + 1);
    } else {
      assert p * q + p == p * (q + 1);
      Arith.DivModUnique(year + 1, p, q + 1, 0);
    }
  }

  /** A year divisible by 400 is divisible by 100, and so on. */
  lemma LeapRule(year: int)
    ensures year % 400 == 0 ==> year % 100 == 0
    ensures year % 100 == 0 ==> year % 4 == 0
  {
    var a, b := year / 400, year / 100;
    assert year == 400 * a + year % 400 && year == 100 * b + year % 100;
    Arith.DivModUnique(400 * a, 100, 4 * a, 0);
    Arith.DivModUnique(100 * b, 4, 25 * b, 0);
  }

  lemma YearSizeIs(year: int)
    ensures YearSize(year) == 365 + (if year % 4 == 0 then 1 else 0) - (if year % 100 == 0 then 1 else 0)
                                  + (if year % 400 == 0 then 1 else 0)
  {
    LeapRule(year);
  }

  function ClosedForm(year: int): int {
    365 * (year - EPOCH_YR) + Multiples(year, 4) - Multiples(year, 100) + Multiples(year, 400)
  }

  lemma EpochStart()
    ensures YearStart(EPOCH_YR) == 0
  {
  }

  lemma NoMultiples()
    ensures Multiples(EPOCH_YR, 4) == Multiples(EPOCH_YR, 100) == Multiples(EPOCH_YR, 400) == 0
  {
  }

  /** The closed form is the sum of the year sizes. */
  lemma {:induction false} ClosedFormIsSum(year: int)
    requires EPOCH_YR <= year
    ensures ClosedForm(year) == YearStart(year)
    decreases year
  {
    hide Multiples, YearStart, DaysBefore, MonthStart, Quot, Rem, LeapYear, YearSize;
    EpochStart();
    NoMultiples();
    if year > EPOCH_YR {
      ClosedFormIsSum(year - 1);
      MultiplesStep(year - 1, 4);
      MultiplesStep(year - 1, 100);
      MultiplesStep(year - 1, 400);
      YearSizeIs(year - 1);
      YearStep(year - 1);
    }
  }

  /** The days of a year before each month. */
  lemma DaysBeforeMonths(year: int)
    ensures var b := if LeapYear(year) then 1 else 0;
      && DaysBefore(year, 1) == 31 && DaysBefore(year, 2) == 59 + b && DaysBefore(year, 3) == 90 + b
      && DaysBefore(year, 4) == 120 + b && DaysBefore(year, 5) == 151 + b && DaysBefore(year, 6) == 181 + b
      && DaysBefore(year, 7) == 212 + b && DaysBefore(year, 8) == 243 + b && DaysBefore(year, 9) == 273 + b
      && DaysBefore(year, 10) == 304 + b && DaysBefore(year, 11) == 334 + b && DaysBefore(year, 12) == 365 + b
  {
    assert DaysBefore(year, 1) == 31;
    assert DaysBefore(year, 2) == 59 + if LeapYear(year) then 1 else 0;
    assert DaysBefore(year, 3) == DaysBefore(year, 2) + 31;
    assert DaysBefore(year, 4) == DaysBefore(year, 2) + 61;
    assert DaysBefore(year, 5) == DaysBefore(year, 2) + 92;
    assert DaysBefore(year, 6) == DaysBefore(year, 2) + 122;
    assert DaysBefore(year, 7) == DaysBefore(year, 2) + 153;
    assert DaysBefore(year, 8) == DaysBefore(year, 2) + 184;
    assert DaysBefore(year, 9) == DaysBefore(year, 2) + 214;
    assert DaysBefore(year, 10) == DaysBefore(year, 2) + 245;
    assert DaysBefore(year, 11) == DaysBefore(year, 2) + 275;
  }

  /** Four centuries of the Gregorian calendar have 146097 days, 97 of them leap days, and so the week repeats. */
  lemma GregorianCycle(year: int)
    requires 1970 <= year
    ensures YearStart(year + 400) == YearStart(year) + 400 * 365 + 97 && (400 * 365 + 97) % 7 == 0
  {
    hide YearStart, MonthStart, Multiples, DaysBefore, Quot, Rem;
    ClosedFormIsSum(year);
    ClosedFormIsSum(year + 400);
    MoreMultiples(year, 4, 100);
    MoreMultiples(year, 100, 4);
    MoreMultiples(year, 400, 1);
  }

  lemma MoreMultiples(year: int, p: nat, n: nat)
    requires EPOCH_YR <= year && 1 < p && 0 < EPOCH_YR % p && p * n == 400
    ensures Multiples(year + 400, p) == Multiples(year, p) + n
  {
    MultiplesIs(year, p);
    MultiplesIs(year + 400, p);
    hide Multiples;
    var q, r := year / p, year % p;
    assert p * (q + n) == p * q + p * n;
    Arith.DivModUnique(year + 400, p, q + n, r);
  }

  // ---------- broken-down times ----------

  datatype Fields = Fields(sec: int, min: int, hour: int, mday: int, mon: int, year: int,
                           wday: int, yday: int, isdst: int)

  /** The month that f names, counted from year 0; mon may be out of range. */
  function MonthOf(f: Fields): int {
    12 * (f.year + YEAR0) + f.mon
  }

  /** Seconds into the day; the fields may be out of range. */
  function Clock(f: Fields): int {
    (f.hour * 60 + f.min) * 60 + f.sec
  }

  /** Seconds since the epoch of the time that f names, whether or not its fields are in range. */
  function Instant(f: Fields): int {
    (MonthStart(MonthOf(f)) + f.mday - 1) * SECS_DAY + Clock(f)
  }

  predicate ClockInRange(f: Fields) {
    0 <= f.sec < 60 && 0 <= f.min < 60 && 0 <= f.hour < 24
  }

  predicate DateInRange(f: Fields) {
    0 <= f.mon < 12 && 1 <= f.mday <= MonthSize(f.year + YEAR0, f.mon)
  }

  predicate InRange(f: Fields) {
    ClockInRange(f) && DateInRange(f)
  }

  /** The two redundant fields agree with the date. */
  predicate Consistent(f: Fields)
    requires DateInRange(f)
  {
    f.yday == DaysBefore(f.year + YEAR0, f.mon) + f.mday - 1 && f.wday == (MonthStart(MonthOf(f)) + f.mday - 1 + 4) % 7
  }

  lemma ClockUnique(f: Fields, g: Fields)
    requires ClockInRange(f) && ClockInRange(g) && Clock(f) == Clock(g)
    ensures f.sec == g.sec && f.min == g.min && f.hour == g.hour
  {
  }

  lemma ClockBounds(f: Fields)
    requires ClockInRange(f)
    ensures 0 <= Clock(f) < SECS_DAY
  {
  }

  lemma DaysOf(f: Fields, start: int)
    requires DateInRange(f) && EPOCH_YR <= f.year + YEAR0 && ClosedForm(f.year + YEAR0) == start
    ensures var days := start + DaysBefore(f.year + YEAR0, f.mon) + f.mday - 1;
      && Instant(f) == days * SECS_DAY + Clock(f)
      && (f.yday == days - start && f.wday == (days + 4) % 7 ==> Consistent(f))
  {
    hide ClosedForm, YearStart, MonthStart, DaysBefore, MonthSize, Clock;
    ClosedFormIsSum(f.year + YEAR0);
    MonthInYear(f.year + YEAR0, f.mon);
  }

  /** Times that are known: the epoch. */
  lemma KnownEpoch()
    ensures var f := Fields(0, 0, 0, 1, 0, 70, 4, 0, 0); InRange(f) && Instant(f) == 0 && Consistent(f)
  {
    hide MonthStart, DaysBefore, YearStart, Instant, Consistent, ClosedForm, LeapYear, MonthSize;
    Year1970();
    DaysOf(Fields(0, 0, 0, 1, 0, 70, 4, 0, 0), 0);
  }

  /** 29 February 2000. */
  lemma KnownLeapDay()
    ensures var f := Fields(0, 0, 0, 29, 1, 100, 2, 59, 0); InRange(f) && Instant(f) == 951782400 && Consistent(f)
  {
    hide MonthStart, DaysBefore, YearStart, Instant, Consistent, ClosedForm, LeapYear, MonthSize;
    Year2000();
    DaysOf(Fields(0, 0, 0, 29, 1, 100, 2, 59, 0), 10957);
  }

  /** Second 1000000000. */
  lemma KnownBillion()
    ensures var f := Fields(40, 46, 1, 9, 8, 101, 0, 251, 0); InRange(f) && Instant(f) == 1000000000 && Consistent(f)
  {
    hide MonthStart, DaysBefore, YearStart, Instant, Consistent, ClosedForm, LeapYear, MonthSize;
    Year2001();
    DaysOf(Fields(40, 46, 1, 9, 8, 101, 0, 251, 0), 11323);
  }

  /** The last second of a signed 32-bit time. */
  lemma KnownLastSigned()
    ensures var f := Fields(7, 14, 3, 19, 0, 138, 2, 18, 0); InRange(f) && Instant(f) == 2147483647 && Consistent(f)
  {
    hide MonthStart, DaysBefore, YearStart, Instant, Consistent, ClosedForm, LeapYear, MonthSize;
    Year2038();
    DaysOf(Fields(7, 14, 3, 19, 0, 138, 2, 18, 0), 24837);
  }

  /** 1 March 2100, a year that is no leap year. */
  lemma KnownCentury()
    ensures var f := Fields(0, 0, 0, 1, 2, 200, 1, 59, 0); InRange(f) && Instant(f) == 4107542400 && Consistent(f)
  {
    hide MonthStart, DaysBefore, YearStart, Instant, Consistent, ClosedForm, LeapYear, MonthSize;
    Year2100();
    DaysOf(Fields(0, 0, 0, 1, 2, 200, 1, 59, 0), 47482);
  }

  lemma Year1970()
    ensures ClosedForm(1970) == 0 && DaysBefore(1970, 0) == 0 && 19 <= MonthSize(1970, 0)
  {
    DaysBeforeNone(1970);
    hide DaysBefore;
  }

  lemma Year2000()
    ensures ClosedForm(2000) == 10957 && DaysBefore(2000, 1) == 31 && 29 <= MonthSize(2000, 1)
  {
    DaysBeforeMonths(2000);
    hide DaysBefore;
  }

  lemma Year2001()
    ensures ClosedForm(2001) == 11323 && DaysBefore(2001, 8) == 243 && 19 <= MonthSize(2001, 8)
  {
    DaysBeforeMonths(2001);
    hide DaysBefore;
  }

  lemma Year2038()
    ensures ClosedForm(2038) == 24837 && DaysBefore(2038, 0) == 0 && 19 <= MonthSize(2038, 0)
  {
    DaysBeforeNone(2038);
    hide DaysBefore;
  }

  lemma Year2100()
    ensures ClosedForm(2100) == 47482 && DaysBefore(2100, 2) == 59 && 19 <= MonthSize(2100, 2)
  {
    DaysBeforeMonths(2100);
    hide DaysBefore;
  }

  lemma DaysBeforeNone(year: int)
    ensures DaysBefore(year, 0) == 0
  {
  }

  /** An instant has one broken-down time whose fields are in range. */
  lemma InstantUnique(f: Fields, g: Fields)
    requires InRange(f) && InRange(g) && Instant(f) == Instant(g)
    ensures f.sec == g.sec && f.min == g.min && f.hour == g.hour
    ensures f.mday == g.mday && f.mon == g.mon && f.year == g.year
    ensures Consistent(f) && Consistent(g) ==> f.yday == g.yday && f.wday == g.wday
  {
    hide MonthStart, MonthSize, Clock;
    ClockBounds(f);
    ClockBounds(g);
    assert MonthStart(MonthOf(f)) + f.mday == MonthStart(MonthOf(g)) + g.mday && Clock(f) == Clock(g);
    ClockUnique(f, g);
    LenOfMonth(f.year + YEAR0, f.mon);
    LenOfMonth(g.year + YEAR0, g.mon);
    MonthOfDay(MonthOf(f), f.mday - 1, MonthOf(g), g.mday - 1);
  }

  class Tm {
    var sec: int
    var min: int
    var hour: int
    var mday: int
    var mon: int
    var year: int
    var wday: int
    var yday: int
    var isdst: int

    constructor (f: Fields)
      ensures Value() == f
    {
      sec, min, hour, mday, mon := f.sec, f.min, f.hour, f.mday, f.mon;
      year, wday, yday, isdst := f.year, f.wday, f.yday, f.isdst;
    }

    function Value(): Fields
      reads this
    {
      Fields(sec, min, hour, mday, mon, year, wday, yday, isdst)
    }
  }

  /** Breaks down timer, which is first cut to 32 bits. */
  method GmtimeR(timer: int, tm: Tm)
    modifies tm
    ensures InRange(tm.Value()) && Instant(tm.Value()) == timer % WORD && Consistent(tm.Value()) && tm.isdst == 0
  {
    hide YearStart, MonthStart, DaysBefore, MonthSize, YearSize;
    var year := EPOCH_YR;
    var dayclock := (timer % WORD) % SECS_DAY;
    var dayno := (timer % WORD) / SECS_DAY;
    ghost var day := dayno;
    tm.sec := dayclock % 60;
    tm.min := dayclock % 3600 / 60;
    tm.hour := dayclock / 3600;
    tm.wday := (dayno + 4) % 7;
    EpochStart();
    while dayno >= YearSize(year)
      invariant 0 <= dayno && YearStart(year) + dayno == day
      invariant tm.sec == dayclock % 60 && tm.min == dayclock % 3600 / 60
      invariant tm.hour == dayclock / 3600 && tm.wday == (day + 4) % 7
      decreases dayno
    {
      YearStep(year);
      YearSizeBounds(year);
      dayno := dayno - YearSize(year);
      year := year + 1;
    }
    tm.year := year - YEAR0;
    tm.yday := dayno;
    tm.mon := 0;
    YearStep(year);
    NextMonth(year, 0);
    while dayno >= MonthSize(year, tm.mon)
      invariant 0 <= dayno && 0 <= tm.mon < 12 && tm.year == year - YEAR0 && tm.yday < YearSize(year)
      invariant DaysBefore(year, tm.mon) + dayno == tm.yday && YearStart(year) + tm.yday == day
      invariant tm.sec == dayclock % 60 && tm.min == dayclock % 3600 / 60
      invariant tm.hour == dayclock / 3600 && tm.wday == (day + 4) % 7
    {
      dayno := dayno - MonthSize(year, tm.mon);
      NextMonth(year, tm.mon);
      tm.mon := tm.mon + 1;
    }
    tm.mday := dayno + 1;
    tm.isdst := 0;
    MonthInYear(year, tm.mon);
    ClockTaken(dayclock);
  }

  lemma YearSizeBounds(year: int)
    ensures 365 <= YearSize(year) <= 366
  {
  }

  lemma NextMonth(year: int, mon: nat)
    requires mon < 12
    ensures DaysBefore(year, mon + 1) == DaysBefore(year, mon) + MonthSize(year, mon) && DaysBefore(year, 0) == 0
  {
  }

  lemma ClockTaken(c: int)
    requires 0 <= c < SECS_DAY
    ensures (c / 3600 * 60 + c % 3600 / 60) * 60 + c % 60 == c && 0 <= c / 3600 < 24 && 0 <= c % 3600 / 60 < 60
  {
    var h, r := c / 3600, c % 3600;
    assert c == 3600 * h + r && c == 60 * (60 * h + r / 60) + r % 60;
    Arith.DivModUnique(c, 60, 60 * h + r / 60, r % 60);
  }

  lemma FloorFix(a: int, b: int)
    requires b > 0
    ensures Quot(a, b) * b + Rem(a, b) == a && -b < Rem(a, b) < b
    ensures 0 <= a ==> 0 <= Rem(a, b)
  {
  }

  /** Brings the clock fields into range; day is what they carry over. */
  method NormaliseClock(tm: Tm) returns (day: int)
    modifies tm
    ensures ClockInRange(tm.Value()) && old(Clock(tm.Value())) == day * SECS_DAY + Clock(tm.Value())
    ensures var f := old(tm.Value()); tm.Value() == f.(sec := tm.sec, min := tm.min, hour := tm.hour)
  {
    hide Quot, Rem;
    FloorFix(tm.sec, 60);
    tm.min := tm.min + Quot(tm.sec, 60);
    tm.sec := Rem(tm.sec, 60);
    if tm.sec < 0 {
      tm.sec := tm.sec + 60;
      tm.min := tm.min - 1;
    }
    FloorFix(tm.min, 60);
    tm.hour := tm.hour + Quot(tm.min, 60);
    tm.min := Rem(tm.min, 60);
    if tm.min < 0 {
      tm.min := tm.min + 60;
      tm.hour := tm.hour - 1;
    }
    FloorFix(tm.hour, 24);
    day := Quot(tm.hour, 24);
    tm.hour := Rem(tm.hour, 24);
    if tm.hour < 0 {
      tm.hour := tm.hour + 24;
      day := day - 1;
    }
  }

  /** Brings the date fields into range, with extra days given. */
  method NormaliseDate(tm: Tm, extra: int)
    modifies tm
    ensures DateInRange(tm.Value())
    ensures MonthStart(MonthOf(tm.Value())) + tm.mday == old(MonthStart(MonthOf(tm.Value())) + tm.mday) + extra
    ensures var f := old(tm.Value()); tm.Value() == f.(mday := tm.mday, mon := tm.mon, year := tm.year)
  {
    hide Quot, Rem, MonthStart, MonthSize;
    ghost var f := tm.Value();
    FloorFix(tm.mon, 12);
    tm.year := tm.year + Quot(tm.mon, 12);
    tm.mon := Rem(tm.mon, 12);
    if tm.mon < 0 {
      tm.mon := tm.mon + 12;
      tm.year := tm.year - 1;
    }
    assert MonthOf(tm.Value()) == MonthOf(f);
    var day := extra + (tm.mday - 1);
    ghost var goal := MonthStart(MonthOf(f)) + day;
    while day < 0
      invariant 0 <= tm.mon < 12 && tm.Value() == f.(mon := tm.mon, year := tm.year)
      invariant MonthStart(MonthOf(tm.Value())) + day == goal
    {
      tm.mon := tm.mon - 1;
      if tm.mon < 0 {
        tm.year := tm.year - 1;
        tm.mon := 11;
      }
      day := day + MonthSize(YEAR0 + tm.year, tm.mon);
      StepFrom(tm.Value());
    }
    while day >= MonthSize(YEAR0 + tm.year, tm.mon)
      invariant 0 <= day && 0 <= tm.mon < 12 && tm.Value() == f.(mon := tm.mon, year := tm.year)
      invariant MonthStart(MonthOf(tm.Value())) + day == goal
      decreases day
    {
      StepFrom(tm.Value());
      day := day - MonthSize(YEAR0 + tm.year, tm.mon);
      tm.mon := tm.mon + 1;
      if tm.mon == 12 {
        tm.mon := 0;
        tm.year := tm.year + 1;
      }
    }
    tm.mday := day + 1;
  }

  lemma StepFrom(f: Fields)
    requires 0 <= f.mon < 12
    ensures MonthStart(MonthOf(f) + 1) == MonthStart(MonthOf(f)) + MonthSize(f.year + YEAR0, f.mon)
  {
    MonthStep(MonthOf(f));
    LenOfMonth(f.year + YEAR0, f.mon);
  }

  /** What mktime answers for a local instant: -1 if it or the instant behind it does not fit. */
  function Converted(instant: int, timezone: int, dst: int): int {
    if 0 <= instant <= TIME_MAX && 0 <= instant + timezone <= TIME_MAX && dst <= instant + timezone
    then instant + timezone - dst else -1
  }

  /** The days from the epoch to the date in tm, by the closed form; also sets the redundant fields. */
  method DayNumber(tm: Tm) returns (day: int, overflow: bool)
    requires DateInRange(tm.Value()) && EPOCH_YR <= tm.year + YEAR0
    modifies tm
    ensures day == MonthStart(MonthOf(tm.Value())) + tm.mday - 1
    ensures overflow ==> TIME_MAX < day * SECS_DAY
    ensures var f := old(tm.Value()); tm.Value() == f.(yday := tm.yday, wday := tm.wday) && Consistent(tm.Value())
  {
    hide MonthStart, DaysBefore, MonthSize, Multiples, YearStart, Quot, Rem;
    var year := tm.year + YEAR0;
    overflow := false;
    if Quot(TIME_MAX, 365) < year - EPOCH_YR {
      overflow := true;
    }
    day := (year - EPOCH_YR) * 365;
    if TIME_MAX - day < Quot(year - EPOCH_YR, 4) + 1 {
      overflow := true;
    }
    day := day + Multiples(year, 4);
    day := day - Multiples(year, 100);
    day := day + Multiples(year, 400);
    ClosedFormIsSum(year);
    var yday, month := 0, 0;
    NextMonth(year, 0);
    while month < tm.mon
      invariant tm.Value() == old(tm.Value())
      invariant 0 <= month <= tm.mon < 12 && yday == DaysBefore(year, month) && 0 <= yday
    {
      NextMonth(year, month);
      yday := yday + MonthSize(year, month);
      month := month + 1;
    }
    yday := yday + (tm.mday - 1);
    OverflowIsReal(year);
    if day + yday < 0 {
      overflow := true;
    }
    day := day + yday;
    MonthInYear(year, tm.mon);
    tm.yday := yday;
    tm.wday := Rem(day + 4, 7);
    assert Rem(day + 4, 7) == (day + 4) % 7 by { RemOfNatural(day + 4); }
  }

  lemma RemOfNatural(n: int)
    ensures 0 <= n ==> Rem(n, 7) == n % 7
  {
  }

  /** The early tests for overflow only catch years that are too late. */
  lemma OverflowIsReal(year: int)
    requires EPOCH_YR <= year
    ensures 0 <= ClosedForm(year)
    ensures Quot(TIME_MAX, 365) < year - EPOCH_YR || TIME_MAX - (year - EPOCH_YR) * 365 < Quot(year - EPOCH_YR, 4) + 1
            ==> TIME_MAX < ClosedForm(year) * SECS_DAY
  {
    MultiplesIs(year, 4);
    MultiplesIs(year, 100);
    MultiplesIs(year, 400);
  }

  /** Puts the broken-down local time in tm together, having brought its fields into range. */
  method Mktime(tm: Tm, timezone: int, dstbias: int) returns (r: int)
    requires 0 <= dstbias
    modifies tm
    ensures InRange(tm.Value()) && Instant(tm.Value()) == old(Instant(tm.Value())) && tm.isdst == old(tm.isdst)
    ensures r == Converted(old(Instant(tm.Value())), timezone, if old(tm.isdst) != 0 then dstbias else 0)
    ensures r != -1 ==> r == old(Instant(tm.Value())) + timezone - (if old(tm.isdst) != 0 then dstbias else 0)
    ensures var utc := old(Instant(tm.Value())) + timezone;
      (r != -1 <==> 0 <= old(Instant(tm.Value())) <= 2147483647 && 0 <= utc <= 2147483647
                    && (old(tm.isdst) != 0 ==> dstbias <= utc))
    ensures tm.year + YEAR0 < EPOCH_YR ==> tm.yday == old(tm.yday) && tm.wday == old(tm.wday)
    ensures tm.year + YEAR0 >= EPOCH_YR ==> Consistent(tm.Value())
  {
    hide MonthStart, MonthSize, DaysBefore;
    var carry := NormaliseClock(tm);
    NormaliseDate(tm, carry);
    ghost var f := tm.Value();
    ClockBounds(f);
    EpochSign(f);
    if tm.year < EPOCH_YR - YEAR0 {
      return -1;
    }
    var day, overflow := DayNumber(tm);
    var seconds := (tm.hour * 60 + tm.min) * 60 + tm.sec;
    if Quot(TIME_MAX - seconds, SECS_DAY) < day {
      overflow := true;
    }
    seconds := seconds + day * SECS_DAY;
    if (timezone > 0 && TIME_MAX - timezone < seconds) || (timezone < 0 && seconds < -timezone) {
      overflow := true;
    }
    seconds := seconds + timezone;
    var dst := if tm.isdst != 0 then dstbias else 0;
    if dst > seconds {
      overflow := true;
    }
    seconds := seconds - dst;
    r := if overflow then -1 else seconds;
  }

  /** Times before the epoch are those with an earlier year. */
  lemma EpochSign(f: Fields)
    requires InRange(f)
    ensures Instant(f) < 0 <==> f.year + YEAR0 < EPOCH_YR
  {
    hide MonthSize, MonthStart;
    ClockBounds(f);
    LenOfMonth(f.year + YEAR0, f.mon);
    EpochStart();
    if f.year + YEAR0 < EPOCH_YR {
      MonthStep(MonthOf(f));
      MonthsGrow(MonthOf(f) + 1, 12 * EPOCH_YR);
    } else {
      MonthsGrow(12 * EPOCH_YR, MonthOf(f));
    }
  }

  /** Local time: seconds west of Greenwich are taken off first. */
  method LocaltimeR(timer: int, timezone: int, tm: Tm)
    modifies tm
    ensures InRange(tm.Value()) && Instant(tm.Value()) == (timer - timezone) % WORD
    ensures Consistent(tm.Value()) && tm.isdst == 0
  {
    GmtimeR(timer - timezone, tm);
  }

  /** Breaking a time down and putting it together again gives the time back exactly if it, and the local time,
      fit the time type. */
  method BackAndForth(timer: int, timezone: int, dstbias: int, tm: Tm) returns (r: int)
    requires 0 <= timer - timezone < WORD && 0 <= dstbias
    modifies tm
    ensures r == if 0 <= timer <= TIME_MAX && timer - timezone <= TIME_MAX then timer else -1
  {
    hide Instant, InRange, Consistent;
    LocaltimeR(timer, timezone, tm);
    r := Mktime(tm, timezone, dstbias);
  }

  /** Whatever the fields were, after mktime they are those that breaking the time down gives. */
  method ForthAndBack(tm: Tm, g: Tm) returns (r: int)
    requires tm != g && tm.isdst == 0
    modifies tm, g
    ensures r >= 0 ==> tm.Value() == g.Value()
  {
    hide Instant, Consistent, InRange;
    r := Mktime(tm, 0, 0);
    GmtimeR(r, g);
    if r >= 0 {
      SameAfterMktime(tm.Value(), g.Value(), r);
    }
  }

  lemma SameAfterMktime(f: Fields, g: Fields, r: int)
    requires InRange(f) && InRange(g) && Consistent(g) && f.isdst == g.isdst == 0
    requires r >= 0 && r == Converted(Instant(f), 0, 0) && Instant(g) == r % WORD
    requires f.year + YEAR0 < EPOCH_YR || Consistent(f)
    ensures f == g
  {
    hide Instant, Consistent, InRange;
    EpochSign(f);
    InstantUnique(f, g);
  }

  // ---------- ISO 8601 weeks ----------

  /** The day of the year, perhaps of the one before or after, on which the Thursday of the week falls. */
  function Thursday(yday: int, wday: int): int {
    yday + 3 - (wday + 6) % 7
  }

  /** The year that the week's Thursday belongs to. */
  function IsoYear(year: int, yday: int, wday: int): (y: int)
  {
    var thu := Thursday(yday, wday);
    if thu < 0 then year - 1 else if thu >= YearSize(year) then year + 1 else year
  }

  /** Which Thursday of that year it is. */
  function IsoWeek(year: int, yday: int, wday: int): (w: int)
    requires 0 <= yday < YearSize(year) && 0 <= wday < 7
    ensures 1 <= w <= 53
  {
    var thu := Thursday(yday, wday);
    1 + (if thu < 0 then thu + YearSize(year - 1) else if thu >= YearSize(year) then thu - YearSize(year) else thu) / 7
  }

  /** The week-based year and the week, as %V, %G and %g compute them. */
  method WeekOf(year0: int, yday0: int, wday: int) returns (year: int, w: int, ghost passes: nat)
    requires 0 <= yday0 < YearSize(year0) && 0 <= wday < 7
    ensures year == IsoYear(year0, yday0, wday) && w == IsoWeek(year0, yday0, wday)
    ensures 1 <= passes <= 2
  {
    year := year0;
    var yday := yday0;
    passes := 0;
    while true
      invariant passes == 0 ==> year == year0 && yday == yday0
      invariant passes == 1 ==> year == year0 - 1 && yday == yday0 + YearSize(year) && Thursday(yday0, wday) < 0
      invariant passes <= 1
      decreases 2 - passes
    {
      passes := passes + 1;
      WeekBounds(year, yday, wday);
      var len := if LeapYear(year) then 366 else 365;
      var bot := (yday + 11 - wday) % 7 - 3;
      var top := bot - len % 7;
      if top < -3 {
        top := top + 7;
      }
      top := top + len;
      if yday >= top {
        year := year + 1;
        w := 1;
        break;
      }
      if yday >= bot {
        w := 1 + (yday - bot) / 7;
        break;
      }
      year := year - 1;
      yday := yday + YearSize(year);
    }
  }

  /** The bounds of the loop are the Mondays of the first weeks of this year and the next. */
  lemma WeekBounds(year: int, yday: int, wday: int)
    requires 0 <= wday < 7
    ensures var bot, len, thu := (yday + 11 - wday) % 7 - 3, YearSize(year), Thursday(yday, wday);
      var top := bot - len % 7 + (if bot - len % 7 < -3 then 7 else 0) + len;
      && -3 <= bot <= 3 && (thu - 3 - bot) % 7 == 0 && (yday < bot <==> thu < 0) && (yday >= top <==> thu >= len)
      && (bot <= yday ==> (yday - bot) / 7 == thu / 7)
  {
    ThursdayOf(yday, wday);
    hide Thursday, LeapYear;
    var thu, len := Thursday(yday, wday), YearSize(year);
    var q, r := thu / 7, thu % 7;
    Arith.DivModUnique(yday - (r - 3), 7, q, yday + 3 - thu);
    assert len == 7 * 52 + 1 || len == 7 * 52 + 2;
  }

  lemma ThursdayOf(yday: int, wday: int)
    requires 0 <= wday < 7
    ensures (yday + 11 - wday) % 7 == Thursday(yday, wday) % 7
    ensures yday - 3 <= Thursday(yday, wday) <= yday + 3
  {
    var thu := Thursday(yday, wday);
    assert yday + 11 - wday == thu + if wday == 0 then 14 else 7;
  }

  /** Week 1 is the one with 4 January, in every year. */
  lemma FirstWeek(year: int, wday: int)
    requires 0 <= wday < 7
    ensures IsoYear(year, 3, wday) == year && IsoWeek(year, 3, wday) == 1
  {
  }

  /** A week runs from Monday to Sunday, across the new year too; the next one has the next number, or is the
      first of the next year. */
  lemma WeeksFollow(year: int, yday: int, wday: int)
    requires 0 <= yday < YearSize(year) && 0 <= wday < 7
    ensures var newYear := yday + 1 == YearSize(year);
      var year', yday', wday' := if newYear then year + 1 else year, if newYear then 0 else yday + 1, (wday + 1) % 7;
      var y, w := IsoYear(year, yday, wday), IsoWeek(year, yday, wday);
      var y', w' := IsoYear(year', yday', wday'), IsoWeek(year', yday', wday');
      if wday != 0 then y' == y && w' == w else (y' == y && w' == w + 1) || (y' == y + 1 && w' == 1 && w >= 52)
  {
    YearSizeBounds(year - 1);
    YearSizeBounds(year);
    YearSizeBounds(year + 1);
    var newYear := yday + 1 == YearSize(year);
    var thu := Thursday(yday, wday);
    if newYear {
      assert Thursday(0, (wday + 1) % 7) == (if wday == 0 then thu + 7 else thu) - YearSize(year);
    } else {
      assert Thursday(yday + 1, (wday + 1) % 7) == if wday == 0 then thu + 7 else thu;
    }
  }
}
