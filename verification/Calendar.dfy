/**
 Calendar arithmetic of ej_user_time.c: seconds since 1970 to broken-down time and back by loops over
 years and months, the closed-form weekday, and the validation of a broken-down time.
 time_t is taken wide enough not to overflow; products with the unsigned tables wrap at 32 bits.
 */
module Calendar {
  const YEAR0 := 1900
  const EPOCH_YR := 1970
  const SEC_PER_DY := 86400
  const SEC_PER_HR := 3600

  /** struct ej_tm; year counts from 1900 and mon from 0. */
  datatype Tm = Tm(sec: int, min: int, hour: int, mday: int, mon: int, year: int, wday: int, yday: int, isdst: int)

  predicate IsLeap(yr: int) {
    if yr % 100 == 0 then yr % 400 == 0 else yr % 4 == 0
  }

  /** EJ_SEC_PER_YR */
  function YearSeconds(yr: int): nat {
    if IsLeap(yr) then 31622400 else 31536000
  }

  /** EJ_SEC_PER_MT */
  function MonthSeconds(leap: bool, mon: nat): nat
    requires mon < 12
  {
    [2678400, if leap then 2505600 else 2419200, 2678400, 2592000, 2678400, 2592000,
     2678400, 2678400, 2592000, 2678400, 2592000, 2678400][mon]
  }

  /** unsigned int arithmetic */
  function U32(x: int): nat {
    x % 0x1_0000_0000
  }

  // Seconds before a year, and before a month of a year

  function YearsBefore(yr: int): nat
    decreases yr
  {
    if yr <= EPOCH_YR then 0 else YearsBefore(yr - 1) + YearSeconds(yr - 1)
  }

  function MonthsBefore(leap: bool, mon: int): nat
    requires mon <= 12
    decreases mon
  {
    if mon <= 0 then 0 else MonthsBefore(leap, mon - 1) + MonthSeconds(leap, mon - 1)
  }

  /** What ej_mktime returns. */
  function Seconds(tm: Tm): int
    requires tm.mon <= 12
  {
    YearsBefore(tm.year + YEAR0) + MonthsBefore(IsLeap(tm.year + YEAR0), tm.mon) +
    U32((tm.mday - 1) * SEC_PER_DY) + U32(tm.hour * SEC_PER_HR) + tm.min * 60 + tm.sec
  }

  /** ej_mktime; the month indexes a table of twelve. */
  method Mktime(tm: Tm) returns (ret: int)
    requires tm.mon <= 12
    ensures ret == Seconds(tm)
  {
    hide IsLeap, YearSeconds, MonthSeconds, U32;
    ret := 0;
    var i := EPOCH_YR;
    while i < tm.year + YEAR0
      invariant EPOCH_YR <= i && (i <= tm.year + YEAR0 || i == EPOCH_YR)
      invariant ret == YearsBefore(i)
    {
      ret := ret + YearSeconds(i);
      i := i + 1;
    }
    var leapyr := IsLeap(tm.year + YEAR0);
    i := 0;
    while i < tm.mon
      invariant 0 <= i && (i <= tm.mon || i == 0)
      invariant ret == YearsBefore(tm.year + YEAR0) + MonthsBefore(leapyr, i)
    {
      ret := ret + MonthSeconds(leapyr, i);
      i := i + 1;
    }
    ret := ret + U32((tm.mday - 1) * SEC_PER_DY);
    ret := ret + U32(tm.hour * SEC_PER_HR);
    ret := ret + tm.min * 60;
    ret := ret + tm.sec;
  }

  // Proper dates

  function DaysInMonth(leap: bool, mon: nat): nat
    requires mon < 12
  {
    MonthSeconds(leap, mon) / SEC_PER_DY
  }

  predicate IsTime(tm: Tm) {
    0 <= tm.sec < 60 && 0 <= tm.min < 60 && 0 <= tm.hour < 24
  }

  /** A date of the Gregorian calendar from 1970 on, with a time of day. */
  predicate IsDate(tm: Tm) {
    && IsTime(tm)
    && tm.year + YEAR0 >= EPOCH_YR
    && 0 <= tm.mon < 12
    && 1 <= tm.mday <= DaysInMonth(IsLeap(tm.year + YEAR0), tm.mon)
  }

  /** validate_date_time */
  function Validate(tm: Tm): int {
    if tm.sec > 59 then -1
    else if tm.min > 59 then -1
    else if tm.hour > 23 then -1
    else if tm.year + YEAR0 < EPOCH_YR || tm.year + YEAR0 > 2111 then -1
    else if tm.mon >= 12 then -1
    else if tm.mon == 1 && tm.mday > (if IsLeap(tm.year + YEAR0) then 29 else 28) then -1
    else if tm.mon in {3, 5, 8, 10} && tm.mday > 30 then -1
    else if tm.mday < 1 || tm.mday > 31 then -1
    else 0
  }

  /** On non-negative fields the validation accepts exactly the dates up to the year 2111. */
  lemma ValidateAcceptsDates(tm: Tm)
    requires tm.sec >= 0 && tm.min >= 0 && tm.hour >= 0 && tm.mon >= 0
    ensures Validate(tm) == 0 <==> IsDate(tm) && tm.year + YEAR0 <= 2111
  {
  }

  /** The seconds of a date are the days and the time of day, without wrapping. */
  lemma SecondsOfDate(tm: Tm)
    requires IsDate(tm)
    ensures Seconds(tm) == YearsBefore(tm.year + YEAR0) + MonthsBefore(IsLeap(tm.year + YEAR0), tm.mon) +
                           (tm.mday - 1) * SEC_PER_DY + tm.hour * SEC_PER_HR + tm.min * 60 + tm.sec
  {
  }

  // Broken-down time

  /** The year that contains the second rem of year yr and after, with the seconds into it. */
  function YearOf(rem: nat, yr: int): (r: (int, nat))
    ensures r.0 >= yr && r.1 < YearSeconds(r.0)
    decreases rem
  {
    if rem < YearSeconds(yr) then (yr, rem) else YearOf(rem - YearSeconds(yr), yr + 1)
  }

  lemma MonthsFillYear(leap: bool)
    ensures MonthsBefore(leap, 12) == if leap then 31622400 else 31536000
  {
    assert MonthsBefore(leap, 3) == if leap then 7862400 else 7776000;
    assert MonthsBefore(leap, 6) == MonthsBefore(leap, 3) + 7862400;
    assert MonthsBefore(leap, 9) == MonthsBefore(leap, 6) + 7948800;
  }

  /** The month, from mon on, that contains the second rem, with the seconds into it. */
  function MonthOf(leap: bool, rem: nat, mon: nat): (r: (nat, nat))
    requires mon < 12 && MonthsBefore(leap, mon) + rem < MonthsBefore(leap, 12)
    ensures mon <= r.0 < 12 && r.1 < MonthSeconds(leap, r.0)
    ensures MonthsBefore(leap, r.0) + r.1 == MonthsBefore(leap, mon) + rem
    decreases 12 - mon
  {
    if rem < MonthSeconds(leap, mon) then (mon, rem)
    else assert mon + 1 < 12; MonthOf(leap, rem - MonthSeconds(leap, mon), mon + 1)
  }

  // The weekday

  const MONTH_TERM: seq<nat> := [0, 3, 2, 5, 0, 3, 5, 1, 4, 6, 2, 4]

  /** day_of_week_get: month 1 to 12 and day as unsigned char, the year as unsigned short throughout. */
  function DayOfWeek(month: int, day: int, year: int): nat
    requires 1 <= month <= 12
  {
    var y := (year % 0x1_0000 - (if month < 3 then 1 else 0)) % 0x1_0000;
    (y + y / 4 - y / 100 + y / 400 + MONTH_TERM[month - 1] + day % 0x100) % 7
  }

  /** The year with which the weekday formula works: January and February count with the year before. */
  function FormulaYear(mon: nat, yr: int): int {
    if mon < 2 then yr - 1 else yr
  }

  function LeapTerm(y: int): int {
    y / 4 - y / 100 + y / 400
  }

  // ej_gmtime_r

  /** What ej_gmtime_r fills in. */
  function Gmtime(t: nat): Tm {
    var (yr, intoYear) := YearOf(t, EPOCH_YR);
    MonthsFillYear(IsLeap(yr));
    var (mon, intoMonth) := MonthOf(IsLeap(yr), intoYear, 0);
    var mday := intoMonth / SEC_PER_DY + 1;
    var intoDay := intoMonth % SEC_PER_DY;
    Tm(intoDay % SEC_PER_HR % 60, intoDay % SEC_PER_HR / 60, intoDay / SEC_PER_HR, mday, mon, yr - YEAR0,
       DayOfWeek(mon + 1, mday, yr), intoYear / SEC_PER_DY, 0)
  }

  /** ej_gmtime_r; the month never leaves the table, because the seconds left are fewer than the months still hold. */
  method GmtimeR(t: nat) returns (result: Tm)
    ensures result == Gmtime(t)
  {
    hide MonthsBefore, MonthSeconds, YearSeconds, DayOfWeek;
    var ltime: nat := t;
    var yr: int := EPOCH_YR;
    while ltime >= YearSeconds(yr)
      invariant YearOf(ltime, yr) == YearOf(t, EPOCH_YR)
      decreases ltime
    {
      YearIsPositive(yr);
      ltime := ltime - YearSeconds(yr);
      yr := yr + 1;
    }
    var yday := ltime / SEC_PER_DY;
    var leapyr := IsLeap(yr);
    var mon: nat := 0;
    MonthsFillYear(leapyr);
    ghost var intoYear := ltime;
    YearSecondsAreMonths(yr);
    while ltime >= MonthSeconds(leapyr, mon)
      invariant mon < 12 && MonthsBefore(leapyr, mon) + ltime < MonthsBefore(leapyr, 12)
      invariant MonthOf(leapyr, ltime, mon) == MonthOf(leapyr, intoYear, 0)
      decreases 12 - mon
    {
      NextMonth(leapyr, mon);
      ltime := ltime - MonthSeconds(leapyr, mon);
      mon := mon + 1;
    }
    var mday := ltime / SEC_PER_DY;
    mday := mday + 1;
    ltime := ltime % SEC_PER_DY;
    var hour := ltime / SEC_PER_HR;
    ltime := ltime % SEC_PER_HR;
    result := Tm(ltime % 60, ltime / 60, hour, mday, mon, yr - YEAR0, DayOfWeek(mon + 1, mday, yr), yday, 0);
  }

  lemma YearIsPositive(yr: int)
    ensures YearSeconds(yr) > 0
  {
  }

  lemma YearSecondsAreMonths(yr: int)
    ensures MonthsBefore(IsLeap(yr), 12) == YearSeconds(yr) && MonthsBefore(IsLeap(yr), 0) == 0
  {
    MonthsFillYear(IsLeap(yr));
  }

  lemma NextMonth(leap: bool, mon: nat)
    requires mon < 12
    ensures MonthsBefore(leap, mon + 1) == MonthsBefore(leap, mon) + MonthSeconds(leap, mon)
  {
  }

  // Round trips

  lemma {:induction false} YearOfBefore(rem: nat, yr: int)
    requires yr >= EPOCH_YR
    ensures YearsBefore(YearOf(rem, yr).0) + YearOf(rem, yr).1 == YearsBefore(yr) + rem
    decreases rem
  {
    if rem >= YearSeconds(yr) {
      YearOfBefore(rem - YearSeconds(yr), yr + 1);
    }
  }

  /** For every t: the broken-down time is a date, and its seconds are t. */
  lemma MktimeOfGmtime(t: nat)
    ensures IsDate(Gmtime(t)) && Seconds(Gmtime(t)) == t
  {
    hide YearsBefore, MonthsBefore, MonthSeconds, YearSeconds, YearOf, MonthOf, IsLeap, DayOfWeek, Seconds, DaysInMonth;
    YearOfBefore(t, EPOCH_YR);
    NothingBefore();
    var (yr, intoYear) := YearOf(t, EPOCH_YR);
    YearSecondsAreMonths(yr);
    MonthsFillYear(IsLeap(yr));
    var (mon, intoMonth) := MonthOf(IsLeap(yr), intoYear, 0);
    SplitDay(intoMonth);
    WholeDays(IsLeap(yr), mon);
    SecondsOfDate(Gmtime(t));
  }

  lemma NothingBefore()
    ensures YearsBefore(EPOCH_YR) == 0
  {
  }

  lemma SplitDay(n: nat)
    ensures var d, r := n / SEC_PER_DY, n % SEC_PER_DY;
            && n == d * SEC_PER_DY + r / SEC_PER_HR * SEC_PER_HR + r % SEC_PER_HR / 60 * 60 + r % SEC_PER_HR % 60
            && r / SEC_PER_HR < 24 && r % SEC_PER_HR / 60 < 60
  {
  }

  predicate SameDateTime(a: Tm, b: Tm) {
    a.sec == b.sec && a.min == b.min && a.hour == b.hour && a.mday == b.mday && a.mon == b.mon && a.year == b.year
  }

  lemma {:induction false} LaterYear(y: int, z: int)
    requires EPOCH_YR <= y < z
    ensures YearsBefore(y) + YearSeconds(y) <= YearsBefore(z)
    decreases z
  {
    if z > y + 1 {
      LaterYear(y, z - 1);
    }
  }

  lemma {:induction false} LaterMonth(leap: bool, m: nat, n: nat)
    requires m < n <= 12
    ensures MonthsBefore(leap, m) + MonthSeconds(leap, m) <= MonthsBefore(leap, n)
    decreases n
  {
    if n > m + 1 {
      LaterMonth(leap, m, n - 1);
    }
  }

  /** The seconds into the year of a date, less than a year. */
  lemma DateInYear(tm: Tm)
    requires IsDate(tm)
    ensures var yr := tm.year + YEAR0; YearsBefore(yr) <= Seconds(tm) < YearsBefore(yr) + YearSeconds(yr)
    ensures var yr := tm.year + YEAR0; var leap := IsLeap(yr);
            var intoMonth := Seconds(tm) - YearsBefore(yr) - MonthsBefore(leap, tm.mon);
            && 0 <= intoMonth < MonthSeconds(leap, tm.mon)
            && intoMonth == (tm.mday - 1) * SEC_PER_DY + tm.hour * SEC_PER_HR + tm.min * 60 + tm.sec
  {
    hide YearsBefore, U32;
    SecondsOfDate(tm);
    var leap := IsLeap(tm.year + YEAR0);
    WholeDays(leap, tm.mon);
    LaterMonth(leap, tm.mon, 12);
    MonthsFillYear(leap);
  }

  lemma WholeDays(leap: bool, mon: nat)
    requires mon < 12
    ensures MonthSeconds(leap, mon) == DaysInMonth(leap, mon) * SEC_PER_DY
  {
  }

  /** Different dates have different seconds. */
  lemma SecondsDetermineDate(a: Tm, b: Tm)
    requires IsDate(a) && IsDate(b) && Seconds(a) == Seconds(b)
    ensures SameDateTime(a, b)
  {
    hide Seconds, YearsBefore, MonthsBefore, MonthSeconds, YearSeconds, DaysInMonth;
    DateInYear(a);
    DateInYear(b);
    var y, z := a.year + YEAR0, b.year + YEAR0;
    if y < z {
      LaterYear(y, z);
    } else if z < y {
      LaterYear(z, y);
    }
    var leap := IsLeap(y);
    if a.mon < b.mon {
      LaterMonth(leap, a.mon, b.mon);
    } else if b.mon < a.mon {
      LaterMonth(leap, b.mon, a.mon);
    }
  }

  /** For every date, in particular every one that validate_date_time accepts: its seconds give it back. */
  lemma GmtimeOfMktime(tm: Tm)
    requires IsDate(tm)
    ensures Seconds(tm) >= 0 && SameDateTime(Gmtime(Seconds(tm)), tm)
  {
    hide Gmtime;
    DateInYear(tm);
    MktimeOfGmtime(Seconds(tm));
    SecondsDetermineDate(Gmtime(Seconds(tm)), tm);
  }

  // The weekday counts days

  /** The year-by-year sum of leap days is the difference of the closed form's terms. */
  lemma {:induction false} YearsBeforeClosed(yr: int)
    requires yr >= EPOCH_YR
    ensures YearsBefore(yr) == SEC_PER_DY * (365 * (yr - EPOCH_YR) + LeapTerm(yr - 1) - LeapTerm(EPOCH_YR - 1))
    decreases yr
  {
    if yr > EPOCH_YR {
      YearsBeforeClosed(yr - 1);
      LeapTermStep(yr - 1);
    }
  }

  lemma LeapTermStep(yr: int)
    requires yr > 0
    ensures LeapTerm(yr) - LeapTerm(yr - 1) == if IsLeap(yr) then 1 else 0
  {
    assert yr / 4 - (yr - 1) / 4 == if yr % 4 == 0 then 1 else 0;
    assert yr / 100 - (yr - 1) / 100 == if yr % 100 == 0 then 1 else 0;
    assert yr / 400 - (yr - 1) / 400 == if yr % 400 == 0 then 1 else 0;
  }

  /** How many weeks of the days before a month the month term leaves out. */
  function MonthWeeks(mon: nat): nat
    requires mon < 12
  {
    [0, 4, 8, 12, 17, 21, 25, 30, 34, 38, 43, 47][mon]
  }

  /** Days before a month, up to whole weeks, are the formula's month term, and one or two from March on. */
  lemma MonthTerm(leap: bool, mon: nat)
    requires mon < 12
    ensures MonthsBefore(leap, mon) ==
            SEC_PER_DY * (MONTH_TERM[mon] + 7 * MonthWeeks(mon) + (if mon < 2 then 0 else if leap then 2 else 1))
  {
    MonthsByTable(leap);
  }

  lemma MonthsByTable(leap: bool)
    ensures var d := if leap then 1 else 0;
            forall m: nat | m < 12 ::
              MonthsBefore(leap, m) == SEC_PER_DY * [0, 31, 59 + d, 90 + d, 120 + d, 151 + d, 181 + d, 212 + d,
                                                     243 + d, 273 + d, 304 + d, 334 + d][m]
  {
    var d := if leap then 1 else 0;
    assert MonthsBefore(leap, 2) == SEC_PER_DY * (59 + d);
    assert MonthsBefore(leap, 4) == SEC_PER_DY * (120 + d);
    assert MonthsBefore(leap, 6) == SEC_PER_DY * (181 + d);
    assert MonthsBefore(leap, 8) == SEC_PER_DY * (243 + d);
    assert MonthsBefore(leap, 10) == SEC_PER_DY * (304 + d);
  }

  /** Days since 1970-01-01 of a date. */
  function DayNumber(tm: Tm): int
    requires IsDate(tm)
  {
    Seconds(tm) / SEC_PER_DY
  }

  lemma DayNumberOfDate(tm: Tm)
    requires IsDate(tm)
    ensures var yr := tm.year + YEAR0;
            SEC_PER_DY * (DayNumber(tm) - tm.mday + 1) == YearsBefore(yr) + MonthsBefore(IsLeap(yr), tm.mon)
  {
    hide YearsBefore, MonthsBefore, MonthSeconds, Seconds, U32, DaysInMonth, IsLeap, LeapTerm, MonthWeeks;
    var yr := tm.year + YEAR0;
    SecondsOfDate(tm);
    YearsBeforeClosed(yr);
    MonthTerm(IsLeap(yr), tm.mon);
    var yearDays := 365 * (yr - EPOCH_YR) + LeapTerm(yr - 1) - LeapTerm(EPOCH_YR - 1);
    var leapDays := if tm.mon < 2 then 0 else if IsLeap(yr) then 2 else 1;
    var monthDays := MONTH_TERM[tm.mon] + 7 * MonthWeeks(tm.mon) + leapDays;
    WholePart(yearDays + monthDays + tm.mday - 1, tm.hour * SEC_PER_HR + tm.min * 60 + tm.sec);
  }

  /** mktime in closed form: the days of the years, with every fourth but not every hundredth, and of the months. */
  lemma SecondsClosed(tm: Tm)
    requires IsDate(tm)
    ensures var yr := tm.year + 1900;
            var d := if (yr % 4 == 0 && yr % 100 != 0) || yr % 400 == 0 then 1 else 0;
            var years := 365 * (yr - 1970) + (yr - 1) / 4 - (yr - 1) / 100 + (yr - 1) / 400 - 477;
            var months := [0, 31, 59 + d, 90 + d, 120 + d, 151 + d, 181 + d, 212 + d, 243 + d, 273 + d, 304 + d,
                           334 + d][tm.mon];
            Seconds(tm) == 86400 * (years + months + tm.mday - 1) + 3600 * tm.hour + 60 * tm.min + tm.sec
  {
    hide YearsBefore, MonthsBefore, MonthSeconds, Seconds, IsLeap, LeapTerm, DaysInMonth;
    var yr := tm.year + YEAR0;
    SecondsOfDate(tm);
    YearsBeforeClosed(yr);
    MonthsByTable(IsLeap(yr));
    LeapTermOfEpoch();
    LeapRule(yr);
  }

  lemma LeapRule(yr: int)
    ensures IsLeap(yr) <==> (yr % 4 == 0 && yr % 100 != 0) || yr % 400 == 0
    ensures LeapTerm(yr - 1) == (yr - 1) / 4 - (yr - 1) / 100 + (yr - 1) / 400
  {
  }

  lemma WholePart(days: int, r: int)
    requires 0 <= r < SEC_PER_DY
    ensures (days * SEC_PER_DY + r) / SEC_PER_DY == days
  {
  }

  /** The weekday formula without machine arithmetic gives the days since 1970, which began on a Thursday. */
  lemma FormulaCountsDays(tm: Tm)
    requires IsDate(tm)
    ensures var y := FormulaYear(tm.mon, tm.year + YEAR0);
            (y + LeapTerm(y) + MONTH_TERM[tm.mon] + tm.mday) % 7 == (DayNumber(tm) + 4) % 7
  {
    hide YearsBefore, MonthsBefore, MonthSeconds, Seconds, DaysInMonth, DayNumber, IsLeap, LeapTerm, MonthWeeks;
    var yr := tm.year + YEAR0;
    DayNumberOfDate(tm);
    YearsBeforeClosed(yr);
    MonthTerm(IsLeap(yr), tm.mon);
    LeapTermStep(yr);
    LeapTermOfEpoch();
    var y := FormulaYear(tm.mon, yr);
    var formula := y + LeapTerm(y) + MONTH_TERM[tm.mon] + tm.mday;
    assert DayNumber(tm) + 4 == formula + 7 * (52 * yr + MonthWeeks(tm.mon) - 102789);
    WeeksDoNotMatter(formula, 52 * yr + MonthWeeks(tm.mon) - 102789);
  }

  lemma LeapTermOfEpoch()
    ensures LeapTerm(EPOCH_YR - 1) == 477
  {
  }

  lemma WeeksDoNotMatter(n: int, k: int)
    ensures (n + 7 * k) % 7 == n % 7
  {
  }

  /** The year as the formula sees it in a byte-pair. */
  function ShortYear(y: int): nat {
    y % 0x1_0000
  }

  lemma DayOfWeekIsFormula(mon: nat, mday: nat, yr: int)
    requires mon < 12 && mday < 0x100
    ensures var y := ShortYear(FormulaYear(mon, yr));
            DayOfWeek(mon + 1, mday, yr) == (y + LeapTerm(y) + MONTH_TERM[mon] + mday) % 7
  {
    YearBeforeShort(yr);
    assert mday % 0x100 == mday;
    assert (yr % 0x1_0000 - (if mon + 1 < 3 then 1 else 0)) % 0x1_0000 == ShortYear(FormulaYear(mon, yr));
  }

  lemma YearBeforeShort(yr: int)
    ensures (yr % 0x1_0000 - 1) % 0x1_0000 == (yr - 1) % 0x1_0000 && yr % 0x1_0000 % 0x1_0000 == yr % 0x1_0000
  {
  }

  lemma SumsModSeven(a: int, b: int, c: int)
    ensures (a + c) % 7 == (b + c) % 7 <==> a % 7 == b % 7
  {
  }

  /** tm_yday counts the days of the months before and of the month so far. */
  lemma YdayCountsDays(t: nat)
    ensures var tm := Gmtime(t);
            0 <= tm.mon < 12 &&
            tm.yday * SEC_PER_DY == MonthsBefore(IsLeap(tm.year + YEAR0), tm.mon) + (tm.mday - 1) * SEC_PER_DY
  {
    hide MonthsBefore, MonthSeconds, YearSeconds, YearOf, MonthOf, IsLeap, DayOfWeek;
    var (yr, intoYear) := YearOf(t, EPOCH_YR);
    YearSecondsAreMonths(yr);
    MonthsFillYear(IsLeap(yr));
    var (mon, intoMonth) := MonthOf(IsLeap(yr), intoYear, 0);
    MonthsByTable(IsLeap(yr));
    var days := MonthsBefore(IsLeap(yr), mon) / SEC_PER_DY;
    assert MonthsBefore(IsLeap(yr), mon) == SEC_PER_DY * days;
    WholePart(days + intoMonth / SEC_PER_DY, intoMonth % SEC_PER_DY);
  }

  lemma GmtimeFields(t: nat)
    ensures var tm := Gmtime(t);
            && IsDate(tm) && DayNumber(tm) == t / SEC_PER_DY && tm.mday < 0x100
            && tm.wday == DayOfWeek(tm.mon + 1, tm.mday, tm.year + YEAR0)
  {
    hide YearOf, MonthOf, DayOfWeek, Seconds;
    MktimeOfGmtime(t);
  }

  /** For every instant: tm_wday is right exactly when the formula does not notice that the year is cut. */
  lemma WeekdayExact(t: nat)
    ensures var tm := Gmtime(t);
            0 <= tm.mon < 12 &&
            var y := FormulaYear(tm.mon, tm.year + YEAR0);
            tm.wday == (t / SEC_PER_DY + 4) % 7 <==>
              (ShortYear(y) + LeapTerm(ShortYear(y))) % 7 == (y + LeapTerm(y)) % 7
  {
    hide Gmtime, Seconds, DayOfWeek, LeapTerm, ShortYear, DayNumber;
    GmtimeFields(t);
    var tm := Gmtime(t);
    var y := FormulaYear(tm.mon, tm.year + YEAR0);
    FormulaCountsDays(tm);
    DayOfWeekIsFormula(tm.mon, tm.mday, tm.year + YEAR0);
    SumsModSeven(ShortYear(y) + LeapTerm(ShortYear(y)), y + LeapTerm(y), MONTH_TERM[tm.mon] + tm.mday);
  }

  /** 1 March of a year, from which on that year is the formula's, in seconds since 1970. */
  function March(y: int): int {
    SEC_PER_DY * (365 * (y - EPOCH_YR) + LeapTerm(y) - LeapTerm(EPOCH_YR - 1) + 59)
  }

  lemma MarchOfYear(y: int)
    requires y >= EPOCH_YR
    ensures YearsBefore(y) + MonthsBefore(IsLeap(y), 2) == March(y)
  {
    hide YearsBefore, LeapTerm, IsLeap;
    YearsBeforeClosed(y);
    LeapTermStep(y);
    MonthsByTable(IsLeap(y));
  }

  /** The formula's year of an instant is before y exactly when the instant is before 1 March of y. */
  lemma FormulaYearByTime(t: nat, y: int)
    requires y >= EPOCH_YR
    ensures var tm := Gmtime(t);
            0 <= tm.mon < 12 && (FormulaYear(tm.mon, tm.year + YEAR0) < y <==> t < March(y))
  {
    hide Gmtime, Seconds, YearsBefore, MonthsBefore, MonthSeconds, YearSeconds, IsLeap, March;
    MktimeOfGmtime(t);
    var tm := Gmtime(t);
    var yr := tm.year + YEAR0;
    DateInYear(tm);
    MarchOfYear(y);
    YearSecondsAreMonths(y);
    LaterMonth(IsLeap(y), 2, 12);
    if yr < y {
      LaterYear(yr, y);
      LaterMonth(IsLeap(y), 0, 2);
    } else if y < yr {
      LaterYear(y, yr);
    } else if tm.mon < 2 {
      LaterMonth(IsLeap(y), tm.mon, 2);
    } else if tm.mon > 2 {
      LaterMonth(IsLeap(y), 2, tm.mon);
    }
  }

  /** The formula of a year between 65536 and 131071 is never that of the year 65536 before. */
  lemma CutYearDiffers(y: int)
    requires 0x1_0000 <= y < 0x2_0000
    ensures ShortYear(y) == y - 0x1_0000
    ensures (ShortYear(y) + LeapTerm(ShortYear(y))) % 7 != (y + LeapTerm(y)) % 7
  {
    hide LeapTerm;
    var s := y - 0x1_0000;
    LeapTermsApart(s);
    NotAWeekApart(s + LeapTerm(s), y + LeapTerm(y) - (s + LeapTerm(s)));
  }

  lemma LeapTermsApart(s: nat)
    ensures 15891 <= LeapTerm(s + 0x1_0000) - LeapTerm(s) <= 15893
  {
    Quotients(s, 4);
    Quotients(s, 100);
    Quotients(s, 400);
  }

  lemma Quotients(s: nat, n: nat)
    requires n in {4, 100, 400}
    ensures 0x1_0000 / n <= (s + 0x1_0000) / n - s / n <= (0x1_0000 + n - 1) / n
  {
  }

  lemma NotAWeekApart(n: int, d: int)
    requires d in {81427, 81428, 81429}
    ensures n % 7 != (n + d) % 7
  {
  }

  /**
   The instant at which the weekday goes wrong: up to 1 March 131072, where the year would be cut a second time,
   tm_wday is right if and only if the instant is before 1 March 65536. No 32-bit time_t gets that far.
   */
  lemma WeekdayRightBefore(t: nat)
    requires t < March(0x2_0000)
    ensures Gmtime(t).wday == (t / SEC_PER_DY + 4) % 7 <==> t < March(0x1_0000)
  {
    hide Gmtime, ShortYear, March, LeapTerm, Seconds, DayOfWeek;
    FormulaYearByTime(t, 0x1_0000);
    FormulaYearByTime(t, 0x2_0000);
    WeekdayExact(t);
    GmtimeFields(t);
    var tm := Gmtime(t);
    var y := FormulaYear(tm.mon, tm.year + YEAR0);
    if y >= 0x1_0000 {
      CutYearDiffers(y);
    } else {
      UncutYear(y);
    }
  }

  lemma FirstWrongInstant()
    ensures March(0x1_0000) == 2005954329600
  {
  }

  lemma UncutYear(y: int)
    requires 0 <= y < 0x1_0000
    ensures ShortYear(y) == y
  {
  }

  /** Up to the year 65535 the closed form agrees with counting days. */
  lemma WeekdayCountsDays(t: nat)
    requires Gmtime(t).year + YEAR0 <= 0xFFFF
    ensures Gmtime(t).wday == (t / SEC_PER_DY + 4) % 7
  {
    hide Gmtime, LeapTerm, ShortYear, Seconds, DayOfWeek;
    WeekdayExact(t);
    GmtimeFields(t);
    UncutYear(FormulaYear(Gmtime(t).mon, Gmtime(t).year + YEAR0));
  }

  /** On 1 March 65537 it does not. */
  lemma WeekdayCanFail() returns (t: nat)
    ensures Gmtime(t).wday != (t / SEC_PER_DY + 4) % 7
  {
    hide Gmtime, Seconds;
    var tm := Tm(0, 0, 0, 1, 2, 65537 - YEAR0, 0, 0, 0);
    GmtimeOfMktime(tm);
    t := Seconds(tm);
    WeekdayExact(t);
  }
}
