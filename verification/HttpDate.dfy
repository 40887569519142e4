/**
 The HTTP date parser of ej_user_time.c, with the three forms of section 7.1.1.1 of RFC 7231 as
 functions that write them.
 */
module HttpDate {
  import Bytes
  import opened Calendar

  // Reading digits

  predicate IsDigit(c: char) {
    '0' <= c <= '9'
  }

  predicate Digits(s: string, i: nat, n: nat)
    requires i + n <= |s|
  {
    forall k | i <= k < i + n :: IsDigit(s[k])
  }

  function Digit(c: char): int {
    c as int - 0x30
  }

  function Two(s: string, i: nat): int
    requires i + 2 <= |s|
  {
    Digit(s[i]) * 10 + Digit(s[i + 1])
  }

  function Four(s: string, i: nat): int
    requires i + 4 <= |s|
  {
    Digit(s[i]) * 1000 + Digit(s[i + 1]) * 100 + Digit(s[i + 2]) * 10 + Digit(s[i + 3])
  }

  /** hh:mm:ss at position i */
  predicate IsClock(s: string, i: nat)
    requires i + 8 <= |s|
  {
    Digits(s, i, 2) && s[i + 2] == ':' && Digits(s, i + 3, 2) && s[i + 5] == ':' && Digits(s, i + 6, 2)
  }

  const MONTHS: seq<string> := ["Jan", "Feb", "Mar", "Apr", "May", "Jun", "Jul", "Aug", "Sep", "Oct", "Nov", "Dec"]

  /** month_from_string_short: 12 for no month */
  function MonthFromString(s: string): (r: nat)
    requires |s| == 3
    ensures r <= 12
  {
    if s == "Jan" then 0 else if s == "Feb" then 1 else if s == "Mar" then 2 else if s == "Apr" then 3
    else if s == "May" then 4 else if s == "Jun" then 5 else if s == "Jul" then 6 else if s == "Aug" then 7
    else if s == "Sep" then 8 else if s == "Oct" then 9 else if s == "Nov" then 10 else if s == "Dec" then 11
    else 12
  }

  // The parser, form by form. Every failed check yields 0.

  predicate IsRfc1123(s: string) {
    && |s| == 29 && s[4] == ' ' && Digits(s, 5, 2)
    && MonthFromString(s[8..11]) < 12 && Digits(s, 12, 4) && s[16] == ' ' && IsClock(s, 17) && s[25] == ' '
    && s[26..29] == "GMT"
  }

  predicate IsAsctime(s: string) {
    && |s| == 24 && MonthFromString(s[4..7]) < 12 && s[7] == ' '
    && (s[8] == ' ' || IsDigit(s[8])) && IsDigit(s[9]) && s[10] == ' ' && IsClock(s, 11) && s[19] == ' '
    && Digits(s, 20, 4)
  }

  /** What follows the first space in the two-digit-year form. */
  predicate IsRfc850Rest(s: string) {
    && |s| == 22 && Digits(s, 0, 2) && s[2] == '-' && MonthFromString(s[3..6]) < 12
    && s[6] == '-' && Digits(s, 7, 2) && s[9] == ' ' && IsClock(s, 10) && s[18] == ' ' && s[19..22] == "GMT"
  }

  function Broken(s: string, clock: nat, mday: int, mon: int, year: int): Tm
    requires clock + 8 <= |s|
  {
    Tm(Two(s, clock + 6), Two(s, clock + 3), Two(s, clock), mday, mon, year, 0, 0, 0)
  }

  /** Two-digit years below 20 belong to the next century. */
  function CenturyYear(yy: int): int {
    if yy < 20 then yy + 100 else yy
  }

  function Rfc1123Value(s: string): int {
    if IsRfc1123(s) then Seconds(Broken(s, 17, Two(s, 5), MonthFromString(s[8..11]), Four(s, 12) - YEAR0)) else 0
  }

  function AsctimeValue(s: string): int {
    if IsAsctime(s) then
      Seconds(Broken(s, 11, (if s[8] != ' ' then Digit(s[8]) * 10 else 0) + Digit(s[9]), MonthFromString(s[4..7]),
                     Four(s, 20) - YEAR0))
    else 0
  }

  function Rfc850Value(s: string): int {
    if IsRfc850Rest(s) then Seconds(Broken(s, 10, Two(s, 0), MonthFromString(s[3..6]), CenturyYear(Two(s, 7)))) else 0
  }

  /** The position of the first space, or the length. */
  function FirstSpace(s: string): (r: nat)
    ensures r <= |s| && ' ' !in s[..r] && (r < |s| ==> s[r] == ' ')
  {
    if s == [] || s[0] == ' ' then 0 else 1 + FirstSpace(s[1..])
  }

  lemma FirstSpaceIs(s: string, i: nat)
    requires i <= |s| && ' ' !in s[..i] && (i < |s| ==> s[i] == ' ')
    ensures FirstSpace(s) == i
  {
  }

  /** The character at i of a C string, its terminator included. */
  function At(s: string, i: nat): char
    requires i <= |s|
  {
    if i < |s| then s[i] else '\0'
  }

  /** What EJ_http_date_to_time makes of a string; the fourth character selects the form. */
  function HttpDateValue(s: string): int
    requires |s| >= 3
  {
    if At(s, 3) == ',' then Rfc1123Value(s)
    else if At(s, 3) == ' ' then AsctimeValue(s)
    else if |s| < 11 || FirstSpace(s) == |s| then 0
    else Rfc850Value(s[FirstSpace(s) + 1..])
  }

  /** EJ_http_date_to_time on a string of at least three characters without its terminator. */
  method HttpDateToTime(date: string) returns (ret: int)
    requires |date| >= 3
    ensures ret == HttpDateValue(date)
  {
    hide MonthFromString, Seconds, IsClock, Digits;
    ret := 0;
    if At(date, 3) == ',' {
      if |date| != 29 || date[4] != ' ' || !Digits(date, 5, 2) { return; }
      var mon := MonthFromString(date[8..11]);
      if mon >= 12 || !Digits(date, 12, 4) || date[16] != ' ' || !IsClock(date, 17) { return; }
      if date[25] != ' ' || date[26..29] != "GMT" { return; }
      ret := Mktime(Broken(date, 17, Two(date, 5), mon, Four(date, 12) - YEAR0));
    } else if At(date, 3) == ' ' {
      if |date| != 24 { return; }
      var mon := MonthFromString(date[4..7]);
      if mon >= 12 || date[7] != ' ' { return; }
      if (date[8] != ' ' && !IsDigit(date[8])) || !IsDigit(date[9]) || date[10] != ' ' { return; }
      if !IsClock(date, 11) || date[19] != ' ' || !Digits(date, 20, 4) { return; }
      var mday := 0;
      if date[8] != ' ' {
        mday := mday + Digit(date[8]) * 10;
      }
      mday := mday + Digit(date[9]);
      ret := Mktime(Broken(date, 11, mday, mon, Four(date, 20) - YEAR0));
    } else {
      if |date| < 11 { return; }
      var i := 0;
      while i < |date| && date[i] != ' '
        invariant i <= |date| && ' ' !in date[..i]
      {
        i := i + 1;
      }
      FirstSpaceIs(date, i);
      if i == |date| { return; }
      var start := date[i + 1..];
      if |start| != 22 || !Digits(start, 0, 2) || start[2] != '-' { return; }
      var mon := MonthFromString(start[3..6]);
      if mon >= 12 || start[6] != '-' || !Digits(start, 7, 2) || start[9] != ' ' { return; }
      if !IsClock(start, 10) || start[18] != ' ' || start[19..22] != "GMT" { return; }
      var year := Two(start, 7);
      if year < 20 {
        year := year + 100;
      }
      ret := Mktime(Broken(start, 10, Two(start, 0), mon, year));
    }
  }

  // The three forms

  function Char(d: int): char
    requires 0 <= d < 10
  {
    (0x30 + d) as char
  }

  function TwoDigits(n: int): (r: string)
    requires 0 <= n < 100
    ensures |r| == 2
  {
    [Char(n / 10), Char(n % 10)]
  }

  function FourDigits(n: int): (r: string)
    requires 0 <= n < 10000
    ensures |r| == 4
  {
    TwoDigits(n / 100) + TwoDigits(n % 100)
  }

  function Clock(tm: Tm): (r: string)
    requires IsTime(tm)
    ensures |r| == 8
  {
    TwoDigits(tm.hour) + ":" + TwoDigits(tm.min) + ":" + TwoDigits(tm.sec)
  }

  predicate Writable(tm: Tm) {
    IsDate(tm) && tm.year + YEAR0 <= 9999
  }

  /** IMF-fixdate, as in Sun, 06 Nov 1994 08:49:37 GMT, with any three-letter day name. */
  function ImfFixdate(dayName: string, tm: Tm): string
    requires Writable(tm)
  {
    dayName + ", " + TwoDigits(tm.mday) + " " + MONTHS[tm.mon] + " " + FourDigits(tm.year + YEAR0) + " " +
    Clock(tm) + " GMT"
  }

  /** asctime-date, as in Sun Nov  6 08:49:37 1994 */
  function AsctimeDate(dayName: string, tm: Tm): string
    requires Writable(tm)
  {
    dayName + " " + MONTHS[tm.mon] + " " + (if tm.mday < 10 then [' ', Char(tm.mday)] else TwoDigits(tm.mday)) + " " +
    Clock(tm) + " " + FourDigits(tm.year + YEAR0)
  }

  /** rfc850-date, as in Sunday, 06-Nov-94 08:49:37 GMT */
  function Rfc850Date(dayName: string, tm: Tm): string
    requires Writable(tm)
  {
    dayName + ", " + Rfc850Rest(tm)
  }

  function Rfc850Rest(tm: Tm): string
    requires Writable(tm)
  {
    TwoDigits(tm.mday) + "-" + MONTHS[tm.mon] + "-" + TwoDigits((tm.year + YEAR0) % 100) + " " + Clock(tm) + " GMT"
  }

  // Reading back what was written, wherever it stands

  lemma TwoReads(s: string, i: nat, n: int)
    requires 0 <= n < 100 && i + 2 <= |s| && s[i..i + 2] == TwoDigits(n)
    ensures Digits(s, i, 2) && Two(s, i) == n
  {
  }

  lemma FourReads(s: string, i: nat, n: int)
    requires 0 <= n < 10000 && i + 4 <= |s| && s[i..i + 4] == FourDigits(n)
    ensures Digits(s, i, 4) && Four(s, i) == n
  {
  }

  lemma ClockParts(tm: Tm)
    requires IsTime(tm)
    ensures var c := Clock(tm);
            && c[0..2] == TwoDigits(tm.hour) && c[3..5] == TwoDigits(tm.min) && c[6..8] == TwoDigits(tm.sec)
            && c[2] == ':' && c[5] == ':'
  {
    hide TwoDigits;
  }

  lemma ClockReads(s: string, i: nat, tm: Tm)
    requires IsTime(tm) && i + 8 <= |s| && s[i..i + 8] == Clock(tm)
    ensures IsClock(s, i) && Two(s, i) == tm.hour && Two(s, i + 3) == tm.min && Two(s, i + 6) == tm.sec
  {
    hide TwoDigits, Digits, Two, Clock;
    var c := s[i..i + 8];
    ClockParts(tm);
    Bytes.PartOfPart(s, i, 8, 0, 2);
    Bytes.PartOfPart(s, i, 8, 3, 5);
    Bytes.PartOfPart(s, i, 8, 6, 8);
    assert s[i + 2] == c[2] && s[i + 5] == c[5];
    TwoReads(s, i, tm.hour);
    TwoReads(s, i + 3, tm.min);
    TwoReads(s, i + 6, tm.sec);
  }

  lemma MonthReads(mon: nat)
    requires mon < 12
    ensures |MONTHS[mon]| == 3 && MonthFromString(MONTHS[mon]) == mon
  {
  }

  lemma DayFits(tm: Tm)
    requires IsDate(tm)
    ensures tm.mday <= 31
  {
  }

  /** Only the date and time fields count. */
  lemma SecondsOfSame(a: Tm, b: Tm)
    requires a.mon <= 12 && SameDateTime(a, b)
    ensures Seconds(a) == Seconds(b)
  {
  }

  /** IMF-fixdate of an instant parses to that instant, for the years 1970 to 9999. */
  lemma ImfFixdateParses(dayName: string, tm: Tm)
    requires Writable(tm) && |dayName| == 3
    ensures |ImfFixdate(dayName, tm)| == 29 && HttpDateValue(ImfFixdate(dayName, tm)) == Seconds(tm)
  {
    hide MonthFromString, Clock, TwoDigits, FourDigits, Seconds, IsClock, Digits, Two, Four, DaysInMonth;
    var s := ImfFixdate(dayName, tm);
    MonthReads(tm.mon);
    DayFits(tm);
    assert s[3] == ',' && s[4] == ' ' && s[16] == ' ' && s[25] == ' ' && s[26..29] == "GMT";
    assert s[5..7] == TwoDigits(tm.mday) && s[8..11] == MONTHS[tm.mon];
    assert s[12..16] == FourDigits(tm.year + YEAR0) && s[17..25] == Clock(tm);
    TwoReads(s, 5, tm.mday);
    FourReads(s, 12, tm.year + YEAR0);
    ClockReads(s, 17, tm);
    SecondsOfSame(Broken(s, 17, Two(s, 5), tm.mon, Four(s, 12) - YEAR0), tm);
  }

  lemma AsctimeDayReads(s: string, mday: int)
    requires |s| >= 10 && 1 <= mday <= 31
    requires s[8..10] == if mday < 10 then [' ', Char(mday)] else TwoDigits(mday)
    ensures (s[8] == ' ' || IsDigit(s[8])) && IsDigit(s[9])
    ensures (if s[8] != ' ' then Digit(s[8]) * 10 else 0) + Digit(s[9]) == mday
  {
  }

  /** So does the asctime form. */
  lemma AsctimeParses(dayName: string, tm: Tm)
    requires Writable(tm) && |dayName| == 3
    ensures |AsctimeDate(dayName, tm)| == 24 && HttpDateValue(AsctimeDate(dayName, tm)) == Seconds(tm)
  {
    hide MonthFromString, Clock, TwoDigits, FourDigits, Seconds, IsClock, Digits, Two, Four, DaysInMonth, Digit,
         IsDigit, Char;
    var s := AsctimeDate(dayName, tm);
    MonthReads(tm.mon);
    DayFits(tm);
    assert s[3] == ' ' && s[7] == ' ' && s[10] == ' ' && s[19] == ' ';
    assert s[8..10] == (if tm.mday < 10 then [' ', Char(tm.mday)] else TwoDigits(tm.mday)) && s[4..7] == MONTHS[tm.mon];
    assert s[20..24] == FourDigits(tm.year + YEAR0) && s[11..19] == Clock(tm);
    AsctimeDayReads(s, tm.mday);
    FourReads(s, 20, tm.year + YEAR0);
    ClockReads(s, 11, tm);
    SecondsOfSame(Broken(s, 11, (if s[8] != ' ' then Digit(s[8]) * 10 else 0) + Digit(s[9]), tm.mon,
                         Four(s, 20) - YEAR0), tm);
  }

  /** The long day names of the third form: no space, and neither space nor comma in fourth place. */
  predicate LongDayName(dayName: string) {
    |dayName| > 3 && ' ' !in dayName && dayName[3] != ','
  }

  /** The year that two digits stand for here, counted from 1900. */
  function ReadYear(tm: Tm): int {
    CenturyYear((tm.year + YEAR0) % 100)
  }

  lemma Rfc850RestValue(tm: Tm)
    requires Writable(tm)
    ensures Rfc850Value(Rfc850Rest(tm)) == Seconds(tm.(year := ReadYear(tm)))
  {
    hide MonthFromString, Clock, TwoDigits, Seconds, IsClock, Digits, Two, DaysInMonth, CenturyYear;
    var s := Rfc850Rest(tm);
    MonthReads(tm.mon);
    DayFits(tm);
    assert s[2] == '-' && s[6] == '-' && s[9] == ' ' && s[18] == ' ' && s[19..22] == "GMT";
    assert s[0..2] == TwoDigits(tm.mday) && s[3..6] == MONTHS[tm.mon];
    assert s[7..9] == TwoDigits((tm.year + YEAR0) % 100) && s[10..18] == Clock(tm);
    TwoReads(s, 0, tm.mday);
    TwoReads(s, 7, (tm.year + YEAR0) % 100);
    ClockReads(s, 10, tm);
    SecondsOfSame(Broken(s, 10, Two(s, 0), tm.mon, CenturyYear(Two(s, 7))), tm.(year := ReadYear(tm)));
  }

  lemma Rfc850Reads(dayName: string, tm: Tm)
    requires Writable(tm) && LongDayName(dayName)
    ensures |Rfc850Date(dayName, tm)| >= 11
    ensures HttpDateValue(Rfc850Date(dayName, tm)) == Seconds(tm.(year := ReadYear(tm)))
  {
    hide Rfc850Rest, Rfc850Value, Seconds, ReadYear;
    RestLength(tm);
    var s := Rfc850Date(dayName, tm);
    var i := |dayName| + 1;
    assert s[..i] == dayName + "," && s[i] == ' ' && s[3] == dayName[3] && dayName[3] in dayName;
    FirstSpaceIs(s, i);
    assert s[i + 1..] == Rfc850Rest(tm);
    Rfc850RestValue(tm);
  }

  lemma RestLength(tm: Tm)
    requires Writable(tm)
    ensures |Rfc850Rest(tm)| == 22
  {
  }

  /** The seconds of a date put into another year stay within 366 days of that year's start. */
  lemma MovedDateBound(tm: Tm, year: int)
    requires IsDate(tm)
    ensures Seconds(tm.(year := year)) < YearsBefore(year + YEAR0) + 31622400
  {
    hide YearsBefore, MonthsBefore, MonthSeconds, Seconds;
    var leap := IsLeap(year + YEAR0);
    var moved := tm.(year := year);
    MonthsByTable(true);
    MonthsByTable(leap);
    MonthsFillYear(true);
    DaysByTable(tm);
    SecondsUnwrapped(moved);
  }

  lemma DaysByTable(tm: Tm)
    requires IsDate(tm)
    ensures 1 <= tm.mday <= [31, 29, 31, 30, 31, 30, 31, 31, 30, 31, 30, 31][tm.mon]
  {
  }

  lemma SecondsUnwrapped(tm: Tm)
    requires IsTime(tm) && 0 <= tm.mon < 12 && 1 <= tm.mday <= 31
    ensures Seconds(tm) == YearsBefore(tm.year + YEAR0) + MonthsBefore(IsLeap(tm.year + YEAR0), tm.mon) +
                           (tm.mday - 1) * SEC_PER_DY + tm.hour * SEC_PER_HR + tm.min * 60 + tm.sec
  {
    hide YearsBefore, MonthsBefore;
  }

  lemma MuchLater(y: int, z: int)
    requires z >= y + 100 && z >= 2020
    ensures YearsBefore(z) >= YearsBefore(y) + 31622400
  {
    hide YearsBefore;
    NothingBeforeEpoch(y);
    var from := if y < EPOCH_YR then EPOCH_YR else y;
    NothingBefore();
    LaterYear(from, from + 1);
    LaterYear(from + 1, z);
  }

  lemma NothingBeforeEpoch(y: int)
    ensures y <= EPOCH_YR ==> YearsBefore(y) == 0
  {
  }

  /** The two-digit-year form parses to the instant exactly up to the year 2019. */
  lemma Rfc850Exact(dayName: string, tm: Tm)
    requires Writable(tm) && LongDayName(dayName)
    ensures |Rfc850Date(dayName, tm)| >= 11
    ensures HttpDateValue(Rfc850Date(dayName, tm)) == Seconds(tm) <==> tm.year + YEAR0 <= 2019
  {
    hide HttpDateValue, Rfc850Date, Seconds, YearsBefore;
    Rfc850Reads(dayName, tm);
    if tm.year + YEAR0 <= 2019 {
      assert ReadYear(tm) == tm.year;
    } else {
      MovedDateBound(tm, ReadYear(tm));
      MuchLater(ReadYear(tm) + YEAR0, tm.year + YEAR0);
      DateInYear(tm);
    }
  }

  /** The first instant of 2020 in that form is read as one of 1920. */
  lemma Rfc850Fails()
    ensures var tm := Tm(0, 0, 0, 1, 0, 2020 - YEAR0, 0, 0, 0);
            && Writable(tm) && |Rfc850Date("Wednesday", tm)| >= 11
            && HttpDateValue(Rfc850Date("Wednesday", tm)) != Seconds(tm)
  {
    hide HttpDateValue, Rfc850Date, Seconds;
    Rfc850Exact("Wednesday", Tm(0, 0, 0, 1, 0, 2020 - YEAR0, 0, 0, 0));
  }

  lemma ExampleFields(tm: Tm)
    requires tm == Tm(37, 49, 8, 6, 10, 94, 0, 0, 0)
    ensures Writable(tm) && Seconds(tm) == 784111777
    ensures Clock(tm) == "08:49:37" && TwoDigits(tm.mday) == "06" && FourDigits(tm.year + YEAR0) == "1994"
    ensures TwoDigits((tm.year + YEAR0) % 100) == "94" && MONTHS[tm.mon] == "Nov" && [' ', Char(tm.mday)] == " 6"
  {
    hide Seconds;
    SecondsClosed(tm);
  }

  /** The example of section 7.1.1.1 of RFC 7231, in its three forms. */
  lemma ExampleDate(tm: Tm)
    requires tm == Tm(37, 49, 8, 6, 10, 94, 0, 0, 0)
    ensures HttpDateValue("Sun, 06 Nov 1994 08:49:37 GMT") == 784111777
    ensures HttpDateValue("Sun Nov  6 08:49:37 1994") == 784111777
    ensures HttpDateValue("Sunday, 06-Nov-94 08:49:37 GMT") == 784111777
  {
    hide Seconds, HttpDateValue, ImfFixdate, AsctimeDate, Rfc850Date;
    ExampleFields(tm);
    ImfFixdateParses("Sun", tm);
    AsctimeParses("Sun", tm);
    Rfc850Exact("Sunday", tm);
    ExampleTexts(tm);
  }

  lemma ExampleTexts(tm: Tm)
    requires tm == Tm(37, 49, 8, 6, 10, 94, 0, 0, 0)
    ensures Writable(tm) && ImfFixdate("Sun", tm) == "Sun, 06 Nov 1994 08:49:37 GMT"
    ensures AsctimeDate("Sun", tm) == "Sun Nov  6 08:49:37 1994"
    ensures Rfc850Date("Sunday", tm) == "Sunday, 06-Nov-94 08:49:37 GMT"
  {
    hide Clock, TwoDigits, FourDigits, Char;
    ExampleFields(tm);
  }

  // What is refused

  /** d stands for a digit, e for a digit or a space, ? for anything. */
  predicate Fits(c: char, p: char) {
    if p == '?' then true
    else if p == 'd' then '0' <= c <= '9'
    else if p == 'e' then c == ' ' || '0' <= c <= '9'
    else c == p
  }

  predicate FitsAll(s: string, pattern: string) {
    |s| == |pattern| && forall i | 0 <= i < |s| :: Fits(s[i], pattern[i])
  }

  lemma MonthIsKnown(m: string)
    requires |m| == 3
    ensures MonthFromString(m) < 12 <==> m in MONTHS
  {
  }

  lemma Rfc1123Pattern(s: string)
    ensures IsRfc1123(s) <==> FitsAll(s, "???? dd?????dddd dd:dd:dd GMT") && s[8..11] in MONTHS
  {
    hide MonthFromString;
    if |s| == 29 {
      MonthIsKnown(s[8..11]);
      var p := "???? dd?????dddd dd:dd:dd GMT";
      assert p[4] == p[16] == p[25] == ' ' && p[26] == 'G' && p[27] == 'M' && p[28] == 'T';
      assert s[26..29] == [s[26], s[27], s[28]];
    }
  }

  lemma AsctimePattern(s: string)
    ensures IsAsctime(s) <==> FitsAll(s, "??????? ed dd:dd:dd dddd") && s[4..7] in MONTHS
  {
    hide MonthFromString;
    if |s| == 24 {
      MonthIsKnown(s[4..7]);
    }
  }

  lemma Rfc850Pattern(s: string)
    ensures IsRfc850Rest(s) <==> FitsAll(s, "dd-???-dd dd:dd:dd GMT") && s[3..6] in MONTHS
  {
    hide MonthFromString;
    if |s| == 22 {
      MonthIsKnown(s[3..6]);
      assert s[19..22] == [s[19], s[20], s[21]];
    }
  }

  /** A text with another value than 0 has one of the three patterns, and the name of a month in its place. */
  lemma OtherTextsAreRefused(s: string)
    requires |s| >= 3 && HttpDateValue(s) != 0
    ensures || (|s| == 29 && s[3] == ',' && FitsAll(s, "???? dd?????dddd dd:dd:dd GMT") && s[8..11] in MONTHS)
            || (|s| == 24 && s[3] == ' ' && FitsAll(s, "??????? ed dd:dd:dd dddd") && s[4..7] in MONTHS)
            || (|s| >= 22 && FitsAll(s[|s| - 22..], "dd-???-dd dd:dd:dd GMT") && s[|s| - 19..|s| - 16] in MONTHS)
  {
    hide IsRfc1123, IsAsctime, IsRfc850Rest, FitsAll, Seconds;
    Rfc1123Pattern(s);
    AsctimePattern(s);
    var i := FirstSpace(s);
    if i < |s| {
      var rest := s[i + 1..];
      Rfc850Pattern(rest);
      if IsRfc850Rest(rest) {
        FormLengths(rest);
        assert rest == s[|s| - 22..] && rest[3..6] == s[|s| - 19..|s| - 16];
      }
    }
    FormLengths(s);
  }

  lemma FormLengths(s: string)
    ensures IsRfc1123(s) ==> |s| == 29
    ensures IsAsctime(s) ==> |s| == 24
    ensures IsRfc850Rest(s) ==> |s| == 22
  {
  }
}
