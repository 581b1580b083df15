/**
 * The date and time text helpers: `Y-MM-DD` day keys, `HH:MM:00` and
 * `HH:MM:SS` clock texts, and the split-and-parse that turns a clock text
 * and a day key back into the arguments of `new Date(...)`. A JavaScript
 * `Date` is represented by the integer fields the helpers read.
 */
module DateUtil {
  import opened Strings

  /** The local calendar fields of a `Date`: `getFullYear()`, `getMonth()` (0 for January) and `getDate()`. */
  datatype CalendarDay = CalendarDay(year: nat, monthIndex: nat, day: nat)

  /** The local clock fields of a `Date`: `getHours()`, `getMinutes()` and `getSeconds()`. */
  datatype ClockReading = ClockReading(hours: nat, minutes: nat, seconds: nat)

  /** The six numbers handed to `new Date(year, monthIndex, day, hours, minutes, seconds)`. */
  datatype DateArgs = DateArgs(year: int, monthIndex: int, day: int, hours: int, minutes: int, seconds: int)

  predicate ValidDay(d: CalendarDay) {
    d.monthIndex < 12 && 1 <= d.day <= 31
  }

  predicate ValidClock(c: ClockReading) {
    c.hours < 24 && c.minutes < 60 && c.seconds < 60
  }

  /** `getLocalDateStr(date)`: the year, then the month (counted from 1) and the day, each padded to two digits, joined by `-`. */
  function GetLocalDateStr(d: CalendarDay): (r: string)
    ensures |r| >= 7
    ensures Split(r, '-') == [Decimal(d.year), Pad2(d.monthIndex + 1), Pad2(d.day)]
  {
    var y, mo, dd := Decimal(d.year), Pad2(d.monthIndex + 1), Pad2(d.day);
    DigitsHaveNoSeparator(y, '-');
    DigitsHaveNoSeparator(mo, '-');
    DigitsHaveNoSeparator(dd, '-');
    SplitThree(y, mo, dd, '-');
    y + ['-'] + mo + ['-'] + dd
  }

  /** `dateToTimeString(date)`: hours and minutes padded to two digits, and the seconds always `00`. */
  function DateToTimeString(c: ClockReading): (r: string)
    ensures |r| >= 8
    ensures Split(r, ':') == [Pad2(c.hours), Pad2(c.minutes), "00"]
  {
    var hh, mm := Pad2(c.hours), Pad2(c.minutes);
    DoubleZero();
    DigitsHaveNoSeparator(hh, ':');
    DigitsHaveNoSeparator(mm, ':');
    DigitsHaveNoSeparator("00", ':');
    SplitThree(hh, mm, "00", ':');
    hh + [':'] + mm + [':'] + "00"
  }

  /** `getCurrentTime()` for the clock reading `now`: hours, minutes and seconds, each padded to two digits. */
  function GetCurrentTime(now: ClockReading): (r: string)
    ensures |r| >= 8
    ensures Split(r, ':') == [Pad2(now.hours), Pad2(now.minutes), Pad2(now.seconds)]
  {
    var hh, mm, ss := Pad2(now.hours), Pad2(now.minutes), Pad2(now.seconds);
    DigitsHaveNoSeparator(hh, ':');
    DigitsHaveNoSeparator(mm, ':');
    DigitsHaveNoSeparator(ss, ':');
    SplitThree(hh, mm, ss, ':');
    hh + [':'] + mm + [':'] + ss
  }

  /** Three two-digit fields joined by `sep`: eight characters, the separator at 2 and 5, digits elsewhere. */
  lemma ThreeFieldsShape(a: string, b: string, c: string, sep: char)
    requires |a| == 2 && |b| == 2 && |c| == 2 && IsDigits(a) && IsDigits(b) && IsDigits(c)
    ensures var r := a + [sep] + b + [sep] + c;
      |r| == 8 && r[2] == sep && r[5] == sep && r[..2] == a && r[3..5] == b && r[6..] == c
  {
  }

  /** For a clock reading of the day, `dateToTimeString` writes `HH:MM:00`: eight characters, `:` at 2 and 5. */
  lemma TimeStringShape(c: ClockReading)
    requires ValidClock(c)
    ensures |DateToTimeString(c)| == 8 && DateToTimeString(c)[2] == ':' && DateToTimeString(c)[5] == ':'
    ensures DateToTimeString(c)[6..] == "00"
  {
    var hh, mm := Pad2(c.hours), Pad2(c.minutes);
    DoubleZero();
    ThreeFieldsShape(hh, mm, "00", ':');
  }

  /** For a clock reading of the day, `getCurrentTime` writes `HH:MM:SS`: eight characters, `:` at 2 and 5, the seconds last. */
  lemma CurrentTimeShape(c: ClockReading)
    requires ValidClock(c)
    ensures |GetCurrentTime(c)| == 8 && GetCurrentTime(c)[2] == ':' && GetCurrentTime(c)[5] == ':'
    ensures GetCurrentTime(c)[6..] == Pad2(c.seconds)
  {
    var hh, mm, ss := Pad2(c.hours), Pad2(c.minutes), Pad2(c.seconds);
    ThreeFieldsShape(hh, mm, ss, ':');
  }

  /** `Number` reads a number from each of the first three pieces: they are digit strings (an empty one reads as 0). */
  predicate ThreeNumbers(s: string, sep: char) {
    var p := Split(s, sep);
    |p| >= 3 && IsDigits(p[0]) && IsDigits(p[1]) && IsDigits(p[2])
  }

  /**
   * `timeStringToDate(time, dateStr)`: the time is split on `:` into hours,
   * minutes and seconds and the day key on `-` into year, month and day;
   * pieces past the third are ignored, and the month is passed less one.
   */
  function TimeStringToDate(time: string, dateStr: string): (r: DateArgs)
    requires ThreeNumbers(time, ':') && ThreeNumbers(dateStr, '-')
    ensures r.year >= 0 && r.monthIndex >= -1 && r.day >= 0
    ensures r.hours >= 0 && r.minutes >= 0 && r.seconds >= 0
  {
    var t := Split(time, ':');
    var d := Split(dateStr, '-');
    DateArgs(ParseDigits(d[0]), ParseDigits(d[1]) - 1, ParseDigits(d[2]),
             ParseDigits(t[0]), ParseDigits(t[1]), ParseDigits(t[2]))
  }

  /** `Number` reads every piece of a clock text written by `dateToTimeString`. */
  lemma TimeStringParses(c: ClockReading)
    ensures ThreeNumbers(DateToTimeString(c), ':')
  {
    DoubleZero();
  }

  /** `Number` reads every piece of a clock text written by `getCurrentTime`. */
  lemma CurrentTimeParses(now: ClockReading)
    ensures ThreeNumbers(GetCurrentTime(now), ':')
  {
  }

  /** `Number` reads every piece of a day key written by `getLocalDateStr`; for a calendar day the month and day take two digits. */
  lemma DateStrParses(d: CalendarDay)
    ensures ThreeNumbers(GetLocalDateStr(d), '-')
    ensures ValidDay(d) ==> |Pad2(d.monthIndex + 1)| == 2 && |Pad2(d.day)| == 2
  {
  }

  /**
   * Parsing what the formatters write recovers the fields: the calendar day
   * (the month index comes back after the `+ 1` and `- 1` cancel), the hours,
   * the minutes, and seconds 0.
   */
  lemma TimeStringRoundTrip(c: ClockReading, d: CalendarDay)
    ensures ThreeNumbers(DateToTimeString(c), ':') && ThreeNumbers(GetLocalDateStr(d), '-')
    ensures TimeStringToDate(DateToTimeString(c), GetLocalDateStr(d))
         == DateArgs(d.year, d.monthIndex, d.day, c.hours, c.minutes, 0)
  {
    TimeStringParses(c);
    DateStrParses(d);
    ParsePad2(c.hours);
    ParsePad2(c.minutes);
    ParseDecimal(d.year);
    ParsePad2(d.monthIndex + 1);
    ParsePad2(d.day);
    DoubleZero();
  }

  /** The same for `getCurrentTime`, whose seconds survive as well. */
  lemma CurrentTimeRoundTrip(now: ClockReading, d: CalendarDay)
    ensures ThreeNumbers(GetCurrentTime(now), ':') && ThreeNumbers(GetLocalDateStr(d), '-')
    ensures TimeStringToDate(GetCurrentTime(now), GetLocalDateStr(d))
         == DateArgs(d.year, d.monthIndex, d.day, now.hours, now.minutes, now.seconds)
  {
    CurrentTimeParses(now);
    DateStrParses(d);
    ParsePad2(now.hours);
    ParsePad2(now.minutes);
    ParsePad2(now.seconds);
    ParseDecimal(d.year);
    ParsePad2(d.monthIndex + 1);
    ParsePad2(d.day);
  }

  /** Two clock readings with the same hours and minutes give the same `dateToTimeString` text; different ones give different texts. */
  lemma TimeStringInjective(a: ClockReading, b: ClockReading)
    ensures DateToTimeString(a) == DateToTimeString(b) <==> a.hours == b.hours && a.minutes == b.minutes
  {
    if DateToTimeString(a) == DateToTimeString(b) {
      var pa, pb := Split(DateToTimeString(a), ':'), Split(DateToTimeString(b), ':');
      assert pa == pb;
      SamePad2(a.hours, b.hours, pa[0], pb[0]);
      SamePad2(a.minutes, b.minutes, pa[1], pb[1]);
    }
  }

  /** Distinct calendar days get distinct day keys, so filtering entries by key selects exactly one day. */
  lemma DateStrInjective(a: CalendarDay, b: CalendarDay)
    ensures GetLocalDateStr(a) == GetLocalDateStr(b) <==> a == b
  {
    if GetLocalDateStr(a) == GetLocalDateStr(b) {
      var pa, pb := Split(GetLocalDateStr(a), '-'), Split(GetLocalDateStr(b), '-');
      assert pa == pb;
      SameDecimal(a.year, b.year, pa[0], pb[0]);
      SamePad2(a.monthIndex + 1, b.monthIndex + 1, pa[1], pb[1]);
      SamePad2(a.day, b.day, pa[2], pb[2]);
    }
  }

  /** Equal renderings come from equal numbers. */
  lemma SameDecimal(m: nat, n: nat, s: string, t: string)
    requires s == Decimal(m) && t == Decimal(n) && s == t
    ensures m == n
  {
    ParseDecimal(m);
    ParseDecimal(n);
  }

  lemma SamePad2(m: nat, n: nat, s: string, t: string)
    requires s == Pad2(m) && t == Pad2(n) && s == t
    ensures m == n
  {
    ParsePad2(m);
    ParsePad2(n);
  }

}
