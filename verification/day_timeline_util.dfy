/**
 * `timeToAngle`: the position of an `HH:MM[:SS]` clock time on the 24-hour
 * dial, in degrees. The text is split on `:` and only the first two pieces
 * are read; angles are exact reals here.
 */
module DayTimeLineUtil {
  import opened Strings

  /** The first two `:`-pieces of `t` are digit strings, so `Number` reads them without `NaN`. */
  predicate ParseableTime(t: string) {
    var p := Split(t, ':');
    |p| >= 2 && IsDigits(p[0]) && IsDigits(p[1])
  }

  function Hours(t: string): nat
    requires ParseableTime(t)
  {
    ParseDigits(Split(t, ':')[0])
  }

  function Minutes(t: string): nat
    requires ParseableTime(t)
  {
    ParseDigits(Split(t, ':')[1])
  }

  /** `h * 60 + m`, the minutes since midnight the text names. */
  function MinuteOfDay(t: string): nat
    requires ParseableTime(t)
  {
    Hours(t) * 60 + Minutes(t)
  }

  /** `((h * 60 + m) / (24 * 60)) * 360`: a quarter of a degree per minute. */
  function TimeToAngle(t: string): (a: real)
    requires ParseableTime(t)
    ensures a == MinuteOfDay(t) as real / 4.0
    ensures a >= 0.0
  {
    ((Hours(t) * 60 + Minutes(t)) as real / (24.0 * 60.0)) * 360.0
  }

  /** `hh:mm` and `hh:mm:anything` read as the same hours and minutes: the seconds never reach the angle. */
  lemma {:induction false} SecondsIgnored(hh: string, mm: string, rest: string)
    requires IsDigits(hh) && IsDigits(mm)
    ensures ParseableTime(hh + ":" + mm) && ParseableTime(hh + ":" + mm + ":" + rest)
    ensures Hours(hh + ":" + mm) == Hours(hh + ":" + mm + ":" + rest) == ParseDigits(hh)
    ensures Minutes(hh + ":" + mm) == Minutes(hh + ":" + mm + ":" + rest) == ParseDigits(mm)
    ensures TimeToAngle(hh + ":" + mm) == TimeToAngle(hh + ":" + mm + ":" + rest)
  {
    DigitsHaveNoSeparator(hh, ':');
    DigitsHaveNoSeparator(mm, ':');
    assert hh + ":" + mm == hh + [':'] + mm;
    SplitAtFirst(hh, mm, ':');
    SplitNoSeparator(mm, ':');
    assert hh + ":" + mm + ":" + rest == hh + [':'] + (mm + [':'] + rest);
    SplitAtFirst(hh, mm + [':'] + rest, ':');
    SplitAtFirst(mm, rest, ':');
  }

  /** An `hh:mm:ss` text with two-digit fields reads as the hours and minutes its digits spell. */
  lemma ClockFields(t: string)
    requires |t| == 8 && t[2] == ':' && t[5] == ':'
    requires IsDigit(t[0]) && IsDigit(t[1]) && IsDigit(t[3]) && IsDigit(t[4])
    ensures ParseableTime(t)
    ensures Hours(t) == DigitValue(t[0]) * 10 + DigitValue(t[1])
    ensures Minutes(t) == DigitValue(t[3]) * 10 + DigitValue(t[4])
  {
    var hh, mm := t[..2], t[3..5];
    assert t == hh + ":" + mm + ":" + t[6..];
    ParseTwoDigits(hh);
    ParseTwoDigits(mm);
    SecondsIgnored(hh, mm, t[6..]);
  }

  /** The `hh:mm:ss` text whose digits spell `h` and `m` reads as those hours and minutes, at a quarter degree per minute. */
  lemma ReadsAs(t: string, h: nat, m: nat)
    requires h < 100 && m < 100
    requires |t| == 8 && t[2] == ':' && t[5] == ':'
    requires t[0] == DigitChar(h / 10) && t[1] == DigitChar(h % 10)
    requires t[3] == DigitChar(m / 10) && t[4] == DigitChar(m % 10)
    ensures ParseableTime(t) && Hours(t) == h && Minutes(t) == m
    ensures MinuteOfDay(t) == h * 60 + m && TimeToAngle(t) == (h * 60 + m) as real / 4.0
  {
    ClockFields(t);
  }

  /** Midnight sits at the top of the dial. */
  lemma MidnightIsZero()
    ensures ParseableTime("00:00") && TimeToAngle("00:00") == 0.0
  {
    SecondsIgnored("00", "00", "");
    assert "00" + ":" + "00" == "00:00";
    assert ParseDigits("00") == 0 by {
      assert "00"[..1] == "0";
    }
  }

  /** A clock time of the day (hours at most 23, minutes at most 59) lies in [0, 360). */
  lemma AngleInDay(t: string)
    requires ParseableTime(t) && Hours(t) <= 23 && Minutes(t) <= 59
    ensures 0.0 <= TimeToAngle(t) < 360.0
  {
  }

  /** Comparing angles is comparing minutes since midnight, strictly and not. */
  lemma AngleOrder(t: string, u: string)
    requires ParseableTime(t) && ParseableTime(u)
    ensures MinuteOfDay(t) < MinuteOfDay(u) <==> TimeToAngle(t) < TimeToAngle(u)
    ensures MinuteOfDay(t) <= MinuteOfDay(u) <==> TimeToAngle(t) <= TimeToAngle(u)
    ensures MinuteOfDay(t) == MinuteOfDay(u) <==> TimeToAngle(t) == TimeToAngle(u)
  {
  }
}
