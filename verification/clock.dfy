/**
  Time of day as the controllers see it.

  An instant is a UTC calendar day together with the milliseconds elapsed
  since that day's midnight. The controllers reduce an instant to a time-of-day
  text in two ways: `toISOString().split("T")[1].substring(0, 5)` for booked
  and requested times, and `toTimeString().slice(0, 5)` for generated slots.
  Both keep the `HH:MM` prefix, i.e. they truncate to the minute. The model
  uses one timeline for both (no time zones).
*/
module Clock {
  import opened Wrappers

  const MsPerSecond: nat := 1000
  const MsPerMinute: nat := 60_000
  const MsPerHour: nat := 3_600_000
  const MinutesPerHour: nat := 60

  type MsOfDay = m: nat | m < 86_400_000
  type MinuteOfDay = m: nat | m < 1440

  /** A UTC calendar day number and a millisecond offset within that day. */
  datatype Instant = Instant(day: int, ms: MsOfDay)

  /** The minute of the day an instant falls in (truncation, never rounding). */
  function MinuteOf(t: Instant): (m: MinuteOfDay)
    ensures m * MsPerMinute <= t.ms < m * MsPerMinute + MsPerMinute
  {
    t.ms / MsPerMinute
  }

  predicate IsDigit(c: char) {
    '0' <= c <= '9'
  }

  function Digit(d: nat): (c: char)
    requires d < 10
    ensures IsDigit(c)
  {
    (48 + d) as char
  }

  function DigitValue(c: char): (d: nat)
    requires IsDigit(c)
    ensures d < 10 && Digit(d) == c
  {
    c as nat - 48
  }

  /** Zero-padded two-digit decimal. */
  function Pad2(n: nat): (s: string)
    requires n < 100
    ensures |s| == 2 && IsDigit(s[0]) && IsDigit(s[1])
    ensures 10 * DigitValue(s[0]) + DigitValue(s[1]) == n
  {
    [Digit(n / 10), Digit(n % 10)]
  }

  /** Zero-padded three-digit decimal. */
  function Pad3(n: nat): (s: string)
    requires n < 1000
    ensures |s| == 3 && IsDigit(s[0]) && IsDigit(s[1]) && IsDigit(s[2])
  {
    [Digit(n / 100), Digit(n / 10 % 10), Digit(n % 10)]
  }

  /** The `HH:MM` text of a minute of the day. */
  function Hhmm(m: MinuteOfDay): (s: string)
    ensures |s| == 5 && s[2] == ':'
    ensures IsDigit(s[0]) && IsDigit(s[1]) && IsDigit(s[3]) && IsDigit(s[4])
    ensures 10 * DigitValue(s[0]) + DigitValue(s[1]) == m / MinutesPerHour
    ensures 10 * DigitValue(s[3]) + DigitValue(s[4]) == m % MinutesPerHour
  {
    Pad2(m / MinutesPerHour) + ":" + Pad2(m % MinutesPerHour)
  }

  /**
    Reads an `HH:MM` time of day, as a working-hours bound is read when it is
    spliced into `${date}T${start}:00.000`. Hours run 00-23, minutes 00-59;
    anything else is an invalid date.
  */
  function ParseHhmm(s: string): (r: Option<MinuteOfDay>)
    ensures r.Some? ==> |s| == 5 && s[2] == ':'
    ensures r.Some? ==> IsDigit(s[0]) && IsDigit(s[1]) && IsDigit(s[3]) && IsDigit(s[4])
    ensures r.Some? ==>
      && 10 * DigitValue(s[0]) + DigitValue(s[1]) == r.value / MinutesPerHour
      && 10 * DigitValue(s[3]) + DigitValue(s[4]) == r.value % MinutesPerHour
  {
    if |s| == 5 && IsDigit(s[0]) && IsDigit(s[1]) && s[2] == ':' && IsDigit(s[3]) && IsDigit(s[4]) then
      var h := 10 * DigitValue(s[0]) + DigitValue(s[1]);
      var mi := 10 * DigitValue(s[3]) + DigitValue(s[4]);
      if h < 24 && mi < 60 then Some(h * MinutesPerHour + mi) else None
    else
      None
  }

  /** Reading back the text of a minute gives that minute. */
  lemma ParseHhmmOfHhmm(m: MinuteOfDay)
    ensures ParseHhmm(Hhmm(m)) == Some(m)
  {
    var s := Hhmm(m);
    assert s[..2] == Pad2(m / MinutesPerHour);
    assert s[3..] == Pad2(m % MinutesPerHour);
    assert 10 * DigitValue(s[0]) + DigitValue(s[1]) == m / MinutesPerHour;
    assert 10 * DigitValue(s[3]) + DigitValue(s[4]) == m % MinutesPerHour;
  }

  /** Every text the parser accepts is the canonical text of the minute it yields. */
  lemma HhmmOfParseHhmm(s: string, m: MinuteOfDay)
    requires ParseHhmm(s) == Some(m)
    ensures Hhmm(m) == s
  {
    var h := 10 * DigitValue(s[0]) + DigitValue(s[1]);
    var mi := 10 * DigitValue(s[3]) + DigitValue(s[4]);
    assert m == h * MinutesPerHour + mi;
    assert m / MinutesPerHour == h && m % MinutesPerHour == mi;
    assert h / 10 == DigitValue(s[0]) && h % 10 == DigitValue(s[1]);
    assert mi / 10 == DigitValue(s[3]) && mi % 10 == DigitValue(s[4]);
  }

  /** Two minutes have the same `HH:MM` text exactly when they are the same minute. */
  lemma HhmmInjective(a: MinuteOfDay, b: MinuteOfDay)
    ensures Hhmm(a) == Hhmm(b) <==> a == b
  {
    if Hhmm(a) == Hhmm(b) {
      ParseHhmmOfHhmm(a);
      ParseHhmmOfHhmm(b);
    }
  }

  /** The time part of `toISOString()`: `HH:MM:SS.sssZ`. */
  function IsoClock(ms: MsOfDay): (s: string)
    ensures |s| == 13 && s[2] == ':' && s[5] == ':' && s[8] == '.' && s[12] == 'Z'
    ensures forall i :: i in {0, 1, 3, 4, 6, 7} ==> IsDigit(s[i])
    ensures 10 * DigitValue(s[0]) + DigitValue(s[1]) == ms / MsPerHour
    ensures 10 * DigitValue(s[3]) + DigitValue(s[4]) == ms / MsPerMinute % MinutesPerHour
    ensures 10 * DigitValue(s[6]) + DigitValue(s[7]) == ms / MsPerSecond % 60
  {
    Pad2(ms / MsPerHour) + ":" + Pad2(ms / MsPerMinute % MinutesPerHour) + ":"
      + Pad2(ms / MsPerSecond % 60) + "." + Pad3(ms % MsPerSecond) + "Z"
  }

  /** The booked-time key of an instant: the first five characters of its ISO clock. */
  function TimeKey(t: Instant): (k: string)
    ensures k == Hhmm(MinuteOf(t))
  {
    HourOfMinute(t.ms);
    IsoClock(t.ms)[..5]
  }

  /** The hour field of the ISO clock is the hour of the truncated minute. */
  lemma HourOfMinute(ms: MsOfDay)
    ensures ms / MsPerHour == ms / MsPerMinute / MinutesPerHour
  {
    var m := ms / MsPerMinute;
    var h := m / MinutesPerHour;
    assert ms == MsPerMinute * m + ms % MsPerMinute;
    assert m == MinutesPerHour * h + m % MinutesPerHour;
    assert ms == MsPerHour * h + (MsPerMinute * (m % MinutesPerHour) + ms % MsPerMinute);
    assert MsPerMinute * (m % MinutesPerHour) + ms % MsPerMinute < MsPerHour;
  }

  /**
    Booked-time keys compare at minute granularity: two instants have the same
    key exactly when they fall in the same minute of the day, whatever their
    seconds and milliseconds.
  */
  lemma TimeKeySameMinute(a: Instant, b: Instant)
    ensures TimeKey(a) == TimeKey(b) <==> MinuteOf(a) == MinuteOf(b)
  {
    HhmmInjective(MinuteOf(a), MinuteOf(b));
  }
}
