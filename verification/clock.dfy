/** Clock times of day as the scheduler reads and writes them: `datetime.strptime(s, "%H:%M")`
    and `f"{t:%H:%M}"`, with the time of day held as minutes after midnight. */
module Clock {
  import opened Basics
  import opened Decimal

  const MinutesPerDay := 1440

  /** Hour field of `%H`: one digit, or two digits from 00 to 23. */
  predicate HourField(s: string) {
    AllDigits(s) && (|s| == 1 || (|s| == 2 && Value(s) <= 23))
  }

  /** Minute field of `%M`: one digit, or two digits from 00 to 59. */
  predicate MinuteField(s: string) {
    AllDigits(s) && (|s| == 1 || (|s| == 2 && Value(s) <= 59))
  }

  /** Reads `%H:%M` as `strptime` does: the whole string must be the hour field, a colon and the
      minute field, with nothing before or after; any other text is a ValueError (None). */
  function ParseClock(s: string): (r: Option<int>)
    ensures r.Some? ==> 0 <= r.value < MinutesPerDay
  {
    var k := if 1 < |s| && s[1] == ':' then 1 else 2;
    if k < |s| && s[k] == ':' && HourField(s[..k]) && MinuteField(s[k + 1..]) then
      ValueOfTwoDigits(s[k + 1..]);
      Some(60 * Value(s[..k]) + Value(s[k + 1..]))
    else
      None
  }

  /** Two digits denote ten times the first plus the second. */
  lemma TwoDigitValue(s: string)
    requires |s| == 2 && IsDigit(s[0]) && IsDigit(s[1])
    ensures AllDigits(s) && Value(s) == 10 * DigitValue(s[0]) + DigitValue(s[1])
  {
    assert s[..1][..0] == [];
    assert Value(s[..1]) == DigitValue(s[0]);
    assert s[..|s| - 1] == s[..1];
  }

  /** The canonical `HH:MM` shape reads as hours times sixty plus minutes. */
  lemma ParseCanonical(s: string)
    requires |s| == 5 && s[2] == ':'
    requires IsDigit(s[0]) && IsDigit(s[1]) && IsDigit(s[3]) && IsDigit(s[4])
    requires 10 * DigitValue(s[0]) + DigitValue(s[1]) <= 23
    requires 10 * DigitValue(s[3]) + DigitValue(s[4]) <= 59
    ensures ParseClock(s) == Some(60 * (10 * DigitValue(s[0]) + DigitValue(s[1])) + 10 * DigitValue(s[3]) + DigitValue(s[4]))
  {
    TwoDigitValue(s[..2]);
    TwoDigitValue(s[3..]);
  }

  /** `f"{t:%H:%M}"` for a time of day given in minutes after midnight. */
  function FormatClock(minutes: int): (r: string)
    requires 0 <= minutes < MinutesPerDay
    ensures |r| == 5 && r[2] == ':'
  {
    Pad2(minutes / 60) + ":" + Pad2(minutes % 60)
  }

  /** Writing a time of day and reading it back gives the same time. */
  lemma ParseFormatRoundTrip(minutes: int)
    requires 0 <= minutes < MinutesPerDay
    ensures ParseClock(FormatClock(minutes)) == Some(minutes)
  {
    var s := FormatClock(minutes);
    assert s[..2] == Pad2(minutes / 60);
    assert s[3..] == Pad2(minutes % 60);
  }
}
