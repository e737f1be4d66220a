/** Reading a survey answer such as "9am-2pm" into a pair of 24-hour clock strings (read_csv.py).
    The answer is stripped and lower-cased, matched at its start against
    `(\d{1,2})(?::(\d{2}))?([ap]m?)? ?- ?(\d{1,2})(?::(\d{2}))?([ap]m)?`, and each hour is
    moved to the 24-hour clock by its am/pm suffix. */
module RangeParser {
  import opened Basics
  import opened Decimal
  import opened Clock

  /** `str.isspace()`: the characters `str.strip()` removes when given no argument. */
  predicate IsSpace(ch: char) {
    ch == ' ' || '\t' <= ch <= '\r' || '\U{1C}' <= ch <= '\U{1F}' || ch == '\U{85}' || ch == '\U{A0}'
    || ch == '\U{1680}' || '\U{2000}' <= ch <= '\U{200A}' || ch == '\U{2028}' || ch == '\U{2029}'
    || ch == '\U{202F}' || ch == '\U{205F}' || ch == '\U{3000}'
  }

  /** How many leading whitespace characters `s` has. */
  function LeadingSpaces(s: string): (n: nat)
    ensures n <= |s|
    ensures forall i :: 0 <= i < n ==> IsSpace(s[i])
    ensures n < |s| ==> !IsSpace(s[n])
  {
    if |s| == 0 || !IsSpace(s[0]) then 0 else 1 + LeadingSpaces(s[1..])
  }

  /** How many characters of `s` remain once its trailing whitespace is dropped. */
  function TrailingStart(s: string): (n: nat)
    ensures n <= |s|
    ensures forall i :: n <= i < |s| ==> IsSpace(s[i])
    ensures n > 0 ==> !IsSpace(s[n - 1])
  {
    if |s| == 0 || !IsSpace(s[|s| - 1]) then |s| else TrailingStart(s[..|s| - 1])
  }

  /** `str.strip()`: `s` without its leading and trailing whitespace. */
  function Strip(s: string): (r: string)
    ensures |r| <= |s|
    ensures
      var i := LeadingSpaces(s);
      i + |r| <= |s| && r == s[i..i + |r|] &&
      (forall k :: 0 <= k < i ==> IsSpace(s[k])) && (forall k :: i + |r| <= k < |s| ==> IsSpace(s[k]))
    ensures |r| > 0 ==> !IsSpace(r[0]) && !IsSpace(r[|r| - 1])
  {
    var lead := LeadingSpaces(s);
    var rest := s[lead..];
    var r := rest[..TrailingStart(rest)];
    assert r == s[lead..lead + |r|];
    r
  }

  /** `str.lower()` on one character; only the ASCII capitals are mapped. */
  function LowerChar(ch: char): char {
    if 'A' <= ch <= 'Z' then (ch as int - 'A' as int + 'a' as int) as char else ch
  }

  /** `str.lower()` restricted to ASCII: the result has no capital letter, each capital becomes the
      small letter 32 code points above it, and every other character is kept. */
  function Lower(s: string): (r: string)
    ensures |r| == |s|
    ensures forall i :: 0 <= i < |r| ==> !('A' <= r[i] <= 'Z')
    ensures forall i :: 0 <= i < |s| ==>
      if 'A' <= s[i] <= 'Z' then r[i] as int == s[i] as int + 32 else r[i] == s[i]
  {
    seq(|s|, i requires 0 <= i < |s| => LowerChar(s[i]))
  }

  /** `time_str.strip().lower()`. */
  function Normalize(s: string): string {
    Lower(Strip(s))
  }

  /** A string without surrounding whitespace and without capitals is left alone by `Strip`. */
  lemma StripClean(s: string)
    requires |s| > 0 ==> !IsSpace(s[0]) && !IsSpace(s[|s| - 1])
    ensures Strip(s) == s
  {
    if |s| > 0 {
      assert LeadingSpaces(s) == 0;
      assert TrailingStart(s) == |s|;
    }
  }

  /** Normalising twice is normalising once. */
  lemma NormalizeIdempotent(s: string)
    ensures Normalize(Normalize(s)) == Normalize(s)
  {
    var u := Strip(s);
    var n := Normalize(s);
    if |u| > 0 {
      LowerKeepsSpace(u[0]);
      LowerKeepsSpace(u[|u| - 1]);
    }
    StripClean(n);
    LowerTwice(u);
  }

  /** The six groups of a match, as the strings the regex captured. */
  datatype Groups = Groups(startHour: string, startMinute: Option<string>, startPeriod: Option<string>,
                           endHour: string, endMinute: Option<string>, endPeriod: Option<string>)

  /** A match: its groups, whether a space stood before and after the dash, and the unmatched rest. */
  datatype RangeMatch = RangeMatch(groups: Groups, space1: bool, space2: bool, rest: string)

  predicate HourText(h: string) {
    1 <= |h| <= 2 && AllDigits(h)
  }

  predicate MinuteText(m: Option<string>) {
    m.Some? ==> |m.value| == 2 && AllDigits(m.value)
  }

  /** What each group can capture: `\d{1,2}`, `\d{2}`, `[ap]m?` and `[ap]m`. */
  predicate WellFormed(g: Groups) {
    HourText(g.startHour) && MinuteText(g.startMinute)
    && g.startPeriod in {None, Some("a"), Some("p"), Some("am"), Some("pm")}
    && HourText(g.endHour) && MinuteText(g.endMinute)
    && g.endPeriod in {None, Some("am"), Some("pm")}
  }

  function MinutePart(m: Option<string>): string {
    if m.Some? then ":" + m.value else ""
  }

  function Space(b: bool): string {
    if b then " " else ""
  }

  /** The text of a start (hour, minutes, suffix, optional space), the dash, then `u`. */
  function StartText(h: string, m: Option<string>, p: Option<string>, sp: bool, u: string): string {
    h + (MinutePart(m) + (p.GetOr("") + (Space(sp) + ("-" + u))))
  }

  /** The text of an end (optional space, hour, minutes, suffix), then `t`. */
  function EndText(sp: bool, h: string, m: Option<string>, p: Option<string>, t: string): string {
    Space(sp) + (h + (MinutePart(m) + (p.GetOr("") + t)))
  }

  /** The text a match spans, followed by `t`. */
  function RenderWith(g: Groups, space1: bool, space2: bool, t: string): string {
    StartText(g.startHour, g.startMinute, g.startPeriod, space1, EndText(space2, g.endHour, g.endMinute, g.endPeriod, t))
  }

  /** The text a match spans. */
  function Render(g: Groups, space1: bool, space2: bool): string {
    RenderWith(g, space1, space2, "")
  }

  lemma AppendAssoc(a: string, b: string, c: string)
    ensures a + (b + c) == (a + b) + c
  {
  }

  /** Following the text of an end by `t` is appending `t`. */
  lemma EndTextAppend(sp: bool, h: string, m: Option<string>, p: Option<string>, t: string)
    ensures EndText(sp, h, m, p, t) == EndText(sp, h, m, p, "") + t
  {
    var pe := p.GetOr("");
    assert pe + "" == pe;
    AppendAssoc(MinutePart(m), pe, t);
    AppendAssoc(h, MinutePart(m) + pe, t);
    AppendAssoc(Space(sp), h + (MinutePart(m) + pe), t);
  }

  /** Following the text of a start by `u + t` is appending `t`. */
  lemma StartTextAppend(h: string, m: Option<string>, p: Option<string>, sp: bool, u: string, t: string)
    ensures StartText(h, m, p, sp, u + t) == StartText(h, m, p, sp, u) + t
  {
    var pe := p.GetOr("");
    AppendAssoc("-", u, t);
    AppendAssoc(Space(sp), "-" + u, t);
    AppendAssoc(pe, Space(sp) + ("-" + u), t);
    AppendAssoc(MinutePart(m), pe + (Space(sp) + ("-" + u)), t);
    AppendAssoc(h, MinutePart(m) + (pe + (Space(sp) + ("-" + u))), t);
  }

  /** Following the text of a match by `t` is appending `t`. */
  lemma RenderAppend(g: Groups, space1: bool, space2: bool, t: string)
    ensures RenderWith(g, space1, space2, t) == Render(g, space1, space2) + t
  {
    EndTextAppend(space2, g.endHour, g.endMinute, g.endPeriod, t);
    StartTextAppend(g.startHour, g.startMinute, g.startPeriod, space1, EndText(space2, g.endHour, g.endMinute, g.endPeriod, ""), t);
  }

  /** The text after a match cannot extend it: the regex is greedy, so a second hour digit, a
      `:MM` minute or an `am`/`pm` suffix right after the end would have been taken. */
  predicate Stops(g: Groups, t: string) {
    g.endPeriod.None? ==>
      !(|t| >= 2 && (t[0] == 'a' || t[0] == 'p') && t[1] == 'm')
      && (g.endMinute.None? ==> !(|t| >= 3 && t[0] == ':' && IsDigit(t[1]) && IsDigit(t[2])))
      && (g.endMinute.None? && |g.endHour| == 1 ==> !(|t| >= 1 && IsDigit(t[0])))
  }

  /** `(\d{1,2})`: two digits when there are two, else one. */
  function TakeHour(s: string): (r: Option<(string, string)>)
    ensures r.Some? ==> HourText(r.value.0) && s == r.value.0 + r.value.1
    ensures r.Some? && |r.value.0| == 1 ==> |r.value.1| == 0 || !IsDigit(r.value.1[0])
    ensures r.None? <==> |s| == 0 || !IsDigit(s[0])
  {
    if 2 <= |s| && IsDigit(s[0]) && IsDigit(s[1]) then Some((s[..2], s[2..]))
    else if 1 <= |s| && IsDigit(s[0]) then Some((s[..1], s[1..]))
    else None
  }

  lemma TakeHourOf(h: string, t: string)
    requires HourText(h) && (|h| == 1 ==> |t| == 0 || !IsDigit(t[0]))
    ensures TakeHour(h + t) == Some((h, t))
  {
    assert (h + t)[..|h|] == h && (h + t)[|h|..] == t;
  }

  /** `(?::(\d{2}))?`: a colon and two digits when they are there. */
  function TakeMinute(s: string): (r: (Option<string>, string))
    ensures MinuteText(r.0) && s == MinutePart(r.0) + r.1
    ensures r.0.None? ==> r.1 == s && !(|s| >= 3 && s[0] == ':' && IsDigit(s[1]) && IsDigit(s[2]))
  {
    if 3 <= |s| && s[0] == ':' && IsDigit(s[1]) && IsDigit(s[2]) then
      assert s == ":" + s[1..3] + s[3..];
      (Some(s[1..3]), s[3..])
    else (None, s)
  }

  lemma TakeMinuteOf(m: Option<string>, t: string)
    requires MinuteText(m) && (m.None? ==> !(|t| >= 3 && t[0] == ':' && IsDigit(t[1]) && IsDigit(t[2])))
    ensures TakeMinute(MinutePart(m) + t) == (m, t)
  {
    var s := MinutePart(m) + t;
    if m.Some? {
      assert s[0] == ':' && s[1] == m.value[0] && s[2] == m.value[1];
      assert s[1..3] == m.value && s[3..] == t;
    } else {
      assert s == t;
    }
  }

  /** `([ap]m?)?`: an `a` or `p`, with the `m` after it when there is one. */
  function TakeStartPeriod(s: string): (r: (Option<string>, string))
    ensures r.0 in {None, Some("a"), Some("p"), Some("am"), Some("pm")} && s == r.0.GetOr("") + r.1
    ensures r.0.None? ==> |s| == 0 || (s[0] != 'a' && s[0] != 'p')
    ensures r.0 in {Some("a"), Some("p")} ==> |r.1| == 0 || r.1[0] != 'm'
  {
    if 1 <= |s| && (s[0] == 'a' || s[0] == 'p') then
      if 2 <= |s| && s[1] == 'm' then
        assert s == [s[0], 'm'] + s[2..];
        (Some([s[0], 'm']), s[2..])
      else
        assert s == [s[0]] + s[1..];
        (Some([s[0]]), s[1..])
    else (None, s)
  }

  lemma TakeStartPeriodOf(p: Option<string>, t: string)
    requires p in {None, Some("a"), Some("p"), Some("am"), Some("pm")}
    requires p.None? ==> |t| == 0 || (t[0] != 'a' && t[0] != 'p')
    requires p in {Some("a"), Some("p")} ==> |t| == 0 || t[0] != 'm'
    ensures TakeStartPeriod(p.GetOr("") + t) == (p, t)
  {
    var s := p.GetOr("") + t;
    if p.Some? {
      assert s[0] == p.value[0];
      assert |p.value| == 2 ==> s[1] == 'm';
      assert s[..|p.value|] == p.value && s[|p.value|..] == t;
    } else {
      assert s == t;
    }
  }

  /** ` ?`: one optional space. */
  function TakeSpace(s: string): (r: (bool, string))
    ensures s == Space(r.0) + r.1
    ensures !r.0 ==> r.1 == s && (|s| == 0 || s[0] != ' ')
  {
    if 1 <= |s| && s[0] == ' ' then (true, s[1..]) else (false, s)
  }

  lemma TakeSpaceOf(b: bool, t: string)
    requires !b ==> |t| == 0 || t[0] != ' '
    ensures TakeSpace(Space(b) + t) == (b, t)
  {
    if b {
      assert (" " + t)[1..] == t;
    } else {
      assert Space(b) + t == t;
    }
  }

  /** `([ap]m)?`: `am` or `pm` when it is there. */
  function TakeEndPeriod(s: string): (r: (Option<string>, string))
    ensures r.0 in {None, Some("am"), Some("pm")} && s == r.0.GetOr("") + r.1
    ensures r.0.None? ==> r.1 == s && !(|s| >= 2 && (s[0] == 'a' || s[0] == 'p') && s[1] == 'm')
  {
    if 2 <= |s| && (s[0] == 'a' || s[0] == 'p') && s[1] == 'm' then
      assert s == [s[0], 'm'] + s[2..];
      (Some([s[0], 'm']), s[2..])
    else (None, s)
  }

  lemma TakeEndPeriodOf(p: Option<string>, t: string)
    requires p in {None, Some("am"), Some("pm")}
    requires p.None? ==> !(|t| >= 2 && (t[0] == 'a' || t[0] == 'p') && t[1] == 'm')
    ensures TakeEndPeriod(p.GetOr("") + t) == (p, t)
  {
    var s := p.GetOr("") + t;
    if p.Some? {
      assert s[0] == p.value[0] && s[1] == 'm';
      assert s[..2] == p.value && s[2..] == t;
    } else {
      assert s == t;
    }
  }

  /** The start of the pattern up to and including the dash: the start groups, the first space flag
      and the text after the dash. Every optional part is greedy and none of them ever needs to
      give back what it took, so one left-to-right pass finds what backtracking would. */
  function MatchStart(s: string): (r: Option<(string, Option<string>, Option<string>, bool, string)>)
    ensures r.Some? ==> s == StartText(r.value.0, r.value.1, r.value.2, r.value.3, r.value.4)
    ensures r.Some? ==> HourText(r.value.0) && MinuteText(r.value.1)
    ensures r.Some? ==> r.value.2 in {None, Some("a"), Some("p"), Some("am"), Some("pm")}
  {
    match TakeHour(s)
    case None => None
    case Some((h, s1)) =>
      var (m, s2) := TakeMinute(s1);
      var (p, s3) := TakeStartPeriod(s2);
      var (sp, s4) := TakeSpace(s3);
      if |s4| == 0 || s4[0] != '-' then None
      else
        assert s4 == "-" + s4[1..];
        Some((h, m, p, sp, s4[1..]))
  }

  /** The end of the pattern, after the dash, with the unmatched rest. */
  function MatchEnd(s: string): (r: Option<(bool, string, Option<string>, Option<string>, string)>)
    ensures r.Some? ==> s == EndText(r.value.0, r.value.1, r.value.2, r.value.3, r.value.4)
    ensures r.Some? ==> HourText(r.value.1) && MinuteText(r.value.2) && r.value.3 in {None, Some("am"), Some("pm")}
    ensures r.Some? ==> Stops(Groups("0", None, None, r.value.1, r.value.2, r.value.3), r.value.4)
    ensures r.None? <==> |TakeSpace(s).1| == 0 || !IsDigit(TakeSpace(s).1[0])
  {
    var (sp, s1) := TakeSpace(s);
    match TakeHour(s1)
    case None => None
    case Some((h, s2)) =>
      var (m, s3) := TakeMinute(s2);
      var (p, rest) := TakeEndPeriod(s3);
      Some((sp, h, m, p, rest))
  }

  /** `re.match` of the pattern against `s`: None when `s` does not start with a match. */
  function Match(s: string): Option<RangeMatch> {
    match MatchStart(s)
    case None => None
    case Some((h1, m1, p1, sp1, u)) =>
      match MatchEnd(u)
      case None => None
      case Some((sp2, h2, m2, p2, rest)) => Some(RangeMatch(Groups(h1, m1, p1, h2, m2, p2), sp1, sp2, rest))
  }

  /** Whatever follows a well-formed start is read back as that start. */
  lemma MatchStartOf(g: Groups, space1: bool, u: string)
    requires WellFormed(g)
    ensures MatchStart(StartText(g.startHour, g.startMinute, g.startPeriod, space1, u))
         == Some((g.startHour, g.startMinute, g.startPeriod, space1, u))
  {
    var a4 := "-" + u;
    var a3 := Space(space1) + a4;
    var a2 := g.startPeriod.GetOr("") + a3;
    var a1 := MinutePart(g.startMinute) + a2;
    TakeSpaceOf(space1, a4);
    assert a3[0] == ' ' || a3[0] == '-';
    TakeStartPeriodOf(g.startPeriod, a3);
    assert a2[0] == 'a' || a2[0] == 'p' || a2[0] == ' ' || a2[0] == '-';
    TakeMinuteOf(g.startMinute, a2);
    assert a1[0] == ':' || a1[0] == a2[0];
    TakeHourOf(g.startHour, a1);
    assert a4[1..] == u;
  }

  /** What follows the dash is read back as the end groups when the text after it stops there. */
  lemma MatchEndOf(g: Groups, space2: bool, t: string)
    requires WellFormed(g) && Stops(g, t)
    ensures MatchEnd(EndText(space2, g.endHour, g.endMinute, g.endPeriod, t))
         == Some((space2, g.endHour, g.endMinute, g.endPeriod, t))
  {
    var b3 := g.endPeriod.GetOr("") + t;
    var b2 := MinutePart(g.endMinute) + b3;
    var b1 := g.endHour + b2;
    TakeEndPeriodOf(g.endPeriod, t);
    assert g.endMinute.None? && g.endPeriod.Some? ==> b2[0] == 'a' || b2[0] == 'p';
    TakeMinuteOf(g.endMinute, b3);
    assert |g.endHour| == 1 && |b2| > 0 ==> b2[0] == ':' || b2[0] == 'a' || b2[0] == 'p' || (b2 == t && !IsDigit(t[0]));
    TakeHourOf(g.endHour, b2);
    assert IsDigit(b1[0]);
    TakeSpaceOf(space2, b1);
  }

  /** Every match is the text of well-formed groups followed by text that cannot extend it. */
  lemma MatchSound(s: string)
    requires Match(s).Some?
    ensures WellFormed(Match(s).value.groups) && Stops(Match(s).value.groups, Match(s).value.rest)
    ensures s == Render(Match(s).value.groups, Match(s).value.space1, Match(s).value.space2) + Match(s).value.rest
  {
    var r := Match(s).value;
    RenderAppend(r.groups, r.space1, r.space2, r.rest);
  }

  /** Well-formed groups followed by text that cannot extend them are read back exactly. */
  lemma MatchComplete(g: Groups, space1: bool, space2: bool, t: string)
    requires WellFormed(g) && Stops(g, t)
    ensures Match(Render(g, space1, space2) + t) == Some(RangeMatch(g, space1, space2, t))
  {
    RenderAppend(g, space1, space2, t);
    MatchStartOf(g, space1, EndText(space2, g.endHour, g.endMinute, g.endPeriod, t));
    MatchEndOf(g, space2, t);
  }

  /** A string that starts with the text of well-formed groups always matches (perhaps taking more
      than those groups, greedily): `re.match` returns None only when no such start exists. */
  lemma MatchesWhenPrefix(g: Groups, space1: bool, space2: bool, t: string)
    requires WellFormed(g)
    ensures Match(Render(g, space1, space2) + t).Some?
  {
    RenderAppend(g, space1, space2, t);
    var u := EndText(space2, g.endHour, g.endMinute, g.endPeriod, t);
    MatchStartOf(g, space1, u);
    var b1 := g.endHour + (MinutePart(g.endMinute) + (g.endPeriod.GetOr("") + t));
    TakeSpaceOf(space2, b1);
    assert IsDigit(b1[0]);
  }

  /** The hour in 24-hour form: `pm` adds twelve except to 12, `am` turns 12 into 0, and a bare `a`
      or `p` (or no suffix) leaves the hour as written. */
  function Hour24(hour: nat, period: Option<string>): nat {
    if period == Some("pm") && hour != 12 then hour + 12
    else if period == Some("am") && hour == 12 then 0
    else hour
  }

  /** On the hours 1 to 12 of a 12-hour clock, `am` and `pm` give the usual 24-hour hour: the hour
      modulo twelve, plus twelve in the afternoon. */
  lemma Hour24Reference(hour: nat, pm: bool)
    requires 1 <= hour <= 12
    ensures Hour24(hour, Some(if pm then "pm" else "am")) == hour % 12 + (if pm then 12 else 0)
    ensures Hour24(hour, Some(if pm then "pm" else "am")) <= 23
  {
  }

  /** One side of the pair: the hour padded to two digits, a colon, and the minutes as written or
      "00". */
  function Clock24(hour: string, minute: Option<string>, period: Option<string>): string
    requires HourText(hour)
  {
    Pad2(Hour24(Value(hour), period)) + ":" + minute.GetOr("00")
  }

  /** `convert_to_24h_format`: None when the normalised answer does not start with a match. */
  function Convert24(raw: string): (r: Option<(string, string)>)
    ensures r.Some? <==> Match(Normalize(raw)).Some?
  {
    match Match(Normalize(raw))
    case None => None
    case Some(mt) =>
      MatchSound(Normalize(raw));
      var g := mt.groups;
      Some((Clock24(g.startHour, g.startMinute, g.startPeriod), Clock24(g.endHour, g.endMinute, g.endPeriod)))
  }

  /** The minutes of a clock side, 0 when none were written. */
  function MinuteValue(minute: Option<string>): nat
    requires MinuteText(minute)
  {
    if minute.Some? then Value(minute.value) else 0
  }

  /** A converted side reads as a `%H:%M` clock time exactly when its hour is at most 23 and its
      minutes at most 59, and then it denotes that hour and those minutes: the conversion checks
      neither bound itself. */
  lemma Clock24Parses(hour: string, minute: Option<string>, period: Option<string>)
    requires HourText(hour) && MinuteText(minute)
    ensures
      var h := Hour24(Value(hour), period);
      ParseClock(Clock24(hour, minute, period)) ==
        (if h <= 23 && MinuteValue(minute) <= 59 then Some(60 * h + MinuteValue(minute)) else None)
  {
    SideParts(hour, minute, period);
    ParsePadded(Clock24(hour, minute, period), Hour24(Value(hour), period), minute.GetOr("00"), MinuteValue(minute));
  }

  /** A side is a padded hour below 200, a colon and two digits denoting its minute value. */
  lemma SideParts(hour: string, minute: Option<string>, period: Option<string>)
    requires HourText(hour) && MinuteText(minute)
    ensures Hour24(Value(hour), period) < 200
    ensures |minute.GetOr("00")| == 2 && AllDigits(minute.GetOr("00")) && Value(minute.GetOr("00")) == MinuteValue(minute)
    ensures Clock24(hour, minute, period) == Pad2(Hour24(Value(hour), period)) + ":" + minute.GetOr("00")
  {
    ValueOfTwoDigits(hour);
    Hour24Below(Value(hour), period);
    MinutesWritten(minute);
    SideText(hour, minute, period);
  }

  /** A side's text is the padded hour, a colon and the written minutes. */
  lemma SideText(hour: string, minute: Option<string>, period: Option<string>)
    requires HourText(hour)
    ensures Clock24(hour, minute, period) == Pad2(Hour24(Value(hour), period)) + ":" + minute.GetOr("00")
  {
  }

  lemma Hour24Below(hour: nat, period: Option<string>)
    requires hour < 100
    ensures Hour24(hour, period) < 200
  {
  }

  /** The minutes a side writes: two digits denoting its minute value. */
  lemma MinutesWritten(minute: Option<string>)
    requires MinuteText(minute)
    ensures |minute.GetOr("00")| == 2 && AllDigits(minute.GetOr("00"))
    ensures Value(minute.GetOr("00")) == MinuteValue(minute)
  {
    if minute.None? {
      DoubleZero();
    }
  }

  /** A padded hour below 200, a colon and two minute digits read back when both are in range. */
  lemma ParsePadded(s: string, h: nat, m: string, mv: nat)
    requires h < 200 && |m| == 2 && AllDigits(m) && Value(m) == mv && s == Pad2(h) + ":" + m
    ensures ParseClock(s) == if h <= 23 && mv <= 59 then Some(60 * h + mv) else None
  {
    if h < 100 {
      ParseTwoDigitHour(h, m);
    } else {
      ParseThreeDigitHour(h, m);
    }
  }

  /** Minutes written as `00` are zero. */
  lemma DoubleZero()
    ensures AllDigits("00") && Value("00") == 0
  {
    assert "00"[..1] == "0";
  }

  /** A two-digit hour, a colon and two minute digits read back when both are in range. */
  lemma ParseTwoDigitHour(h: nat, m: string)
    requires h < 100 && |m| == 2 && AllDigits(m)
    ensures ParseClock(Pad2(h) + ":" + m) == (if h <= 23 && Value(m) <= 59 then Some(60 * h + Value(m)) else None)
  {
    var s := Pad2(h) + ":" + m;
    assert s[..2] == Pad2(h) && s[2] == ':' && s[3..] == m;
    assert IsDigit(s[1]) by { assert s[1] == Pad2(h)[1]; }
  }

  /** An hour of three digits does not read as `%H:%M`. */
  lemma ParseThreeDigitHour(h: nat, m: string)
    requires 100 <= h < 200
    ensures ParseClock(Pad2(h) + ":" + m) == None
  {
    var s := Pad2(h) + ":" + m;
    assert |Pad2(h)| == 3;
    assert s[1] == Pad2(h)[1] && s[2] == Pad2(h)[2];
    assert IsDigit(s[1]) && IsDigit(s[2]);
  }

  /** Text without capitals is left alone by `Lower`. */
  lemma LowerClean(s: string)
    requires forall i :: 0 <= i < |s| ==> !('A' <= s[i] <= 'Z')
    ensures Lower(s) == s
  {
  }

  /** The text of a match with minutes on both sides and no suffixes or spaces. */
  lemma PlainRender(h1: string, m1: string, h2: string, m2: string)
    ensures Render(Groups(h1, Some(m1), None, h2, Some(m2), None), false, false) == h1 + ":" + m1 + "-" + (h2 + ":" + m2)
  {
    var c2 := ":" + m2;
    assert c2 + ("" + "") == c2;
    AppendAssoc(h2, ":", m2);
    var e := EndText(false, h2, Some(m2), None, "");
    assert e == h2 + c2;
    var c1 := ":" + m1;
    assert "" + ("" + ("-" + e)) == "-" + e;
    AppendAssoc(c1, "-", e);
    AppendAssoc(h1, c1 + "-", e);
    AppendAssoc(h1, ":", m1);
    AppendAssoc(h1 + ":", m1, "-");
    AppendAssoc(h1, c1, "-");
  }

  /** Text with no capitals and no whitespace at its ends is already normalised. */
  lemma CleanNormalized(s: string)
    requires |s| > 0 ==> !IsSpace(s[0]) && !IsSpace(s[|s| - 1])
    requires forall i :: 0 <= i < |s| ==> !('A' <= s[i] <= 'Z')
    ensures Normalize(s) == s
  {
    StripClean(s);
    LowerClean(s);
  }

  /** `HH:MM` holds digits around a colon. */
  lemma FormatClockChars(minutes: int)
    requires 0 <= minutes < MinutesPerDay
    ensures forall i :: 0 <= i < 5 ==> (IsDigit(FormatClock(minutes)[i]) <==> i != 2)
  {
    var r := FormatClock(minutes);
    assert r[..2] == Pad2(minutes / 60) && r[3..] == Pad2(minutes % 60);
    assert forall i :: 0 <= i < 2 ==> r[i] == r[..2][i];
    assert forall i :: 3 <= i < 5 ==> r[i] == r[3..][i - 3];
  }

  /** `HH:MM-HH:MM` is already normalised. */
  lemma PlainNormalized(a: int, b: int)
    requires 0 <= a < MinutesPerDay && 0 <= b < MinutesPerDay
    ensures Normalize(FormatClock(a) + "-" + FormatClock(b)) == FormatClock(a) + "-" + FormatClock(b)
  {
    FormatClockChars(a);
    FormatClockChars(b);
    ClockPairClean(FormatClock(a), FormatClock(b));
    CleanNormalized(FormatClock(a) + "-" + FormatClock(b));
  }

  /** Two five-character clock readings joined by a dash hold neither whitespace nor capitals. */
  lemma ClockPairClean(x: string, y: string)
    requires |x| == 5 && |y| == 5 && x[2] == ':' && y[2] == ':'
    requires forall i :: 0 <= i < 5 ==> (IsDigit(x[i]) <==> i != 2)
    requires forall i :: 0 <= i < 5 ==> (IsDigit(y[i]) <==> i != 2)
    ensures var raw := x + "-" + y;
      !IsSpace(raw[0]) && !IsSpace(raw[|raw| - 1]) && forall i :: 0 <= i < |raw| ==> !('A' <= raw[i] <= 'Z')
  {
    var raw := x + "-" + y;
    assert raw[0] == x[0] && raw[10] == y[4];
    forall i | 0 <= i < |raw| ensures !('A' <= raw[i] <= 'Z') {
      if i < 5 {
        assert raw[i] == x[i];
        assert IsDigit(x[i]) || x[i] == x[2];
      } else if 5 < i {
        assert raw[i] == y[i - 6];
        assert IsDigit(y[i - 6]) || y[i - 6] == y[2];
      }
    }
  }

  /** A padded hour and minute convert back to themselves. */
  lemma PlainClock24(minutes: int)
    requires 0 <= minutes < MinutesPerDay
    ensures HourText(Pad2(minutes / 60))
    ensures Clock24(Pad2(minutes / 60), Some(Pad2(minutes % 60)), None) == FormatClock(minutes)
  {
  }

  /** Text that is already 24-hour, `HH:MM-HH:MM`, converts to itself. */
  lemma Convert24Identity(a: int, b: int)
    requires 0 <= a < MinutesPerDay && 0 <= b < MinutesPerDay
    ensures Convert24(FormatClock(a) + "-" + FormatClock(b)) == Some((FormatClock(a), FormatClock(b)))
  {
    var raw := FormatClock(a) + "-" + FormatClock(b);
    PlainClock24(a);
    PlainClock24(b);
    var g := Groups(Pad2(a / 60), Some(Pad2(a % 60)), None, Pad2(b / 60), Some(Pad2(b % 60)), None);
    PlainRender(g.startHour, g.startMinute.value, g.endHour, g.endMinute.value);
    assert raw == Render(g, false, false) + "";
    PlainNormalized(a, b);
    MatchComplete(g, false, false, "");
  }

  /** A one-digit hour without minutes converts to its 24-hour hour, padded, on the hour. */
  lemma OneDigitClock24(d: char, period: Option<string>)
    requires IsDigit(d)
    ensures HourText([d])
    ensures
      var h := Hour24(DigitValue(d), period);
      Clock24([d], None, period) == [DigitChar(h / 10), DigitChar(h % 10), ':', '0', '0']
  {
    assert [d][..0] == [];
    Pad2Digits(Hour24(DigitValue(d), period));
  }

  /** A clean answer that is exactly the text of well-formed groups converts side by side. */
  lemma ConvertsExactly(raw: string, g: Groups, space1: bool, space2: bool)
    requires WellFormed(g) && Stops(g, "") && raw == Render(g, space1, space2)
    requires |raw| > 0 ==> !IsSpace(raw[0]) && !IsSpace(raw[|raw| - 1])
    requires forall i :: 0 <= i < |raw| ==> !('A' <= raw[i] <= 'Z')
    ensures Convert24(raw) == Some((Clock24(g.startHour, g.startMinute, g.startPeriod), Clock24(g.endHour, g.endMinute, g.endPeriod)))
  {
    CleanNormalized(raw);
    ConvertsWithTail(raw, g, space1, space2, "");
  }

  /** An answer whose normalised text is the text of well-formed groups followed by text that cannot
      extend the match converts side by side; whatever follows the match is ignored, as `re.match`
      anchors only at the start. */
  lemma ConvertsWithTail(raw: string, g: Groups, space1: bool, space2: bool, t: string)
    requires WellFormed(g) && Stops(g, t) && Normalize(raw) == RenderWith(g, space1, space2, t)
    ensures Convert24(raw) == Some((Clock24(g.startHour, g.startMinute, g.startPeriod), Clock24(g.endHour, g.endMinute, g.endPeriod)))
  {
    RenderAppend(g, space1, space2, t);
    MatchComplete(g, space1, space2, t);
  }

  /** The clock sides of the documented example. */
  lemma NineAmTwoPmSides()
    ensures Clock24("9", None, Some("am")) == "09:00"
    ensures Clock24("2", None, Some("pm")) == "14:00"
  {
    NineAmSide();
    TwoPmSide();
  }

  lemma NineAmSide()
    ensures Clock24("9", None, Some("am")) == "09:00"
  {
    assert Hour24(9, Some("am")) == 9;
    assert Value("9") == 9 by { assert "9" == [DigitChar(9)]; }
    Pad2Digits(9);
    assert Pad2(9) == "09";
  }

  lemma TwoPmSide()
    ensures Clock24("2", None, Some("pm")) == "14:00"
  {
    assert Value("2") == 2 by { assert "2" == [DigitChar(2)]; }
    assert Hour24(2, Some("pm")) == 14;
    Pad2Digits(14);
    assert Pad2(14) == "14";
  }

  /** The groups of the documented example. */
  lemma NineAmTwoPmGroups()
    ensures WellFormed(Groups("9", None, Some("am"), "2", None, Some("pm")))
    ensures Render(Groups("9", None, Some("am"), "2", None, Some("pm")), false, false) == "9am-2pm"
  {
  }

  /** The documented example: "9am-2pm" gives ("09:00", "14:00"). */
  lemma NineAmToTwoPm()
    ensures Convert24("9am-2pm") == Some(("09:00", "14:00"))
  {
    NineAmTwoPmGroups();
    ConvertsExactly("9am-2pm", Groups("9", None, Some("am"), "2", None, Some("pm")), false, false);
    NineAmTwoPmSides();
  }

  /** Midnight and noon: "12am-12pm" gives ("00:00", "12:00"). */
  lemma TwelveAmToTwelvePm()
    ensures Convert24("12am-12pm") == Some(("00:00", "12:00"))
  {
    TwelveGroups();
    ConvertsExactly("12am-12pm", Groups("12", None, Some("am"), "12", None, Some("pm")), false, false);
    TwelveSides();
  }

  lemma TwelveGroups()
    ensures WellFormed(Groups("12", None, Some("am"), "12", None, Some("pm")))
    ensures Render(Groups("12", None, Some("am"), "12", None, Some("pm")), false, false) == "12am-12pm"
  {
  }

  lemma TwelveSides()
    ensures Clock24("12", None, Some("am")) == "00:00"
    ensures Clock24("12", None, Some("pm")) == "12:00"
  {
    TwelveValue();
    assert Hour24(12, Some("am")) == 0 && Hour24(12, Some("pm")) == 12;
    Pad2Digits(0);
    assert Pad2(0) == "00";
    Pad2Digits(12);
    assert Pad2(12) == "12";
  }

  lemma TwelveValue()
    ensures HourText("12") && Value("12") == 12
  {
    TwoDigitValue("12");
  }

  /** A two-digit hour without minutes converts to its 24-hour hour, padded, on the hour. */
  lemma TwoDigitClock24(d0: char, d1: char, period: Option<string>)
    requires IsDigit(d0) && IsDigit(d1)
    ensures HourText([d0, d1])
    ensures
      var h := Hour24(10 * DigitValue(d0) + DigitValue(d1), period);
      h < 100 ==> Clock24([d0, d1], None, period) == [DigitChar(h / 10), DigitChar(h % 10), ':', '0', '0']
  {
    TwoDigitValue([d0, d1]);
    var h := Hour24(10 * DigitValue(d0) + DigitValue(d1), period);
    assert Clock24([d0, d1], None, period) == Pad2(h) + ":" + "00";
    if h < 100 {
      OnTheHour(h);
    }
  }

  /** A padded hour below 100 followed by `:00`, character by character. */
  lemma OnTheHour(h: nat)
    requires h < 100
    ensures Pad2(h) + ":" + "00" == [DigitChar(h / 10), DigitChar(h % 10), ':', '0', '0']
  {
    Pad2Digits(h);
  }

  /** A bare `a` or `p` after the start hour is matched but not applied: "1p-5pm" gives
      ("01:00", "17:00"), not 13:00. */
  lemma BareSuffixIgnored()
    ensures Convert24("1p-5pm") == Some(("01:00", "17:00"))
  {
    BareSuffixGroups();
    ConvertsExactly("1p-5pm", Groups("1", None, Some("p"), "5", None, Some("pm")), false, false);
    BareSuffixSides();
  }

  lemma BareSuffixSides()
    ensures Clock24("1", None, Some("p")) == "01:00"
    ensures Clock24("5", None, Some("pm")) == "17:00"
  {
    OneBareP();
    FivePm();
  }

  lemma OneBareP()
    ensures Clock24("1", None, Some("p")) == "01:00"
  {
    assert Value("1") == 1 by { assert "1" == [DigitChar(1)]; }
    assert Hour24(1, Some("p")) == 1;
    Pad2Digits(1);
    assert Pad2(1) == "01";
  }

  lemma FivePm()
    ensures Clock24("5", None, Some("pm")) == "17:00"
  {
    assert Value("5") == 5 by { assert "5" == [DigitChar(5)]; }
    assert Hour24(5, Some("pm")) == 17;
    Pad2Digits(17);
    assert Pad2(17) == "17";
  }

  lemma BareSuffixGroups()
    ensures WellFormed(Groups("1", None, Some("p"), "5", None, Some("pm")))
    ensures Render(Groups("1", None, Some("p"), "5", None, Some("pm")), false, false) == "1p-5pm"
  {
  }

  /** Hours are not range-checked: "13pm-1am" gives ("25:00", "01:00"), whose start no `%H:%M`
      reading accepts. */
  lemma ThirteenPm()
    ensures Convert24("13pm-1am") == Some(("25:00", "01:00"))
    ensures ParseClock("25:00") == None
  {
    ThirteenGroups();
    ConvertsExactly("13pm-1am", Groups("13", None, Some("pm"), "1", None, Some("am")), false, false);
    ThirteenSides();
  }

  lemma ThirteenSides()
    ensures Clock24("13", None, Some("pm")) == "25:00"
    ensures Clock24("1", None, Some("am")) == "01:00"
    ensures ParseClock("25:00") == None
  {
    TwoDigitClock24('1', '3', Some("pm"));
    OneDigitClock24('1', Some("am"));
    TwoDigitValue("13");
    Clock24Parses("13", None, Some("pm"));
  }

  lemma ThirteenGroups()
    ensures WellFormed(Groups("13", None, Some("pm"), "1", None, Some("am")))
    ensures Render(Groups("13", None, Some("pm"), "1", None, Some("am")), false, false) == "13pm-1am"
  {
  }

  /** `str.lower()` keeps whitespace whitespace and everything else not whitespace. */
  lemma LowerKeepsSpace(ch: char)
    ensures IsSpace(LowerChar(ch)) <==> IsSpace(ch)
  {
  }

  lemma {:induction false} LeadingSpacesLower(s: string)
    ensures LeadingSpaces(Lower(s)) == LeadingSpaces(s)
    decreases |s|
  {
    if |s| > 0 {
      LowerKeepsSpace(s[0]);
      assert Lower(s)[1..] == Lower(s[1..]);
      LeadingSpacesLower(s[1..]);
    }
  }

  lemma {:induction false} TrailingStartLower(s: string)
    ensures TrailingStart(Lower(s)) == TrailingStart(s)
    decreases |s|
  {
    if |s| > 0 {
      LowerKeepsSpace(s[|s| - 1]);
      assert Lower(s)[..|s| - 1] == Lower(s[..|s| - 1]);
      TrailingStartLower(s[..|s| - 1]);
    }
  }

  /** Stripping and lower-casing can be done in either order. */
  lemma StripLower(s: string)
    ensures Strip(Lower(s)) == Lower(Strip(s))
  {
    var lead := LeadingSpaces(s);
    var rest := s[lead..];
    LeadingSpacesLower(s);
    LowerSlice(s, lead, |s|);
    assert Lower(s)[lead..] == Lower(rest);
    TrailingStartLower(rest);
    LowerSlice(rest, 0, TrailingStart(rest));
    StripParts(s);
    StripParts(Lower(s));
  }

  /** `Strip` keeps what lies between the leading and the trailing whitespace. */
  lemma StripParts(s: string)
    ensures Strip(s) == s[LeadingSpaces(s)..][..TrailingStart(s[LeadingSpaces(s)..])]
  {
  }

  /** Lower-casing commutes with slicing. */
  lemma LowerSlice(u: string, a: int, b: int)
    requires 0 <= a <= b <= |u|
    ensures Lower(u)[a..b] == Lower(u[a..b])
  {
  }

  /** The conversion ignores letter case: an answer and its lower-cased form convert alike. */
  lemma CaseInsensitive(s: string)
    ensures Convert24(Lower(s)) == Convert24(s)
  {
    StripLower(s);
    LowerTwice(Strip(s));
    SameNormal(Lower(s), s);
  }

  lemma LowerTwice(u: string)
    ensures Lower(Lower(u)) == Lower(u)
  {
  }

  /** The conversion sees an answer only through its normalised form. */
  lemma SameNormal(a: string, b: string)
    requires Normalize(a) == Normalize(b)
    ensures Convert24(a) == Convert24(b)
  {
  }

  lemma {:induction false} LeadingSpacesAppend(s: string, t: string)
    requires LeadingSpaces(s) < |s|
    ensures LeadingSpaces(s + t) == LeadingSpaces(s)
    decreases |s|
  {
    if IsSpace(s[0]) {
      assert (s + t)[1..] == s[1..] + t;
      LeadingSpacesAppend(s[1..], t);
    }
  }

  lemma {:induction false} AllSpaces(s: string, t: string)
    requires LeadingSpaces(s) == |s|
    ensures LeadingSpaces(s + t) == |s| + LeadingSpaces(t)
    decreases |s|
  {
    if |s| == 0 {
      assert s + t == t;
    } else {
      assert (s + t)[1..] == s[1..] + t;
      AllSpaces(s[1..], t);
    }
  }

  /** Whitespace before or after an answer changes nothing: `strip` removes it first. */
  lemma SurroundingSpaceIgnored(s: string, ch: char)
    requires IsSpace(ch)
    ensures Strip([ch] + s) == Strip(s) && Strip(s + [ch]) == Strip(s)
    ensures Convert24([ch] + s) == Convert24(s) && Convert24(s + [ch]) == Convert24(s)
  {
    StripLeadingSpace(s, ch);
    StripTrailingSpace(s, ch);
    SameNormal([ch] + s, s);
    SameNormal(s + [ch], s);
  }

  lemma StripLeadingSpace(s: string, ch: char)
    requires IsSpace(ch)
    ensures Strip([ch] + s) == Strip(s)
  {
    assert ([ch] + s)[1..] == s;
  }

  lemma StripTrailingSpace(s: string, ch: char)
    requires IsSpace(ch)
    ensures Strip(s + [ch]) == Strip(s)
  {
    var lead := LeadingSpaces(s);
    var u := s + [ch];
    if lead < |s| {
      LeadingSpacesAppend(s, [ch]);
      assert u[lead..] == s[lead..] + [ch];
      assert (s[lead..] + [ch])[..|s[lead..]|] == s[lead..];
    } else {
      AllSpaces(s, [ch]);
      assert Strip(s) == [];
    }
  }
}
