/** The two printed views of a consolidated schedule: grouped under weekday headings with `%H:%M`
    times, and grouped by consultant with the compact twelve-hour times of `format_time`. */
module Report {
  import opened Basics
  import opened Decimal
  import opened Clock
  import opened Availability
  import opened TimeGrid
  import opened RangeParser
  import opened Runs
  import opened Shifts
  import opened Text

  /** Weekday index of a timestamp, Monday = 0: the schedule's first day is this week's Monday. */
  function Weekday(t: int): (r: int)
    ensures 0 <= r < 7
  {
    Date(t) % 7
  }

  /** `%A` of a weekday index. */
  function DayNameOf(w: int): string {
    match w
    case 0 => "Monday"
    case 1 => "Tuesday"
    case 2 => "Wednesday"
    case 3 => "Thursday"
    case 4 => "Friday"
    case 5 => "Saturday"
    case _ => "Sunday"
  }

  /** `%a` of a weekday index. */
  function DayAbbrevOf(w: int): string {
    match w
    case 0 => "Mon"
    case 1 => "Tue"
    case 2 => "Wed"
    case 3 => "Thu"
    case 4 => "Fri"
    case 5 => "Sat"
    case _ => "Sun"
  }

  /** Reads a weekday name back to its index. */
  function DayIndex(name: string): int {
    if name == "Monday" then 0
    else if name == "Tuesday" then 1
    else if name == "Wednesday" then 2
    else if name == "Thursday" then 3
    else if name == "Friday" then 4
    else if name == "Saturday" then 5
    else 6
  }

  /** Different weekdays have different names, so headings change exactly when the weekday does. */
  lemma DayNamesDistinct(v: int, w: int)
    requires 0 <= v < 7 && 0 <= w < 7
    ensures DayNameOf(v) == DayNameOf(w) <==> v == w
  {
    DayIndexOf(v);
    DayIndexOf(w);
  }

  /** Every weekday name reads back to its own index. */
  lemma DayIndexOf(w: int)
    requires 0 <= w < 7
    ensures DayIndex(DayNameOf(w)) == w
  {
  }

  /** `f"{t:%A}"` */
  function DayName(t: int): string {
    DayNameOf(Weekday(t))
  }

  // ----- by weekday -----

  /** A new heading is printed before a shift whose weekday name differs from the previous one. */
  predicate NewDay(a: Shift, b: Shift) {
    DayName(a.start) != DayName(b.start)
  }

  /** One heading of the weekday view and the shifts listed under it. */
  datatype DayGroup = DayGroup(heading: string, shifts: seq<Shift>)

  /** `print_schedule_by_day`: walks the shifts in order and opens a new heading whenever the
      weekday name changes. */
  function ByDay(shifts: seq<Shift>): (r: seq<DayGroup>)
    ensures |r| == |Pieces(shifts, NewDay)|
    ensures forall k :: 0 <= k < |r| ==>
      r[k].shifts == Pieces(shifts, NewDay)[k] && |r[k].shifts| > 0 && r[k].heading == DayName(r[k].shifts[0].start)
  {
    var ps := Pieces(shifts, NewDay);
    PiecesOuter(shifts, NewDay);
    seq(|ps|, k requires 0 <= k < |ps| => DayGroup(DayName(ps[k][0].start), ps[k]))
  }

  /** The groups list every shift once, in order; every shift sits under its own weekday's heading;
      and neighbouring headings differ. */
  lemma ByDayGroups(shifts: seq<Shift>)
    ensures var g := ByDay(shifts);
      Concat(Pieces(shifts, NewDay)) == shifts
      && (forall k, j :: 0 <= k < |g| && 0 <= j < |g[k].shifts| ==> DayName(g[k].shifts[j].start) == g[k].heading)
      && (forall k :: 0 < k < |g| ==> g[k - 1].heading != g[k].heading)
  {
    var g := ByDay(shifts);
    ConcatPieces(shifts, NewDay);
    forall k, j | 0 <= k < |g| && 0 <= j < |g[k].shifts| ensures DayName(g[k].shifts[j].start) == g[k].heading {
      GroupHeadingAt(shifts, k, j);
    }
    forall k | 0 < k < |g| ensures g[k - 1].heading != g[k].heading {
      GroupsDifferAt(shifts, k);
    }
  }

  /** Every shift of a group has the weekday of the group's first shift. */
  lemma GroupHeadingAt(shifts: seq<Shift>, k: int, j: int)
    requires 0 <= k < |Pieces(shifts, NewDay)| && 0 <= j < |Pieces(shifts, NewDay)[k]|
    ensures DayName(Pieces(shifts, NewDay)[k][j].start) == DayName(Pieces(shifts, NewDay)[k][0].start)
  {
    var run := Pieces(shifts, NewDay)[k];
    forall i | 0 < i < |run| ensures !NewDay(run[i - 1], run[i]) {
      InnerAt(shifts, NewDay, k, i);
    }
    SameHeading(run, j);
  }

  /** Neighbouring groups start on different weekdays. */
  lemma GroupsDifferAt(shifts: seq<Shift>, k: int)
    requires 0 < k < |Pieces(shifts, NewDay)|
    ensures |Pieces(shifts, NewDay)[k - 1]| > 0 && |Pieces(shifts, NewDay)[k]| > 0
    ensures DayName(Pieces(shifts, NewDay)[k - 1][0].start) != DayName(Pieces(shifts, NewDay)[k][0].start)
  {
    OuterAt(shifts, NewDay, k);
    GroupHeadingAt(shifts, k - 1, |Pieces(shifts, NewDay)[k - 1]| - 1);
  }

  /** Along a run with no heading change every shift has the first shift's heading. */
  lemma {:induction false} SameHeading(run: seq<Shift>, j: int)
    requires forall i :: 0 < i < |run| ==> !NewDay(run[i - 1], run[i])
    requires 0 <= j < |run|
    ensures DayName(run[j].start) == DayName(run[0].start)
  {
    if j > 0 {
      SameHeading(run, j - 1);
      assert !NewDay(run[j - 1], run[j]);
    }
  }

  /** A shift list for one week in start order prints each weekday heading at most once. */
  lemma HeadingsOnce(shifts: seq<Shift>)
    requires StartsIncrease(shifts)
    requires forall i :: 0 <= i < |shifts| ==> 0 <= shifts[i].start < 7 * MinutesPerDay
    ensures var g := ByDay(shifts);
      forall k, l :: 0 <= k < l < |g| ==> g[k].heading != g[l].heading
  {
    var g := ByDay(shifts);
    forall k, l | 0 <= k < l < |g| ensures g[k].heading != g[l].heading {
      HeadingsDiffer(shifts, k, l);
    }
  }

  /** Headings `k` and `l` differ: the first shift under heading `l` falls on a later date of the
      same week than the first shift under heading `k`. */
  lemma HeadingsDiffer(shifts: seq<Shift>, k: int, l: int)
    requires StartsIncrease(shifts)
    requires forall i :: 0 <= i < |shifts| ==> 0 <= shifts[i].start < 7 * MinutesPerDay
    requires 0 <= k < l < |ByDay(shifts)|
    ensures ByDay(shifts)[k].heading != ByDay(shifts)[l].heading
  {
    var cuts := Cuts(shifts, NewDay);
    PieceAt(shifts, NewDay, k, 0);
    PieceAt(shifts, NewDay, l, 0);
    var p, q := cuts[k], cuts[l];
    LaterHeadingLaterDate(shifts, k, l);
    WeekdayInWeek(shifts[p].start);
    WeekdayInWeek(shifts[q].start);
    DayNamesDistinct(Weekday(shifts[p].start), Weekday(shifts[q].start));
    assert ByDay(shifts)[k].heading == DayName(shifts[p].start);
    assert ByDay(shifts)[l].heading == DayName(shifts[q].start);
  }

  /** The date strictly increases from one heading to any later one. */
  lemma LaterHeadingLaterDate(shifts: seq<Shift>, k: int, l: int)
    requires StartsIncrease(shifts)
    requires forall i :: 0 <= i < |shifts| ==> 0 <= shifts[i].start < 7 * MinutesPerDay
    requires 0 <= k < l < |Cuts(shifts, NewDay)|
    ensures 0 <= Cuts(shifts, NewDay)[k] < Cuts(shifts, NewDay)[l] < |shifts|
    ensures Date(shifts[Cuts(shifts, NewDay)[k]].start) < Date(shifts[Cuts(shifts, NewDay)[l]].start)
  {
    var cuts := Cuts(shifts, NewDay);
    var p, c, q := cuts[k], cuts[k + 1], cuts[l];
    CutsOrdered(shifts, NewDay, k, k + 1, l);
    PieceBounds(shifts, NewDay, l);
    BreakAtCut(shifts, NewDay, k + 1);
    DateMonotone(shifts, p, c - 1);
    DateMonotone(shifts, c - 1, c);
    NewDayAdvances(shifts[c - 1], shifts[c]);
    DateMonotone(shifts, c, q);
  }

  /** A heading change between two shifts in start order means a later date. */
  lemma NewDayAdvances(a: Shift, b: Shift)
    requires NewDay(a, b) && Date(a.start) <= Date(b.start)
    ensures Date(a.start) < Date(b.start)
  {
  }

  /** Within the first week the weekday index is the date itself. */
  lemma WeekdayInWeek(t: int)
    requires 0 <= t < 7 * MinutesPerDay
    ensures 0 <= Date(t) < 7 && Weekday(t) == Date(t)
  {
  }

  /** Later starts fall on the same or a later date. */
  lemma DateMonotone(shifts: seq<Shift>, i: int, j: int)
    requires StartsIncrease(shifts) && 0 <= i <= j < |shifts|
    requires forall n :: 0 <= n < |shifts| ==> 0 <= shifts[n].start
    ensures Date(shifts[i].start) <= Date(shifts[j].start)
  {
  }

  /** `f"{start:%H:%M}-{end:%H:%M} {consultant}"`; a shift without a consultant prints `None`. */
  function DayLine(sh: Shift): (r: string) {
    FormatClock(sh.start % MinutesPerDay) + "-" + FormatClock(sh.end % MinutesPerDay) + " "
      + (if sh.who.Some? then sh.who.value else "None")
  }

  /** Both clock fields of a weekday-view line read back as the shift's start and end times of day. */
  lemma DayLineTimes(sh: Shift)
    ensures var line := DayLine(sh);
      |line| >= 12 && line[5] == '-' && line[11] == ' '
      && ParseClock(line[..5]) == Some(sh.start % MinutesPerDay)
      && ParseClock(line[6..11]) == Some(sh.end % MinutesPerDay)
  {
    var a, b := FormatClock(sh.start % MinutesPerDay), FormatClock(sh.end % MinutesPerDay);
    var line := DayLine(sh);
    assert line[..5] == a;
    assert line[6..11] == b;
    ParseFormatRoundTrip(sh.start % MinutesPerDay);
    ParseFormatRoundTrip(sh.end % MinutesPerDay);
  }

  // ----- by consultant -----

  /** Some shift is worked by `c`. */
  predicate Assigned(shifts: seq<Shift>, c: Consultant) {
    exists i :: 0 <= i < |shifts| && shifts[i].who == Some(c)
  }

  /** The group keys: every consultant with a shift, in ascending string order, each once; shifts
      without a consultant form no group. */
  function Names(shifts: seq<Shift>): (r: seq<Consultant>)
    ensures Ascending(r)
    ensures forall c :: c in r <==> Assigned(shifts, c)
  {
    if |shifts| == 0 then []
    else
      var init, last := shifts[..|shifts| - 1], shifts[|shifts| - 1];
      var ks := Names(init);
      assert forall c :: Assigned(shifts, c) <==> Assigned(init, c) || last.who == Some(c) by {
        forall c ensures Assigned(shifts, c) <==> Assigned(init, c) || last.who == Some(c) {
          if Assigned(init, c) {
            var i :| 0 <= i < |init| && init[i].who == Some(c);
            assert shifts[i] == init[i];
          }
          if Assigned(shifts, c) && last.who != Some(c) {
            var i :| 0 <= i < |shifts| && shifts[i].who == Some(c);
            assert init[i] == shifts[i];
          }
        }
      }
      if last.who.Some? then InsertKey(ks, last.who.value) else ks
  }

  /** The shifts of `c`, in their order in the schedule. */
  function ShiftsOf(shifts: seq<Shift>, c: Consultant): (r: seq<Shift>)
    ensures forall e :: e in r <==> e in shifts && e.who == Some(c)
    ensures StartsIncrease(shifts) ==> StartsIncrease(r)
  {
    if |shifts| == 0 then []
    else
      var init, last := shifts[..|shifts| - 1], shifts[|shifts| - 1];
      SplitLast(shifts);
      FrontEarlier(shifts);
      var rest := ShiftsOf(init, c);
      if last.who == Some(c) then
        AppendLater(rest, last);
        rest + [last]
      else
        rest
  }

  /** The front of a list with increasing starts has increasing starts, all before the last one. */
  lemma FrontEarlier(s: seq<Shift>)
    requires |s| > 0
    ensures StartsIncrease(s) ==>
      StartsIncrease(s[..|s| - 1]) && forall e :: e in s[..|s| - 1] ==> e.start < s[|s| - 1].start
  {
    if StartsIncrease(s) {
      var init := s[..|s| - 1];
      forall e | e in init ensures e.start < s[|s| - 1].start {
        var i :| 0 <= i < |init| && init[i] == e;
        assert s[i] == e;
      }
    }
  }

  /** Appending a shift that starts after every current one keeps the starts increasing. */
  lemma AppendLater(s: seq<Shift>, x: Shift)
    ensures StartsIncrease(s) && (forall e :: e in s ==> e.start < x.start) ==> StartsIncrease(s + [x])
  {
    if StartsIncrease(s) && forall e :: e in s ==> e.start < x.start {
      var r := s + [x];
      forall i, j | 0 <= i < j < |r| ensures r[i].start < r[j].start {
        if j == |s| {
          assert r[i] == s[i] && s[i] in s;
        }
      }
    }
  }

  /** One consultant's entry of the consultant view. */
  datatype ConsultantGroup = ConsultantGroup(name: Consultant, shifts: seq<Shift>)

  /** `print_schedule_by_consultant`: one group per consultant in ascending name order, each
      listing that consultant's shifts sorted by start. */
  function ByConsultant(shifts: seq<Shift>): (r: seq<ConsultantGroup>)
    ensures |r| == |Names(shifts)|
    ensures forall k :: 0 <= k < |r| ==> r[k].name == Names(shifts)[k]
    ensures forall k :: 0 <= k < |r| ==> SortedByStart(r[k].shifts)
    ensures forall k :: 0 <= k < |r| ==> multiset(r[k].shifts) == multiset(ShiftsOf(shifts, r[k].name))
  {
    var names := Names(shifts);
    seq(|names|, k requires 0 <= k < |names| => ConsultantGroup(names[k], SortByStart(ShiftsOf(shifts, names[k]))))
  }

  /** The consultant view has one group per consultant who works a shift, in ascending order of
      name, and a shift is listed in a group exactly when it is that consultant's. */
  lemma ByConsultantGroups(shifts: seq<Shift>)
    ensures var g := ByConsultant(shifts);
      (forall k, l :: 0 <= k < l < |g| ==> Less(g[k].name, g[l].name))
      && (forall i :: 0 <= i < |shifts| && shifts[i].who.Some? ==>
            exists k :: 0 <= k < |g| && g[k].name == shifts[i].who.value)
      && (forall k, e :: 0 <= k < |g| ==> (e in g[k].shifts <==> e in shifts && e.who == Some(g[k].name)))
  {
    var g := ByConsultant(shifts);
    var names := Names(shifts);
    forall i | 0 <= i < |shifts| && shifts[i].who.Some?
      ensures exists k :: 0 <= k < |g| && g[k].name == shifts[i].who.value
    {
      var c := shifts[i].who.value;
      assert Assigned(shifts, c);
      assert c in names;
      var k :| 0 <= k < |names| && names[k] == c;
      assert g[k].name == c;
    }
    forall k, e | 0 <= k < |g| ensures e in g[k].shifts <==> e in shifts && e.who == Some(g[k].name) {
      assert e in g[k].shifts <==> e in multiset(g[k].shifts);
      assert e in ShiftsOf(shifts, g[k].name) <==> e in multiset(ShiftsOf(shifts, g[k].name));
    }
  }

  /** When the schedule is already in start order, as consolidation leaves it, each consultant's
      shifts are listed exactly in schedule order. */
  lemma ByConsultantInOrder(shifts: seq<Shift>, k: int)
    requires StartsIncrease(shifts) && 0 <= k < |ByConsultant(shifts)|
    ensures ByConsultant(shifts)[k].shifts == ShiftsOf(shifts, ByConsultant(shifts)[k].name)
  {
    var own := ShiftsOf(shifts, ByConsultant(shifts)[k].name);
    SortKeepsSorted(own);
  }

  /** The group keys are fixed by the set of consultants: any ascending arrangement of the same
      consultants is the key list itself. */
  lemma NamesDetermined(shifts: seq<Shift>, keys: seq<Consultant>)
    requires Ascending(keys)
    requires forall c :: c in keys <==> Assigned(shifts, c)
    ensures keys == Names(shifts)
  {
    AscendingUnique(keys, Names(shifts));
  }

  // ----- format_time -----

  /** The twelve-hour clock hour of a 24-hour hour, as `%I` shows it: 12 for midnight and noon. */
  function Hour12(h: int): (r: int)
    requires 0 <= h < 24
    ensures 1 <= r <= 12
    ensures r % 12 == h % 12
  {
    if h % 12 == 0 then 12 else h % 12
  }

  /** `f"{t:%I:%M%p}"` for a time of day in minutes. */
  function Verbose(minutes: int): (r: string)
    requires 0 <= minutes < MinutesPerDay
    ensures |r| == 7 && r[2] == ':' && AllDigits(r[..2]) && AllDigits(r[3..5])
    ensures 1 <= Value(r[..2]) <= 12 && Value(r[..2]) % 12 == minutes / 60 % 12
    ensures Value(r[3..5]) == minutes % 60
    ensures r[5..] == "AM" || r[5..] == "PM"
    ensures r[5..] == "AM" <==> minutes < 720
  {
    var h := minutes / 60;
    var hh, mm, mer := Pad2(Hour12(h)), Pad2(minutes % 60), if h < 12 then "AM" else "PM";
    var r := hh + ":" + mm + mer;
    assert r[..2] == hh && r[3..5] == mm && r[5..] == mer;
    r
  }

  /** `format_time`: `verbose_str.lstrip("0").replace(":00", "").lower()`. */
  function FormatTime(minutes: int): (r: string)
    requires 0 <= minutes < MinutesPerDay
  {
    Lower(ReplaceAll(LStrip(Verbose(minutes), '0'), ":00", ""))
  }

  /** The intended reading of a compact time: the hour without a leading zero, the minutes only when
      they are not zero, then `am` or `pm`. */
  function CompactTime(minutes: int): (r: string)
    requires 0 <= minutes < MinutesPerDay
  {
    var h, m := minutes / 60, minutes % 60;
    Show(Hour12(h)) + (if m == 0 then "" else ":" + Pad2(m)) + (if h < 12 then "am" else "pm")
  }

  /** Padding an hour from 1 to 12 and then stripping leading zeros gives the plain hour. */
  lemma StripPaddedHour(n: int, rest: string)
    requires 1 <= n <= 12
    ensures LStrip(Pad2(n) + rest, '0') == Show(n) + rest
  {
    var sh := Show(n);
    if n < 10 {
      assert sh == [DigitChar(n)];
      assert (Pad2(n) + rest)[1..] == sh + rest;
    }
    assert (sh + rest)[0] == sh[0] != '0';
  }

  /** Digits and colons only: text that lower-casing leaves alone and that holds no letter. */
  predicate Plain(u: string) {
    forall i :: 0 <= i < |u| ==> u[i] == ':' || IsDigit(u[i])
  }

  /** Lower-casing leaves plain text alone. */
  lemma LowerPlain(u: string, w: string)
    requires Plain(u)
    ensures Lower(u + w) == u + Lower(w)
  {
  }

  /** Removing `:00` from a colon, two minute digits and a suffix without colons drops the minutes
      exactly when they are zero. */
  lemma ReplaceMinutes(m: int, mer: string)
    requires 0 <= m < 60 && ':' !in mer
    ensures ReplaceAll(":" + Pad2(m) + mer, ":00", "") == (if m == 0 then "" else ":" + Pad2(m)) + mer
  {
    var tail := ":" + Pad2(m) + mer;
    Pad2Digits(m);
    var d1, d2 := DigitChar(m / 10), DigitChar(m % 10);
    assert tail == [':', d1, d2] + mer;
    if m == 0 {
      assert [':', d1, d2] == ":00";
      ReplaceLeading(mer, ":00", "");
      ReplaceNothing(mer, ":00", "");
    } else {
      assert d1 != '0' || d2 != '0' by {
        assert DigitValue(d1) == m / 10 && DigitValue(d2) == m % 10;
      }
      assert tail[..3] == [':', d1, d2];
      assert tail[1..] == Pad2(m) + mer;
      assert ':' !in Pad2(m) + mer;
      ReplaceNothing(Pad2(m) + mer, ":00", "");
    }
  }

  /** Removing `:00` after a colon-free hour leaves the hour and treats the rest on its own. */
  lemma ReplaceAfterHour(h: string, m: int, mer: string)
    requires ':' !in h && 0 <= m < 60 && ':' !in mer
    ensures ReplaceAll(h + (":" + Pad2(m) + mer), ":00", "") == h + (if m == 0 then "" else ":" + Pad2(m)) + mer
  {
    var kept := if m == 0 then "" else ":" + Pad2(m);
    ReplaceSkips(h, ":" + Pad2(m) + mer, ":00", "");
    ReplaceMinutes(m, mer);
    assert h + (kept + mer) == h + kept + mer;
  }

  /** Stripping the hour's leading zero and removing `:00` from the padded reading. */
  lemma StripAndReplace(hour: int, m: int, mer: string)
    requires 1 <= hour <= 12 && 0 <= m < 60 && ':' !in mer
    ensures ReplaceAll(LStrip(Pad2(hour) + ":" + Pad2(m) + mer, '0'), ":00", "")
      == Show(hour) + (if m == 0 then "" else ":" + Pad2(m)) + mer
  {
    var tail := ":" + Pad2(m) + mer;
    assert Pad2(hour) + ":" + Pad2(m) + mer == Pad2(hour) + tail;
    StripPaddedHour(hour, tail);
    assert ':' !in Show(hour) by {
      assert AllDigits(Show(hour));
    }
    ReplaceAfterHour(Show(hour), m, mer);
  }

  /** The `format_time` pipeline on an hour from 1 to 12, minutes and a colon-free suffix. */
  lemma CompactCore(hour: int, m: int, mer: string)
    requires 1 <= hour <= 12 && 0 <= m < 60 && ':' !in mer
    ensures Lower(ReplaceAll(LStrip(Pad2(hour) + ":" + Pad2(m) + mer, '0'), ":00", ""))
      == Show(hour) + (if m == 0 then "" else ":" + Pad2(m)) + Lower(mer)
  {
    var body := Show(hour) + (if m == 0 then "" else ":" + Pad2(m));
    StripAndReplace(hour, m, mer);
    PlainClock(hour, m);
    LowerPlain(body, mer);
  }

  /** The hour and the kept minutes are digits and a colon only. */
  lemma PlainClock(hour: int, m: int)
    requires 1 <= hour <= 12 && 0 <= m < 60
    ensures Plain(Show(hour) + (if m == 0 then "" else ":" + Pad2(m)))
  {
    var h, kept := Show(hour), if m == 0 then "" else ":" + Pad2(m);
    assert AllDigits(h) && AllDigits(Pad2(m));
    assert Plain(kept);
    forall i | 0 <= i < |h + kept| ensures (h + kept)[i] == ':' || IsDigit((h + kept)[i]) {
      if i >= |h| {
        assert (h + kept)[i] == kept[i - |h|];
      }
    }
  }

  /** `%p` lower-cased. */
  lemma LowerMeridiem()
    ensures Lower("AM") == "am" && Lower("PM") == "pm"
    ensures ':' !in "AM" && ':' !in "PM"
  {
  }

  /** `format_time` produces the compact reading for every time of day. */
  lemma FormatTimeCompact(minutes: int)
    requires 0 <= minutes < MinutesPerDay
    ensures FormatTime(minutes) == CompactTime(minutes)
  {
    var h := minutes / 60;
    LowerMeridiem();
    CompactCore(Hour12(h), minutes % 60, if h < 12 then "AM" else "PM");
  }

  /** Nine in the morning prints as `9am`. */
  lemma NineAm()
    ensures FormatTime(540) == "9am"
  {
    FormatTimeCompact(540);
    CompactNine();
  }

  /** The compact reading of 09:00: hour 9, no minutes, morning. */
  lemma CompactNine()
    ensures CompactTime(540) == "9am"
  {
    assert 540 / 60 == 9 && 540 % 60 == 0;
    assert Hour12(9) == 9;
    assert Show(9) == "9";
    assert "9" + "" + "am" == "9am";
  }

  /** Half past two in the afternoon prints as `2:30pm`. */
  lemma HalfPastTwoPm()
    ensures FormatTime(870) == "2:30pm"
  {
    FormatTimeCompact(870);
    CompactHalfPastTwo();
  }

  /** The compact reading of 14:30: hour 2 on the twelve-hour clock, minutes kept, afternoon. */
  lemma CompactHalfPastTwo()
    ensures CompactTime(870) == "2:30pm"
  {
    assert 870 / 60 == 14 && 870 % 60 == 30;
    assert Hour12(14) == 2;
    assert Show(2) == "2";
    Pad2Digits(30);
    assert Pad2(30) == "30";
    assert "2" + (":" + "30") + "pm" == "2:30pm";
  }

  /** Midnight prints as `12am` and noon as `12pm`. */
  lemma MidnightAndNoon()
    ensures FormatTime(0) == "12am"
    ensures FormatTime(720) == "12pm"
  {
    FormatTimeCompact(0);
    FormatTimeCompact(720);
    CompactTwelve();
  }

  /** The compact readings of 00:00 and 12:00: both show hour 12, told apart only by the meridiem. */
  lemma CompactTwelve()
    ensures CompactTime(0) == "12am" && CompactTime(720) == "12pm"
  {
    assert 0 / 60 == 0 && 720 / 60 == 12 && 0 % 60 == 0 && 720 % 60 == 0;
    assert Hour12(0) == 12 && Hour12(12) == 12;
    assert Show(12) == Show(1) + [DigitChar(2)];
    assert Show(1) == "1";
    assert Show(12) == "12";
    assert "12" + "" + "am" == "12am" && "12" + "" + "pm" == "12pm";
  }

  /** `f"{start:%a} {format_time(start)}-{format_time(end)}"`. */
  function ConsultantLine(sh: Shift): (r: string) {
    DayAbbrevOf(Weekday(sh.start)) + " " + FormatTime(sh.start % MinutesPerDay) + "-" + FormatTime(sh.end % MinutesPerDay)
  }

  /** A consultant-view line is the weekday abbreviation, then the compact start and end times. */
  lemma ConsultantLineCompact(sh: Shift)
    ensures ConsultantLine(sh) == DayAbbrevOf(Weekday(sh.start)) + " " + CompactTime(sh.start % MinutesPerDay)
      + "-" + CompactTime(sh.end % MinutesPerDay)
  {
    FormatTimeCompact(sh.start % MinutesPerDay);
    FormatTimeCompact(sh.end % MinutesPerDay);
  }
}
