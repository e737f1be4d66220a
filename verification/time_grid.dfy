/** The week's half-hour time grid (sched_setup.py). A timestamp is an integer number of minutes
    since midnight at the start of the current week's Monday, so weekday `d` at clock time `m`
    is `d * 1440 + m`. */
module TimeGrid {
  import opened Basics
  import opened Clock

  const BlockMinutes := 30

  /** One entry of the opening-hours table: weekday index (0 = Monday) and open/close clock strings. */
  datatype DayHours = DayHours(day: int, open: string, close: string)

  /** The desk's weekly opening hours, in the table's own order. */
  const SunlabHours: seq<DayHours> := [
    DayHours(0, "09:00", "00:00"),
    DayHours(1, "09:00", "00:00"),
    DayHours(2, "09:00", "00:00"),
    DayHours(3, "09:00", "00:00"),
    DayHours(4, "09:00", "22:00"),
    DayHours(5, "12:00", "22:00"),
    DayHours(6, "12:00", "00:00")
  ]

  /** Midnight that starts weekday `day` of the current week: Monday plus `day` days. */
  function DayStart(day: int): int {
    day * MinutesPerDay
  }

  /** The calendar date (as a day index) a timestamp falls on. */
  function Date(t: int): int {
    t / MinutesPerDay
  }

  /** `_get_range_start_end_datetimes`: both clock strings placed on weekday `day`; an end strictly
      earlier than the start is moved to the next day. None when either string is not `%H:%M`. */
  function RangeBounds(day: int, start: string, end: string): (r: Option<(int, int)>)
    ensures r.Some? <==> ParseClock(start).Some? && ParseClock(end).Some?
    ensures r.Some? ==> r.value.0 == DayStart(day) + ParseClock(start).value
    ensures r.Some? ==> r.value.0 <= r.value.1 < r.value.0 + MinutesPerDay
    ensures r.Some? ==> r.value.1 % MinutesPerDay == ParseClock(end).value
  {
    match (ParseClock(start), ParseClock(end))
    case (Some(s), Some(e)) =>
      var startTime := DayStart(day) + s;
      var endTime := DayStart(day) + e;
      if endTime < startTime then Some((startTime, endTime + MinutesPerDay)) else Some((startTime, endTime))
    case _ => None
  }

  /** The span of a range whose clock strings read as `s` and `e` minutes after midnight. */
  lemma RangeBoundsOf(day: int, start: string, end: string, s: int, e: int)
    requires ParseClock(start) == Some(s) && ParseClock(end) == Some(e)
    ensures RangeBounds(day, start, end) == Some((DayStart(day) + s, if e < s then DayStart(day) + e + MinutesPerDay else DayStart(day) + e))
  {
  }

  /** Half-hour block starts from `open` up to `close`: `open + 30 n` for `n` below the whole number
      of half hours between them. */
  function DayBlocks(open: int, close: int): (r: seq<int>)
    requires open <= close
    ensures |r| > 0 ==> r[0] == open
    ensures forall i :: 0 <= i < |r| ==> r[i] + BlockMinutes <= close
    ensures forall i :: 0 <= i < |r| - 1 ==> r[i + 1] == r[i] + BlockMinutes
    ensures open + BlockMinutes * (|r| + 1) > close
  {
    seq((close - open) / BlockMinutes, n => open + BlockMinutes * n)
  }

  /** An open-close span of absolute timestamps, open no later than close. */
  type Span = sp: (int, int) | sp.0 <= sp.1 witness (0, 0)

  /** Reads every entry of the opening-hours table into its span; None as soon as one clock string
      does not parse (strptime raises). */
  function ParseTable(hours: seq<DayHours>): (r: Option<seq<Span>>)
    ensures r.Some? <==> forall i :: 0 <= i < |hours| ==> RangeBounds(hours[i].day, hours[i].open, hours[i].close).Some?
    ensures r.Some? ==> |r.value| == |hours|
    ensures r.Some? ==> forall i :: 0 <= i < |hours| ==> r.value[i] == RangeBounds(hours[i].day, hours[i].open, hours[i].close).value
  {
    if |hours| == 0 then Some([])
    else
      var h := hours[|hours| - 1];
      match ParseTable(hours[..|hours| - 1])
      case None =>
        assert hours[..|hours| - 1] <= hours;
        None
      case Some(earlier) =>
        match RangeBounds(h.day, h.open, h.close)
        case None => None
        case Some(b) =>
          assert forall i :: 0 <= i < |hours| - 1 ==> hours[..|hours| - 1][i] == hours[i];
          Some(earlier + [b])
  }

  /** The blocks of a sequence of spans, span by span. */
  function SpanBlocks(spans: seq<Span>): seq<int> {
    if |spans| == 0 then [] else SpanBlocks(spans[..|spans| - 1]) + DayBlocks(spans[|spans| - 1].0, spans[|spans| - 1].1)
  }

  /** `_generate_time_blocks`: the blocks of every entry, concatenated in table order. None when a
      clock string does not parse. */
  function GenerateBlocks(hours: seq<DayHours>): (r: Option<seq<int>>)
    ensures r.Some? <==> ParseTable(hours).Some?
  {
    match ParseTable(hours)
    case None => None
    case Some(spans) => Some(SpanBlocks(spans))
  }

  /** Each span closes no later than the next one opens. */
  predicate NonOverlapping(spans: seq<Span>) {
    forall i :: 0 <= i < |spans| - 1 ==> spans[i].1 <= spans[i + 1].0
  }

  /** Span `i` has a block starting at `t`. */
  predicate SpanHasBlock(spans: seq<Span>, i: int, t: int)
    requires 0 <= i < |spans|
  {
    spans[i].0 <= t && t + BlockMinutes <= spans[i].1 && (t - spans[i].0) % BlockMinutes == 0
  }

  /** A timestamp is a block of one day exactly when it is a whole number of half hours after the
      open time and a full half hour fits before the close. */
  lemma InDayBlocks(open: int, close: int, t: int)
    requires open <= close
    ensures t in DayBlocks(open, close) <==> open <= t && t + BlockMinutes <= close && (t - open) % BlockMinutes == 0
  {
    var r := DayBlocks(open, close);
    if open <= t && t + BlockMinutes <= close && (t - open) % BlockMinutes == 0 {
      assert r[(t - open) / BlockMinutes] == t;
    }
  }

  /** Every block of the grid comes from some span. */
  lemma {:induction false} BlockHasSpan(spans: seq<Span>, t: int) returns (i: int)
    requires t in SpanBlocks(spans)
    ensures 0 <= i < |spans| && SpanHasBlock(spans, i, t)
  {
    var n := |spans| - 1;
    if t in SpanBlocks(spans[..n]) {
      i := BlockHasSpan(spans[..n], t);
      assert spans[..n][i] == spans[i];
    } else {
      InDayBlocks(spans[n].0, spans[n].1, t);
      i := n;
    }
  }

  /** Every block a span offers appears in the grid. */
  lemma {:induction false} SpanBlockInGrid(spans: seq<Span>, i: int, t: int)
    requires 0 <= i < |spans| && SpanHasBlock(spans, i, t)
    ensures t in SpanBlocks(spans)
  {
    var n := |spans| - 1;
    if i < n {
      assert spans[..n][i] == spans[i];
      SpanBlockInGrid(spans[..n], i, t);
    } else {
      InDayBlocks(spans[n].0, spans[n].1, t);
    }
  }

  /** A timestamp lies in the grid exactly when some span's open time plus a whole number of half
      hours gives it and a full half hour fits before that span's close. */
  lemma GridMembership(spans: seq<Span>, t: int)
    ensures t in SpanBlocks(spans) <==> exists i :: 0 <= i < |spans| && SpanHasBlock(spans, i, t)
  {
    if t in SpanBlocks(spans) {
      var i := BlockHasSpan(spans, t);
    }
    if exists i :: 0 <= i < |spans| && SpanHasBlock(spans, i, t) {
      var i :| 0 <= i < |spans| && SpanHasBlock(spans, i, t);
      SpanBlockInGrid(spans, i, t);
    }
  }

  /** Of two non-overlapping spans, the earlier one opens first and closes before the later opens. */
  lemma {:induction false} SpansOrdered(spans: seq<Span>, i: int, j: int)
    requires NonOverlapping(spans)
    requires 0 <= i <= j < |spans|
    ensures spans[i].0 <= spans[j].0 && spans[i].1 <= spans[j].1
    ensures i < j ==> spans[i].1 <= spans[j].0
    decreases j - i
  {
    if i < j {
      SpansOrdered(spans, i + 1, j);
    }
  }

  /** Before the first span closes, the grid holds exactly that span's blocks: every later span opens
      after it. */
  lemma FirstSpanBlocks(spans: seq<Span>, t: int)
    requires NonOverlapping(spans) && |spans| > 0 && t < spans[0].1
    ensures t in SpanBlocks(spans) <==> t in DayBlocks(spans[0].0, spans[0].1)
  {
    InDayBlocks(spans[0].0, spans[0].1, t);
    if t in SpanBlocks(spans) {
      var i := BlockHasSpan(spans, t);
      SpansOrdered(spans, 0, i);
    }
    if t in DayBlocks(spans[0].0, spans[0].1) {
      SpanBlockInGrid(spans, 0, t);
    }
  }

  /** Every block of non-overlapping spans ends by the close of the last span. */
  lemma BlocksBeforeLastClose(spans: seq<Span>, t: int)
    requires NonOverlapping(spans) && t in SpanBlocks(spans)
    ensures t + BlockMinutes <= spans[|spans| - 1].1
  {
    var i := BlockHasSpan(spans, t);
    SpansOrdered(spans, i, |spans| - 1);
  }

  /** Blocks of non-overlapping spans come out in strictly chronological order: within a span they
      rise by 30 minutes, and each span ends before the next begins. */
  lemma {:induction false} GridChronological(spans: seq<Span>)
    requires NonOverlapping(spans)
    ensures StrictlyIncreasing(SpanBlocks(spans))
  {
    if |spans| > 0 {
      var n := |spans| - 1;
      var init := spans[..n];
      assert NonOverlapping(init) by {
        forall i | 0 <= i < |init| - 1 ensures init[i].1 <= init[i + 1].0 {
          assert init[i] == spans[i] && init[i + 1] == spans[i + 1];
        }
      }
      GridChronological(init);
      var earlier := SpanBlocks(init);
      var lastBlocks := DayBlocks(spans[n].0, spans[n].1);
      var all := earlier + lastBlocks;
      forall i, j | 0 <= i < j < |all| ensures all[i] < all[j] {
        if j < |earlier| {
          assert all[i] == earlier[i] && all[j] == earlier[j];
        } else if i >= |earlier| {
          assert all[i] == lastBlocks[i - |earlier|] && all[j] == lastBlocks[j - |earlier|];
        } else {
          assert all[i] == earlier[i];
          BlocksBeforeLastClose(init, earlier[i]);
          assert init[n - 1] == spans[n - 1];
          assert all[j] == lastBlocks[j - |earlier|];
        }
      }
    }
  }

  /** The grid's size is the sum over spans of the whole half hours each holds. */
  lemma {:induction false} GridSize(spans: seq<Span>)
    ensures |SpanBlocks(spans)| == Sum(seq(|spans|, i requires 0 <= i < |spans| => (spans[i].1 - spans[i].0) / BlockMinutes))
  {
    if |spans| > 0 {
      var n := |spans| - 1;
      GridSize(spans[..n]);
      var counts := seq(|spans|, i requires 0 <= i < |spans| => (spans[i].1 - spans[i].0) / BlockMinutes);
      assert counts[..n] == seq(n, i requires 0 <= i < n => (spans[..n][i].1 - spans[..n][i].0) / BlockMinutes);
    }
  }

  /** The spans of the desk's table: closing at 00:00 means the following midnight. */
  const SunlabSpans: seq<Span> := [(540, 1440), (1980, 2880), (3420, 4320), (4860, 5760), (6300, 7080), (7920, 8520), (9360, 10080)]

  /** The four clock strings of the desk's table. */
  lemma SunlabClocks()
    ensures ParseClock("09:00") == Some(540) && ParseClock("12:00") == Some(720)
    ensures ParseClock("22:00") == Some(1320) && ParseClock("00:00") == Some(0)
  {
    ParseCanonical("09:00");
    ParseCanonical("12:00");
    ParseCanonical("22:00");
    ParseCanonical("00:00");
  }

  /** Entry `i` of the desk's table reads as span `i`; a 00:00 close moves to the next midnight. */
  lemma SunlabEntry(i: int)
    requires 0 <= i < |SunlabHours|
    ensures RangeBounds(SunlabHours[i].day, SunlabHours[i].open, SunlabHours[i].close) == Some(SunlabSpans[i])
  {
    SunlabClocks();
  }

  /** The desk's table parses to those spans. */
  lemma SunlabParses()
    ensures ParseTable(SunlabHours) == Some(SunlabSpans)
  {
    forall i | 0 <= i < |SunlabHours|
      ensures RangeBounds(SunlabHours[i].day, SunlabHours[i].open, SunlabHours[i].close) == Some(SunlabSpans[i])
    {
      SunlabEntry(i);
    }
    var r := ParseTable(SunlabHours).value;
    assert |r| == |SunlabSpans|;
    assert forall i :: 0 <= i < |r| ==> r[i] == SunlabSpans[i];
    assert r == SunlabSpans;
  }

  /** The desk's days do not overlap, so its grid is chronological. */
  lemma SunlabGridChronological()
    ensures GenerateBlocks(SunlabHours) == Some(SpanBlocks(SunlabSpans))
    ensures NonOverlapping(SunlabSpans)
    ensures StrictlyIncreasing(SpanBlocks(SunlabSpans))
  {
    SunlabParses();
    assert NonOverlapping(SunlabSpans) by {
      var h := SunlabSpans;
      assert h[0].1 <= h[1].0 && h[1].1 <= h[2].0 && h[2].1 <= h[3].0;
      assert h[3].1 <= h[4].0 && h[4].1 <= h[5].0 && h[5].1 <= h[6].0;
    }
    GridChronological(SunlabSpans);
  }

  /** Adding a span adds its whole half hours to the grid's size. */
  lemma SpanBlocksStep(spans: seq<Span>, k: int)
    requires 0 <= k < |spans|
    ensures |SpanBlocks(spans[..k + 1])| == |SpanBlocks(spans[..k])| + (spans[k].1 - spans[k].0) / BlockMinutes
  {
    assert spans[..k + 1][..k] == spans[..k];
  }

  /** A day open 09:00 to midnight has 30 blocks, 09:00 to 22:00 has 26, noon to 22:00 has 20, noon
      to midnight has 24, and the whole week has 190. */
  lemma SunlabBlockCounts()
    ensures |DayBlocks(540, 1440)| == 30
    ensures |DayBlocks(6300, 7080)| == 26
    ensures |DayBlocks(7920, 8520)| == 20
    ensures |DayBlocks(9360, 10080)| == 24
    ensures |SpanBlocks(SunlabSpans)| == 190
  {
    var h := SunlabSpans;
    assert h[..0] == [];
    SpanBlocksStep(h, 0);
    SpanBlocksStep(h, 1);
    SpanBlocksStep(h, 2);
    SpanBlocksStep(h, 3);
    SpanBlocksStep(h, 4);
    SpanBlocksStep(h, 5);
    SpanBlocksStep(h, 6);
    assert h[..7] == h;
  }

  /** An open time equal to the close time is not wrapped: that day contributes no blocks. */
  lemma EqualOpenCloseEmpty(day: int, time: string)
    requires ParseClock(time).Some?
    ensures RangeBounds(day, time, time) == Some((DayStart(day) + ParseClock(time).value, DayStart(day) + ParseClock(time).value))
    ensures DayBlocks(RangeBounds(day, time, time).value.0, RangeBounds(day, time, time).value.1) == []
  {
  }
}
