/** The consultant availability matrix (sched_setup.py): one preference level for every
    (consultant, block) cell, built all UNAVAILABLE and then overwritten range by range. */
module Availability {
  import opened Basics
  import opened Clock
  import opened TimeGrid

  /** Preference levels, from the survey's "cannot work" to "would like to work". */
  datatype Pref = Unavailable | NotPreferable | Neutral | Preferable

  /** The integer code each level is stored as. */
  function Level(p: Pref): (n: int)
    ensures 0 <= n <= 3
  {
    match p
    case Unavailable => 0
    case NotPreferable => 1
    case Neutral => 2
    case Preferable => 3
  }

  /** Reads an integer code back as a level; None for a code no level uses. */
  function FromLevel(n: int): (r: Option<Pref>)
    ensures r.Some? <==> 0 <= n <= 3
  {
    if n == 0 then Some(Unavailable)
    else if n == 1 then Some(NotPreferable)
    else if n == 2 then Some(Neutral)
    else if n == 3 then Some(Preferable)
    else None
  }

  /** Codes and levels are in one-to-one correspondence, and codes rise with desirability. */
  lemma LevelCodes(p: Pref, q: Pref)
    ensures FromLevel(Level(p)) == Some(p)
    ensures Level(p) == Level(q) ==> p == q
    ensures p == Unavailable <==> Level(p) == 0
  {
  }

  type Consultant = string

  /** A cell of the matrix: a consultant and a block start. */
  type Cell = (Consultant, int)

  /** The DataFrame: its index (block starts), its columns (consultants) and its cells. */
  datatype Matrix = Matrix(blocks: seq<int>, consultants: seq<Consultant>, pref: map<Cell, Pref>)

  /** Every (column, index) pair. */
  function Cells(consultants: seq<Consultant>, blocks: seq<int>): set<Cell> {
    set c, t | c in consultants && t in blocks :: (c, t)
  }

  /** A DataFrame has a value in every cell and nowhere else. */
  predicate Grid(m: Matrix) {
    m.pref.Keys == Cells(m.consultants, m.blocks)
  }

  /** `setup_consultant_availability_df`: the week's blocks as index, the consultants as columns,
      every cell UNAVAILABLE. None when the opening-hours table does not parse. */
  function Setup(hours: seq<DayHours>, consultants: seq<Consultant>): (r: Option<Matrix>)
    ensures r.Some? <==> ParseTable(hours).Some?
    ensures r.Some? ==> Grid(r.value)
    ensures r.Some? ==> r.value.blocks == GenerateBlocks(hours).value && r.value.consultants == consultants
    ensures r.Some? ==> forall k :: k in r.value.pref ==> r.value.pref[k] == Unavailable
  {
    match GenerateBlocks(hours)
    case None => None
    case Some(blocks) => Some(Matrix(blocks, consultants, map k | k in Cells(consultants, blocks) :: Unavailable))
  }

  /** `searchsorted(x, side="left")`: how many leading blocks lie before `x`. */
  function SearchLeft(blocks: seq<int>, x: int): (r: nat)
    ensures r <= |blocks|
    ensures forall i :: 0 <= i < r ==> blocks[i] < x
    ensures r < |blocks| ==> blocks[r] >= x
  {
    if |blocks| == 0 || blocks[0] >= x then 0 else 1 + SearchLeft(blocks[1..], x)
  }

  /** In a chronological index, exactly the blocks before the search position lie before `x`. */
  lemma SearchLeftSplits(blocks: seq<int>, x: int)
    requires StrictlyIncreasing(blocks)
    ensures forall i :: 0 <= i < |blocks| ==> (blocks[i] < x <==> i < SearchLeft(blocks, x))
  {
    var r := SearchLeft(blocks, x);
    forall i | r <= i < |blocks| ensures blocks[i] >= x {
      if i > r {
        assert blocks[r] < blocks[i];
      }
    }
  }

  /** `df.loc[start : end - 1 microsecond]` on a chronological index: the rows from the first block at
      or after `start` up to the first block at or after `end`. */
  function Slice(blocks: seq<int>, start: int, end: int): (r: seq<int>)
    requires StrictlyIncreasing(blocks) && start <= end
    ensures forall t :: t in r <==> t in blocks && start <= t < end
  {
    SearchLeftSplits(blocks, start);
    SearchLeftSplits(blocks, end);
    var lo := SearchLeft(blocks, start);
    var hi := SearchLeft(blocks, end);
    assert lo <= hi;
    var r := blocks[lo..hi];
    assert forall t :: t in r <==> t in blocks && start <= t < end by {
      forall t ensures t in r <==> t in blocks && start <= t < end {
        if t in blocks {
          var i :| 0 <= i < |blocks| && blocks[i] == t;
          if lo <= i < hi {
            assert r[i - lo] == t;
          }
        }
      }
    }
    r
  }

  /** Writes `level` into column `c` for every listed block, one after another. */
  function SetCells(pref: map<Cell, Pref>, c: Consultant, ts: seq<int>, level: Pref): (r: map<Cell, Pref>)
    ensures forall k :: k in r <==> k in pref || (k.0 == c && k.1 in ts)
    ensures forall k :: k in r ==> r[k] == (if k.0 == c && k.1 in ts then level else pref[k])
    decreases |ts|
  {
    if |ts| == 0 then pref
    else
      var r := SetCells(pref[(c, ts[0]) := level], c, ts[1..], level);
      assert forall t :: t in ts <==> t == ts[0] || t in ts[1..];
      r
  }

  /** The write of `add_consultant_hours_to_df` once the range is known: column `c` takes `level` in
      every block from `b.0` up to, but not including, `b.1`; every other cell keeps its level. */
  function Overwrite(m: Matrix, c: Consultant, b: Span, level: Pref): (r: Matrix)
    requires Grid(m) && StrictlyIncreasing(m.blocks) && c in m.consultants
    ensures Grid(r) && r.blocks == m.blocks && r.consultants == m.consultants
    ensures forall k :: k in r.pref ==> r.pref[k] == (if InRange(k, c, b) then level else m.pref[k])
  {
    m.(pref := SetCells(m.pref, c, Slice(m.blocks, b.0, b.1), level))
  }

  /** `add_consultant_hours_to_df`: sets consultant `c`'s level to `level` in every block from `start`
      up to, but not including, `end` on weekday `day` (an end before the start meaning the next day).
      Other consultants and other blocks keep their levels. None when a clock string does not parse. */
  function AddHours(m: Matrix, c: Consultant, day: int, start: string, end: string, level: Pref): (r: Option<Matrix>)
    requires Grid(m) && StrictlyIncreasing(m.blocks) && c in m.consultants
    ensures r.Some? <==> ParseClock(start).Some? && ParseClock(end).Some?
    ensures r.Some? ==> Grid(r.value) && r.value.blocks == m.blocks && r.value.consultants == m.consultants
    ensures r.Some? ==>
      var s, e := ParseClock(start).value, ParseClock(end).value;
      var lo := DayStart(day) + s;
      var hi := DayStart(day) + e + (if e < s then MinutesPerDay else 0);
      forall k :: k in r.value.pref ==> r.value.pref[k] == (if k.0 == c && lo <= k.1 < hi then level else m.pref[k])
  {
    match RangeBounds(day, start, end)
    case None => None
    case Some(b) =>
      RangeBoundsOf(day, start, end, ParseClock(start).value, ParseClock(end).value);
      Some(Overwrite(m, c, b, level))
  }

  /** Cell `k` belongs to consultant `c` and starts inside the half-open range `[b.0, b.1)`. */
  predicate InRange(k: Cell, c: Consultant, b: (int, int)) {
    k.0 == c && b.0 <= k.1 < b.1
  }

  /** On a grid whose first span is Monday 09:00 to midnight, the only blocks from 09:00 up to 10:00
      are 09:00 and 09:30, and the 10:00 block exists too. */
  lemma MondayNineBlocks(spans: seq<Span>, t: int)
    requires NonOverlapping(spans) && |spans| > 0 && spans[0] == (540, 1440)
    ensures t in SpanBlocks(spans) && 540 <= t < 600 <==> t == 540 || t == 570
    ensures 600 in SpanBlocks(spans)
  {
    if t < 600 {
      FirstSpanBlocks(spans, t);
      InDayBlocks(540, 1440, t);
    }
    FirstSpanBlocks(spans, 600);
    InDayBlocks(540, 1440, 600);
  }

  /** On a freshly built matrix, writing any level but UNAVAILABLE changes exactly the cells of that
      consultant inside the range. */
  lemma FreshOverwriteChanges(m: Matrix, c: Consultant, b: Span, level: Pref)
    requires Grid(m) && StrictlyIncreasing(m.blocks) && c in m.consultants
    requires forall k :: k in m.pref ==> m.pref[k] == Unavailable
    requires level != Unavailable
    ensures
      var r := Overwrite(m, c, b, level);
      forall k :: k in r.pref ==> (r.pref[k] != m.pref[k] <==> InRange(k, c, b))
  {
  }

  /** Writing 09:00 up to 10:00 into a fresh matrix whose first span is Monday 09:00 to midnight
      changes exactly the 09:00 and 09:30 blocks of that consultant; the 10:00 block is untouched. */
  lemma NineToTenOnFresh(m: Matrix, spans: seq<Span>, c: Consultant, level: Pref)
    requires Grid(m) && c in m.consultants && level != Unavailable
    requires forall k :: k in m.pref ==> m.pref[k] == Unavailable
    requires NonOverlapping(spans) && |spans| > 0 && spans[0] == (540, 1440) && m.blocks == SpanBlocks(spans)
    ensures StrictlyIncreasing(m.blocks)
    ensures
      var r := Overwrite(m, c, (540, 600), level);
      (forall k :: k in r.pref ==> (r.pref[k] != m.pref[k] <==> k == (c, 540) || k == (c, 570))) &&
      (c, 600) in r.pref && r.pref[(c, 600)] == Unavailable
  {
    GridChronological(spans);
    var r := Overwrite(m, c, (540, 600), level);
    FreshOverwriteChanges(m, c, (540, 600), level);
    MondayNineBlocks(spans, 600);
    forall k | k in r.pref ensures r.pref[k] != m.pref[k] <==> k == (c, 540) || k == (c, 570) {
      MondayNineBlocks(spans, k.1);
    }
  }

  /** The range of the source's own example, "09:00" to "10:00" on Monday, is 09:00 up to 10:00. */
  lemma NineToTenRange()
    ensures RangeBounds(0, "09:00", "10:00") == Some((540, 600))
  {
    SunlabClocks();
    ParseCanonical("10:00");
    RangeBoundsOf(0, "09:00", "10:00", 540, 600);
  }

  /** The desk's fresh matrix: the week's 190 blocks of non-overlapping spans, every cell UNAVAILABLE. */
  lemma SunlabSetup(consultants: seq<Consultant>)
    ensures Setup(SunlabHours, consultants).Some?
    ensures Setup(SunlabHours, consultants).value.blocks == SpanBlocks(SunlabSpans)
    ensures NonOverlapping(SunlabSpans) && SunlabSpans[0] == (540, 1440)
  {
    SunlabGridChronological();
  }

  /** Two overlapping writes: the later level wins where the ranges meet, the earlier survives where
      only it reached, and everything else keeps its old level. */
  lemma LastWriteWins(m: Matrix, c1: Consultant, b1: Span, l1: Pref, c2: Consultant, b2: Span, l2: Pref)
    requires Grid(m) && StrictlyIncreasing(m.blocks) && c1 in m.consultants && c2 in m.consultants
    ensures
      var m2 := Overwrite(Overwrite(m, c1, b1, l1), c2, b2, l2);
      forall k :: k in m2.pref ==>
        m2.pref[k] == (if InRange(k, c2, b2) then l2 else if InRange(k, c1, b1) then l1 else m.pref[k])
  {
  }

  /** Two maps with the same cells holding the same levels are equal. */
  lemma SameCells(a: map<Cell, Pref>, b: map<Cell, Pref>)
    requires forall k :: k in a <==> k in b
    requires forall k :: k in a ==> a[k] == b[k]
    ensures a == b
  {
  }

  /** Writes for two different consultants, or for two ranges that do not overlap, give the same
      matrix in either order. */
  lemma IndependentWritesCommute(m: Matrix, c1: Consultant, b1: Span, l1: Pref, c2: Consultant, b2: Span, l2: Pref)
    requires Grid(m) && StrictlyIncreasing(m.blocks) && c1 in m.consultants && c2 in m.consultants
    requires c1 != c2 || b1.1 <= b2.0 || b2.1 <= b1.0
    ensures Overwrite(Overwrite(m, c1, b1, l1), c2, b2, l2) == Overwrite(Overwrite(m, c2, b2, l2), c1, b1, l1)
  {
    var x := Overwrite(Overwrite(m, c1, b1, l1), c2, b2, l2);
    var y := Overwrite(Overwrite(m, c2, b2, l2), c1, b1, l1);
    assert x.pref.Keys == m.pref.Keys == y.pref.Keys;
    forall k | k in x.pref ensures x.pref[k] == y.pref[k] {
      assert !(InRange(k, c1, b1) && InRange(k, c2, b2));
    }
    SameCells(x.pref, y.pref);
  }

  /** Writing the same range twice is the same as writing it once. */
  lemma OverwriteIdempotent(m: Matrix, c: Consultant, b: Span, level: Pref)
    requires Grid(m) && StrictlyIncreasing(m.blocks) && c in m.consultants
    ensures Overwrite(Overwrite(m, c, b, level), c, b, level) == Overwrite(m, c, b, level)
  {
    var m1 := Overwrite(m, c, b, level);
    var m2 := Overwrite(m1, c, b, level);
    SameCells(m2.pref, m1.pref);
  }
}
