/** The solved schedule as the formatter sees it: each time block's assigned consultant, and each
    maximal run of consecutive blocks worked by one consultant consolidated into a single shift. */
module Shifts {
  import opened Basics
  import opened TimeGrid
  import opened Availability
  import opened ScheduleModel
  import opened Runs

  /** One row of the filled table: a block's start time and the consultant written into it, if any. */
  datatype Row = Row(time: int, who: Option<Consultant>)

  /** One consolidated shift: who works it, the start of its first block and the end of its last. */
  datatype Shift = Shift(who: Option<Consultant>, start: int, end: int)

  /** The consultant a block ends up with once the assignments have been written in variable order
      (consultant by consultant, in column order): every consultant whose variable equals 1
      overwrites the cell, so the last such consultant wins, and an untouched cell stays None. */
  function LastAssigned(v: map<Cell, int>, cs: seq<Consultant>, t: int): (r: Option<Consultant>)
    ensures r.Some? ==> r.value in cs && Value(v, r.value, t) == 1
    ensures r.None? <==> forall c :: c in cs ==> Value(v, c, t) != 1
  {
    if |cs| == 0 then None
    else
      var init, last := cs[..|cs| - 1], cs[|cs| - 1];
      assert forall c :: c in cs <==> c in init || c == last;
      if Value(v, last, t) == 1 then Some(last)
      else LastAssigned(v, init, t)
  }

  /** The cell holds the last of the consultants on duty at that block, in column order. */
  lemma {:induction false} LastAssignedIsLastOnDuty(v: map<Cell, int>, cs: seq<Consultant>, t: int)
    ensures var on := OnDuty(v, cs, t);
      LastAssigned(v, cs, t) == if |on| == 0 then None else Some(on[|on| - 1])
  {
    if |cs| > 0 {
      LastAssignedIsLastOnDuty(v, cs[..|cs| - 1], t);
    }
  }

  /** The table after the assignments are written: one row per block, in index order. */
  function Fill(m: Matrix, x: map<Cell, int>): (r: seq<Row>)
    ensures |r| == |m.blocks|
    ensures forall i :: 0 <= i < |r| ==> r[i].time == m.blocks[i]
    ensures forall i :: 0 <= i < |r| ==>
      (r[i].who.None? <==> forall c :: c in m.consultants ==> Value(x, c, m.blocks[i]) != 1)
    ensures forall i :: 0 <= i < |r| && r[i].who.Some? ==>
      r[i].who.value in m.consultants && Value(x, r[i].who.value, m.blocks[i]) == 1
  {
    seq(|m.blocks|, i requires 0 <= i < |m.blocks| =>
      Row(m.blocks[i], LastAssigned(x, m.consultants, m.blocks[i])))
  }

  /** Under a valid schedule every block's row names a consultant, and that consultant is the only
      one on duty there and is available for the block. */
  lemma FillValid(m: Matrix, b: Bounds, s: Solution, i: int)
    requires Valid(m, b, s) && 0 <= i < |m.blocks|
    ensures Fill(m, s.x)[i].who.Some?
    ensures OnDuty(s.x, m.consultants, m.blocks[i]) == [Fill(m, s.x)[i].who.value]
    ensures var c := Fill(m, s.x)[i].who.value;
      (c, m.blocks[i]) in m.pref && m.pref[(c, m.blocks[i])] != Unavailable
  {
    var t := m.blocks[i];
    ExactlyOneOnDuty(m, b, s, t);
    LastAssignedIsLastOnDuty(s.x, m.consultants, t);
    var on := OnDuty(s.x, m.consultants, t);
    assert on == [on[0]];
    assert on[0] in on;
  }

  /** Comparison of two cells of the consultant column: a missing value (None) is unequal to
      everything, itself included, as pandas compares missing values. */
  predicate Differs(a: Option<Consultant>, b: Option<Consultant>) {
    a.None? || b.None? || a != b
  }

  /** A new shift starts at `next` when the consultant changes or more than a block's length passes
      between the two rows' start times. */
  predicate Break(prev: Row, next: Row) {
    Differs(prev.who, next.who) || next.time - prev.time > BlockMinutes
  }

  /** Consecutive rows of a run never break. */
  predicate Linked(run: seq<Row>) {
    forall i :: 0 < i < |run| ==> !Break(run[i - 1], run[i])
  }

  /** Rows in strictly increasing time order. */
  predicate Chronological(rows: seq<Row>) {
    forall i, j :: 0 <= i < j < |rows| ==> rows[i].time < rows[j].time
  }

  /** A run as a shift: the consultant of its first row, the start of its first block and the end
      of its last block (the last start plus one block). */
  function ShiftOf(run: seq<Row>): (r: Shift)
    requires |run| > 0
    ensures r.end - r.start == run[|run| - 1].time - run[0].time + BlockMinutes
  {
    Shift(run[0].who, run[0].time, run[|run| - 1].time + BlockMinutes)
  }

  /** One shift per maximal run of rows, in row order. */
  function Grouped(rows: seq<Row>): (r: seq<Shift>)
    ensures |r| == |Pieces(rows, Break)|
    ensures forall k :: 0 <= k < |r| ==> |Pieces(rows, Break)[k]| > 0 && r[k] == ShiftOf(Pieces(rows, Break)[k])
  {
    var runs := Pieces(rows, Break);
    PiecesOuter(rows, Break);
    seq(|runs|, k requires 0 <= k < |runs| => ShiftOf(runs[k]))
  }

  /** Shifts ordered by start time. */
  predicate SortedByStart(s: seq<Shift>) {
    forall i, j :: 0 <= i < j < |s| ==> s[i].start <= s[j].start
  }

  /** Start times strictly increase. */
  predicate StartsIncrease(s: seq<Shift>) {
    forall i, j :: 0 <= i < j < |s| ==> s[i].start < s[j].start
  }

  /** Appending an element that starts no earlier than everything before it keeps the order. */
  lemma Extend(s: seq<Shift>, x: Shift)
    requires SortedByStart(s)
    requires forall e :: e in s ==> e.start <= x.start
    ensures SortedByStart(s + [x])
  {
    var r := s + [x];
    forall i, j | 0 <= i < j < |r| ensures r[i].start <= r[j].start {
      if j == |s| {
        assert r[i] == s[i] && s[i] in s;
      }
    }
  }

  /** Places `x` into a sorted sequence after every element that starts no later than it. */
  function Insert(s: seq<Shift>, x: Shift): (r: seq<Shift>)
    requires SortedByStart(s)
    ensures SortedByStart(r)
    ensures multiset(r) == multiset(s) + multiset{x}
    ensures forall e :: e in r ==> e == x || e in s
  {
    if |s| == 0 || s[|s| - 1].start <= x.start then
      Extend(s, x);
      s + [x]
    else
      var init, last := s[..|s| - 1], s[|s| - 1];
      SplitLast(s);
      FrontNoLater(s);
      var ins := Insert(init, x);
      Extend(ins, last);
      ins + [last]
  }

  /** The front of a sorted sequence is sorted and starts no later than its last element. */
  lemma FrontNoLater(s: seq<Shift>)
    requires SortedByStart(s) && |s| > 0
    ensures SortedByStart(s[..|s| - 1])
    ensures forall e :: e in s[..|s| - 1] ==> e.start <= s[|s| - 1].start
  {
    var init := s[..|s| - 1];
    forall e | e in init ensures e.start <= s[|s| - 1].start {
      var i :| 0 <= i < |init| && init[i] == e;
      assert s[i] == e;
    }
  }

  /** `sort_values("start")`: the shifts rearranged into start order. */
  function SortByStart(s: seq<Shift>): (r: seq<Shift>)
    ensures SortedByStart(r)
    ensures multiset(r) == multiset(s)
  {
    if |s| == 0 then []
    else
      SplitLast(s);
      Insert(SortByStart(s[..|s| - 1]), s[|s| - 1])
  }

  /** Sorting an already sorted sequence leaves it unchanged. */
  lemma {:induction false} SortKeepsSorted(s: seq<Shift>)
    requires SortedByStart(s)
    ensures SortByStart(s) == s
  {
    if |s| > 0 {
      var init, last := s[..|s| - 1], s[|s| - 1];
      SplitLast(s);
      FrontNoLater(s);
      SortKeepsSorted(init);
      if |init| > 0 {
        assert init[|init| - 1] in init;
      }
      assert Insert(init, last) == init + [last];
    }
  }

  /** Of two sorted arrangements of the same shifts, the one whose starts strictly increase shares
      its first element with the other. */
  lemma SameHead(a: seq<Shift>, b: seq<Shift>)
    requires |a| > 0 && StartsIncrease(a) && SortedByStart(b) && multiset(a) == multiset(b)
    ensures |b| > 0 && b[0] == a[0]
  {
    assert a[0] in multiset(b);
    assert b[0] in multiset(a);
    var i :| 0 <= i < |b| && b[i] == a[0];
    var j :| 0 <= j < |a| && a[j] == b[0];
    assert b[0].start <= a[0].start;
  }

  /** Two sorted arrangements of the same shifts coincide when no two shifts start together, so
      any sorting algorithm, stable or not, gives the same result on such input. */
  lemma {:induction false} SortedArrangementUnique(a: seq<Shift>, b: seq<Shift>)
    requires StartsIncrease(a) && SortedByStart(b) && multiset(a) == multiset(b)
    ensures a == b
    decreases |a|
  {
    if |a| > 0 {
      SameHead(a, b);
      DropSameHead(a, b);
      TailsOrdered(a, b);
      SortedArrangementUnique(a[1..], b[1..]);
      assert a == [a[0]] + a[1..];
      assert b == [b[0]] + b[1..];
    } else {
      assert |b| == |multiset(b)| == 0;
    }
  }

  /** Removing an equal first element from two arrangements of the same elements leaves two
      arrangements of the same elements. */
  lemma DropSameHead<T>(a: seq<T>, b: seq<T>)
    requires |a| > 0 && |b| > 0 && a[0] == b[0] && multiset(a) == multiset(b)
    ensures multiset(a[1..]) == multiset(b[1..])
  {
    assert a == [a[0]] + a[1..];
    assert b == [b[0]] + b[1..];
    assert multiset(a[1..]) == multiset(a) - multiset{a[0]};
    assert multiset(b[1..]) == multiset(b) - multiset{b[0]};
  }

  /** Both orderings survive dropping the first element. */
  lemma TailsOrdered(a: seq<Shift>, b: seq<Shift>)
    requires |a| > 0 && |b| > 0 && StartsIncrease(a) && SortedByStart(b)
    ensures StartsIncrease(a[1..]) && SortedByStart(b[1..])
  {
  }

  /** `_consolidate_shifts`: group the rows into runs, turn each run into a shift, sort by start. */
  function Consolidate(rows: seq<Row>): (r: seq<Shift>)
    ensures SortedByStart(r)
    ensures multiset(r) == multiset(Grouped(rows))
  {
    SortByStart(Grouped(rows))
  }

  /** Every row of a run carries the run's consultant, and a run of more than one row names a
      consultant: a row without one is a shift of its own. */
  lemma {:induction false} RunShared(run: seq<Row>, j: int)
    requires Linked(run) && 0 <= j < |run|
    ensures run[j].who == run[0].who
    ensures |run| > 1 ==> run[0].who.Some?
  {
    if |run| > 1 {
      assert !Break(run[0], run[1]);
    }
    if j > 0 {
      RunShared(run, j - 1);
      assert !Break(run[j - 1], run[j]);
    }
  }

  /** When every start time lies on the same half-hour phase, consecutive rows of a run are exactly
      one block apart, so the `j`-th row starts `j` blocks after the first. */
  lemma {:induction false} RunSpan(run: seq<Row>, phase: int, j: int)
    requires Linked(run) && Chronological(run) && 0 <= j < |run|
    requires forall i :: 0 <= i < |run| ==> run[i].time % BlockMinutes == phase
    ensures run[j].time == run[0].time + BlockMinutes * j
  {
    if j > 0 {
      RunSpan(run, phase, j - 1);
      var a, b := run[j - 1].time, run[j].time;
      assert !Break(run[j - 1], run[j]);
      assert a < b <= a + BlockMinutes;
      assert a == BlockMinutes * (a / BlockMinutes) + phase;
      assert b == BlockMinutes * (b / BlockMinutes) + phase;
    }
  }

  /** A slice of rows in time order is in time order. */
  lemma SliceChronological(rows: seq<Row>, lo: int, hi: int)
    requires Chronological(rows) && 0 <= lo <= hi <= |rows|
    ensures Chronological(rows[lo..hi])
  {
  }

  /** The `k`-th run is a non-empty slice of the rows between two cuts: it is linked and inherits
      the rows' order. */
  lemma RunOfRows(rows: seq<Row>, k: int)
    requires 0 <= k < |Pieces(rows, Break)|
    ensures var run := Pieces(rows, Break)[k];
      |run| > 0 && Linked(run) && (Chronological(rows) ==> Chronological(run))
  {
    PieceNonEmpty(rows, Break, k);
    PiecesInner(rows, Break);
    var cuts := Cuts(rows, Break);
    CutsShape(rows, Break);
    if Chronological(rows) {
      SliceChronological(rows, cuts[k], PieceEnd(|rows|, cuts, k));
    }
  }

  /** Each row belongs to the shift of its run: it carries that shift's consultant and, with rows in
      time order, starts inside the shift's interval. */
  lemma ShiftCovers(rows: seq<Row>, k: int, j: int)
    requires 0 <= k < |Grouped(rows)| && 0 <= j < |Pieces(rows, Break)[k]|
    ensures var row := Pieces(rows, Break)[k][j];
      row.who == Grouped(rows)[k].who
      && (Chronological(rows) ==> Grouped(rows)[k].start <= row.time < Grouped(rows)[k].end)
  {
    var run := Pieces(rows, Break)[k];
    RunOfRows(rows, k);
    RunCovers(run, j);
    assert Grouped(rows)[k] == ShiftOf(run);
  }

  /** A row of a run carries the run's consultant and, in time order, starts inside its shift. */
  lemma RunCovers(run: seq<Row>, j: int)
    requires Linked(run) && 0 <= j < |run|
    ensures run[j].who == ShiftOf(run).who
    ensures Chronological(run) ==> ShiftOf(run).start <= run[j].time < ShiftOf(run).end
  {
    RunShared(run, j);
    if Chronological(run) && 0 < j < |run| - 1 {
      assert run[0].time < run[j].time < run[|run| - 1].time;
    }
  }

  /** A shift without a consultant covers exactly one block. */
  lemma UnassignedAlone(rows: seq<Row>, k: int)
    requires 0 <= k < |Grouped(rows)| && Grouped(rows)[k].who.None?
    ensures |Pieces(rows, Break)[k]| == 1
    ensures Grouped(rows)[k].end == Grouped(rows)[k].start + BlockMinutes
  {
    var run := Pieces(rows, Break)[k];
    RunOfRows(rows, k);
    RunShared(run, 0);
  }

  /** Two neighbouring shifts of the same consultant never touch: the later one starts strictly
      after the earlier one ends, because otherwise the rows would have formed a single run. */
  lemma SameConsultantApart(rows: seq<Row>, k: int)
    requires 0 < k < |Grouped(rows)|
    requires Grouped(rows)[k - 1].who.Some? && Grouped(rows)[k - 1].who == Grouped(rows)[k].who
    ensures Grouped(rows)[k].start > Grouped(rows)[k - 1].end
  {
    var ps := Pieces(rows, Break);
    var prev := ps[k - 1];
    PiecesOuter(rows, Break);
    RunOfRows(rows, k - 1);
    RunShared(prev, |prev| - 1);
    assert Break(prev[|prev| - 1], ps[k][0]);
  }

  /** With rows in time order the shifts come out in start order, so sorting by start changes
      nothing and consolidation lists the runs as they occur. */
  lemma ConsolidateInOrder(rows: seq<Row>)
    requires Chronological(rows)
    ensures StartsIncrease(Grouped(rows))
    ensures Consolidate(rows) == Grouped(rows)
  {
    var g := Grouped(rows);
    var cuts := Cuts(rows, Break);
    forall a, b | 0 <= a < b < |g| ensures g[a].start < g[b].start {
      ShiftStart(rows, a);
      ShiftStart(rows, b);
      assert cuts[a] < cuts[b];
    }
    SortKeepsSorted(g);
  }

  /** A shift starts at the time of the row at its run's cut. */
  lemma ShiftStart(rows: seq<Row>, k: int)
    requires 0 <= k < |Grouped(rows)|
    ensures 0 <= Cuts(rows, Break)[k] < |rows|
    ensures Grouped(rows)[k].start == rows[Cuts(rows, Break)[k]].time
  {
    PieceAt(rows, Break, k, 0);
  }

  /** Shift `k` has the consultant and start of the row at its cut, and ends one block after the
      start of the last row before the next cut. */
  lemma ShiftBounds(rows: seq<Row>, k: int)
    requires 0 <= k < |Grouped(rows)|
    ensures 0 <= Cuts(rows, Break)[k] < PieceEnd(|rows|, Cuts(rows, Break), k) <= |rows|
    ensures Grouped(rows)[k].who == rows[Cuts(rows, Break)[k]].who
    ensures Grouped(rows)[k].start == rows[Cuts(rows, Break)[k]].time
    ensures Grouped(rows)[k].end == rows[PieceEnd(|rows|, Cuts(rows, Break), k) - 1].time + BlockMinutes
  {
    var run := Pieces(rows, Break)[k];
    PieceEnds(rows, Break, k);
    ShiftOfFields(run);
  }

  /** The fields of a run's shift. */
  lemma ShiftOfFields(run: seq<Row>)
    requires |run| > 0
    ensures ShiftOf(run).who == run[0].who && ShiftOf(run).start == run[0].time
    ensures ShiftOf(run).end == run[|run| - 1].time + BlockMinutes
  {
  }

  /** When every row breaks from the one before (the consultant changes at every block, or the
      blocks are apart), every block is a shift of its own. */
  lemma AlternatingOnePerBlock(rows: seq<Row>)
    requires forall i :: 0 < i < |rows| ==> Break(rows[i - 1], rows[i])
    ensures |Grouped(rows)| == |rows|
    ensures forall k :: 0 <= k < |rows| ==> Pieces(rows, Break)[k] == [rows[k]]
    ensures forall k :: 0 <= k < |rows| ==>
      Grouped(rows)[k] == Shift(rows[k].who, rows[k].time, rows[k].time + BlockMinutes)
  {
    AllBreaks(rows, Break);
  }

  /** A shift of `K` blocks lasts `K` half-hours when every block starts on the same half-hour
      phase, as the blocks generated from one set of opening hours do. */
  lemma ShiftLength(rows: seq<Row>, k: int, phase: int)
    requires Chronological(rows) && 0 <= k < |Grouped(rows)|
    requires forall i :: 0 <= i < |rows| ==> rows[i].time % BlockMinutes == phase
    ensures Grouped(rows)[k].end - Grouped(rows)[k].start == BlockMinutes * |Pieces(rows, Break)[k]|
  {
    var run := Pieces(rows, Break)[k];
    RunOfRows(rows, k);
    forall i | 0 <= i < |run| ensures run[i].time % BlockMinutes == phase {
      PieceAt(rows, Break, k, i);
    }
    RunSpan(run, phase, |run| - 1);
  }

  /** Where the `j`-th row of the `k`-th run sits among all rows; it carries the shift's consultant. */
  lemma RowIndex(rows: seq<Row>, k: int, j: int) returns (i: int)
    requires 0 <= k < |Pieces(rows, Break)| && 0 <= j < |Pieces(rows, Break)[k]|
    ensures 0 <= i < |rows| && rows[i] == Pieces(rows, Break)[k][j]
    ensures rows[i].who == Grouped(rows)[k].who
  {
    i := PieceIndex(rows, Break, k, j);
    ShiftWho(rows, k, j);
  }

  /** Every row of a run carries its shift's consultant. */
  lemma ShiftWho(rows: seq<Row>, k: int, j: int)
    requires 0 <= k < |Pieces(rows, Break)| && 0 <= j < |Pieces(rows, Break)[k]|
    ensures Pieces(rows, Break)[k][j].who == Grouped(rows)[k].who
  {
    var run := Pieces(rows, Break)[k];
    PiecesInner(rows, Break);
    RunShared(run, j);
  }

  /** Under a valid schedule every consolidated shift names a consultant, and that consultant is
      the one on duty in every block the shift covers. */
  lemma ValidShiftsStaffed(m: Matrix, b: Bounds, s: Solution, k: int, j: int)
    requires Valid(m, b, s)
    requires 0 <= k < |Grouped(Fill(m, s.x))| && 0 <= j < |Pieces(Fill(m, s.x), Break)[k]|
    ensures var sh := Grouped(Fill(m, s.x))[k];
      var row := Pieces(Fill(m, s.x), Break)[k][j];
      sh.who.Some? && OnDuty(s.x, m.consultants, row.time) == [sh.who.value]
  {
    var i := RowIndex(Fill(m, s.x), k, j);
    FillValid(m, b, s, i);
  }
}
