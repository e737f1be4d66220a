/** The scheduling integer program of lp.py, stated as what a solution must satisfy rather than how
    a solver finds one. A solution gives every available (consultant, block) cell a 0/1 variable
    `x` (1 = on duty) and every such cell except those of the week's last block a 0/1 variable
    `y` that is pushed to 1 when the consultant's duty changes at the next block of the same day.
    A solution is Valid when it meets every constraint the program adds; the solver minimises
    Cost over Valid solutions. */
module ScheduleModel {
  import opened Basics
  import opened TimeGrid
  import opened Availability

  const ConsultantMinHours := 2
  const ConsultantMaxHours := 10
  /** At most five hours a day, counted in half-hour blocks. */
  const DailyMaxBlocks := 10
  const ShiftChangePenalty := 6

  /** What putting a consultant on a block at a given preference costs: nothing when preferred,
      1 when neutral, 4 when not preferred, 100 when unavailable (no variable exists then). */
  function PreferenceCost(p: Pref): nat {
    match p
    case Preferable => 0
    case Neutral => 1
    case NotPreferable => 4
    case Unavailable => 100
  }

  /** The better a consultant likes a block, the cheaper it is to schedule them there. */
  lemma PreferenceCostOrder(p: Pref, q: Pref)
    ensures Level(p) < Level(q) <==> PreferenceCost(p) > PreferenceCost(q)
  {
  }

  /** The weekly block limits: the generic 2 to 10 hours, or per-consultant pairs. */
  datatype Bounds = Generic | PerConsultant(limits: map<Consultant, (int, int)>)

  /** A consultant's (minimum, maximum) number of weekly blocks; None when the per-consultant
      table has no entry for them (a KeyError). */
  function Limits(b: Bounds, c: Consultant): (r: Option<(int, int)>)
    ensures b.Generic? ==> r == Some((4, 20))
    ensures b.PerConsultant? ==> (r.Some? <==> c in b.limits) && (r.Some? ==> r.value == b.limits[c])
  {
    match b
    case Generic => Some((ConsultantMinHours * 2, ConsultantMaxHours * 2))
    case PerConsultant(limits) => if c in limits then Some(limits[c]) else None
  }

  /** Values for the duty variables `x` and the change variables `y`. */
  datatype Solution = Solution(x: map<Cell, int>, y: map<Cell, int>)

  /** The cells that get a duty variable: those not UNAVAILABLE. */
  function Vars(m: Matrix): set<Cell> {
    set k | k in m.pref && m.pref[k] != Unavailable
  }

  /** The cells that get a change variable: duty cells not on the index's last block. */
  function YVars(m: Matrix): set<Cell> {
    set k | k in Vars(m) && |m.blocks| > 0 && k.1 != m.blocks[|m.blocks| - 1]
  }

  /** A variable's value, 0 where no variable exists. */
  function Value(v: map<Cell, int>, c: Consultant, t: int): int {
    if (c, t) in v then v[(c, t)] else 0
  }

  /** Sum over the listed blocks of consultant `c`'s values. */
  function RowSum(v: map<Cell, int>, c: Consultant, ts: seq<int>): int {
    if |ts| == 0 then 0 else RowSum(v, c, ts[..|ts| - 1]) + Value(v, c, ts[|ts| - 1])
  }

  /** Sum over the listed consultants of their values at block `t`. */
  function ColSum(v: map<Cell, int>, cs: seq<Consultant>, t: int): int {
    if |cs| == 0 then 0 else ColSum(v, cs[..|cs| - 1], t) + Value(v, cs[|cs| - 1], t)
  }

  /** Sum over every listed consultant and block. */
  function Total(v: map<Cell, int>, cs: seq<Consultant>, ts: seq<int>): int {
    if |cs| == 0 then 0 else Total(v, cs[..|cs| - 1], ts) + RowSum(v, cs[|cs| - 1], ts)
  }

  /** The blocks of the index that fall on calendar day `d`, in index order. */
  function DaySlots(blocks: seq<int>, d: int): (r: seq<int>)
    ensures forall t :: t in r <==> t in blocks && Date(t) == d
    ensures |r| <= |blocks|
  {
    if |blocks| == 0 then []
    else
      var init := DaySlots(blocks[..|blocks| - 1], d);
      var t := blocks[|blocks| - 1];
      assert forall u :: u in blocks <==> u in blocks[..|blocks| - 1] || u == t;
      if Date(t) == d then init + [t] else init
  }

  predicate Binary(v: map<Cell, int>) {
    forall k :: k in v ==> v[k] == 0 || v[k] == 1
  }

  /** One variable per available cell, one change variable per available cell off the last block,
      all binary. */
  predicate Domain(m: Matrix, s: Solution) {
    s.x.Keys == Vars(m) && s.y.Keys == YVars(m) && Binary(s.x) && Binary(s.y)
  }

  /** The change variable of `(c, t)` is at least the difference between the duties at `t` and
      at the next block `next` of the same day, when both cells have duty variables. */
  predicate PairLinked(s: Solution, c: Consultant, t: int, next: int) {
    (c, t) in s.x && (c, next) in s.x ==>
      Value(s.y, c, t) >= s.x[(c, t)] - s.x[(c, next)] && Value(s.y, c, t) >= s.x[(c, next)] - s.x[(c, t)]
  }

  /** The calendar days the index covers. */
  function Days(blocks: seq<int>): set<int> {
    set t | t in blocks :: Date(t)
  }

  /** Constraint 0: every consultant, every pair of consecutive blocks of one day. */
  predicate ChurnLinked(m: Matrix, s: Solution) {
    forall c, d, i :: c in m.consultants && d in Days(m.blocks) && 0 <= i < |DaySlots(m.blocks, d)| - 1 ==>
      PairLinked(s, c, DaySlots(m.blocks, d)[i], DaySlots(m.blocks, d)[i + 1])
  }

  /** Constraint 1: the duty variables of each block sum to exactly one. */
  predicate Covered(m: Matrix, s: Solution) {
    forall t :: t in m.blocks ==> ColSum(s.x, m.consultants, t) == 1
  }

  /** Constraint 2: each consultant's weekly blocks lie within their limits, which must exist. */
  predicate WithinBounds(m: Matrix, b: Bounds, s: Solution) {
    forall c :: c in m.consultants ==>
      Limits(b, c).Some? && Limits(b, c).value.0 <= RowSum(s.x, c, m.blocks) <= Limits(b, c).value.1
  }

  /** Constraint 3: at most ten blocks per consultant per calendar day. */
  predicate DailyCapped(m: Matrix, s: Solution) {
    forall c, d :: c in m.consultants && d in Days(m.blocks) ==> RowSum(s.x, c, DaySlots(m.blocks, d)) <= DailyMaxBlocks
  }

  /** `create_schedule`'s feasible set. */
  predicate Valid(m: Matrix, b: Bounds, s: Solution) {
    Domain(m, s) && ChurnLinked(m, s) && Covered(m, s) && WithinBounds(m, b, s) && DailyCapped(m, s)
  }

  /** Each duty variable weighted by the cost of its cell's preference. */
  function Weighted(m: Matrix, s: Solution): map<Cell, int> {
    map k | k in s.x && k in m.pref :: s.x[k] * PreferenceCost(m.pref[k])
  }

  /** The objective: preference cost plus six per change variable set. */
  function Cost(m: Matrix, s: Solution): int {
    Total(Weighted(m, s), m.consultants, m.blocks) + ShiftChangePenalty * Total(s.y, m.consultants, m.blocks)
  }

  /** The consultants on duty at block `t`, in column order. */
  function OnDuty(v: map<Cell, int>, cs: seq<Consultant>, t: int): (r: seq<Consultant>)
    ensures forall c :: c in r <==> c in cs && Value(v, c, t) == 1
  {
    if |cs| == 0 then []
    else
      var init := OnDuty(v, cs[..|cs| - 1], t);
      var c := cs[|cs| - 1];
      assert forall u :: u in cs <==> u in cs[..|cs| - 1] || u == c;
      if Value(v, c, t) == 1 then init + [c] else init
  }

  /** For 0/1 variables, a block's sum counts the consultants on duty. */
  lemma {:induction false} BinaryColSum(v: map<Cell, int>, cs: seq<Consultant>, t: int)
    requires Binary(v)
    ensures ColSum(v, cs, t) == |OnDuty(v, cs, t)|
  {
    if |cs| > 0 {
      BinaryColSum(v, cs[..|cs| - 1], t);
    }
  }

  /** In a valid solution every block has exactly one consultant on duty, and that consultant is
      available then. */
  lemma ExactlyOneOnDuty(m: Matrix, b: Bounds, s: Solution, t: int)
    requires Valid(m, b, s) && t in m.blocks
    ensures |OnDuty(s.x, m.consultants, t)| == 1
    ensures forall c :: c in OnDuty(s.x, m.consultants, t) ==> (c, t) in m.pref && m.pref[(c, t)] != Unavailable
  {
    BinaryColSum(s.x, m.consultants, t);
    forall c | c in OnDuty(s.x, m.consultants, t) ensures (c, t) in m.pref && m.pref[(c, t)] != Unavailable {
      assert (c, t) in Vars(m);
    }
  }

  /** A block where nobody's cells have duty variables sums to zero. */
  lemma {:induction false} ColSumNoVars(v: map<Cell, int>, cs: seq<Consultant>, t: int)
    requires forall c :: c in cs ==> (c, t) !in v
    ensures ColSum(v, cs, t) == 0
  {
    if |cs| > 0 {
      ColSumNoVars(v, cs[..|cs| - 1], t);
    }
  }

  /** A block at which every consultant is UNAVAILABLE makes the program infeasible. */
  lemma InfeasibleIfUnstaffed(m: Matrix, b: Bounds, s: Solution, t: int)
    requires t in m.blocks
    requires forall c :: c in m.consultants ==> (c, t) !in m.pref || m.pref[(c, t)] == Unavailable
    ensures !Valid(m, b, s)
  {
    if Valid(m, b, s) {
      ColSumNoVars(s.x, m.consultants, t);
    }
  }

  /** Scheduling straight from a freshly built matrix (before any hours are added) is infeasible
      as soon as the desk is open at all. */
  lemma FreshMatrixInfeasible(hours: seq<DayHours>, consultants: seq<Consultant>, b: Bounds, s: Solution)
    requires Setup(hours, consultants).Some? && |Setup(hours, consultants).value.blocks| > 0
    ensures !Valid(Setup(hours, consultants).value, b, s)
  {
    var m := Setup(hours, consultants).value;
    InfeasibleIfUnstaffed(m, b, s, m.blocks[0]);
  }

  /** Adding a block to the range adds that block's column to the total. */
  lemma {:induction false} TotalSnoc(v: map<Cell, int>, cs: seq<Consultant>, ts: seq<int>, t: int)
    ensures Total(v, cs, ts + [t]) == Total(v, cs, ts) + ColSum(v, cs, t)
  {
    if |cs| > 0 {
      TotalSnoc(v, cs[..|cs| - 1], ts, t);
      assert (ts + [t])[..|ts|] == ts;
    }
  }

  /** Summing consultant by consultant gives the same as summing block by block. */
  lemma {:induction false} TotalByColumns(v: map<Cell, int>, cs: seq<Consultant>, ts: seq<int>, k: nat)
    requires forall t :: t in ts ==> ColSum(v, cs, t) == k
    ensures Total(v, cs, ts) == k * |ts|
  {
    if |ts| == 0 {
      if |cs| > 0 {
        TotalEmpty(v, cs);
      }
    } else {
      var init := ts[..|ts| - 1];
      TotalByColumns(v, cs, init, k);
      TotalSnoc(v, cs, init, ts[|ts| - 1]);
      assert init + [ts[|ts| - 1]] == ts;
    }
  }

  lemma {:induction false} TotalEmpty(v: map<Cell, int>, cs: seq<Consultant>)
    ensures Total(v, cs, []) == 0
  {
    if |cs| > 0 {
      TotalEmpty(v, cs[..|cs| - 1]);
    }
  }

  /** A per-consultant table missing any consultant admits no solution (the lookup fails). */
  lemma MissingLimitsRejected(m: Matrix, limits: map<Consultant, (int, int)>, s: Solution, c: Consultant)
    requires c in m.consultants && c !in limits
    ensures !Valid(m, PerConsultant(limits), s)
  {
  }

  /** Sums of the consultants' minimum and maximum weekly limits. */
  function LimitSum(b: Bounds, cs: seq<Consultant>, upper: bool): int
    requires forall c :: c in cs ==> Limits(b, c).Some?
  {
    if |cs| == 0 then 0
    else
      var l := Limits(b, cs[|cs| - 1]).value;
      LimitSum(b, cs[..|cs| - 1], upper) + (if upper then l.1 else l.0)
  }

  lemma {:induction false} TotalWithinLimits(v: map<Cell, int>, b: Bounds, cs: seq<Consultant>, ts: seq<int>)
    requires forall c :: c in cs ==> Limits(b, c).Some? && Limits(b, c).value.0 <= RowSum(v, c, ts) <= Limits(b, c).value.1
    ensures LimitSum(b, cs, false) <= Total(v, cs, ts) <= LimitSum(b, cs, true)
  {
    if |cs| > 0 {
      TotalWithinLimits(v, b, cs[..|cs| - 1], ts);
    }
  }

  /** A valid schedule needs the week's block count to lie between the sum of the minimum limits
      and the sum of the maximum limits. */
  lemma BoundsBracket(m: Matrix, b: Bounds, s: Solution)
    requires Valid(m, b, s)
    ensures LimitSum(b, m.consultants, false) <= |m.blocks| <= LimitSum(b, m.consultants, true)
  {
    TotalByColumns(s.x, m.consultants, m.blocks, 1);
    TotalWithinLimits(s.x, b, m.consultants, m.blocks);
  }

  lemma {:induction false} GenericLimitSum(cs: seq<Consultant>)
    ensures LimitSum(Generic, cs, false) == 4 * |cs| && LimitSum(Generic, cs, true) == 20 * |cs|
  {
    if |cs| > 0 {
      GenericLimitSum(cs[..|cs| - 1]);
    }
  }

  /** Under the generic limits every consultant works 4 to 20 blocks, so the week needs between a
      twentieth and a quarter of its block count in consultants. */
  lemma GenericHeadcount(m: Matrix, s: Solution)
    requires Valid(m, Generic, s)
    ensures 4 * |m.consultants| <= |m.blocks| <= 20 * |m.consultants|
  {
    BoundsBracket(m, Generic, s);
    GenericLimitSum(m.consultants);
  }

  /** The desk's 190-block week cannot be staffed under the generic limits by fewer than 10
      consultants or by more than 47. */
  lemma SunlabHeadcount(consultants: seq<Consultant>, m: Matrix, s: Solution)
    requires m.blocks == SpanBlocks(SunlabSpans) && m.consultants == consultants
    requires Valid(m, Generic, s)
    ensures 10 <= |consultants| <= 47
  {
    SunlabBlockCounts();
    GenericHeadcount(m, s);
  }

  lemma {:induction false} TotalCapped(v: map<Cell, int>, cs: seq<Consultant>, ts: seq<int>)
    requires forall c :: c in cs ==> RowSum(v, c, ts) <= DailyMaxBlocks
    ensures Total(v, cs, ts) <= DailyMaxBlocks * |cs|
  {
    if |cs| > 0 {
      TotalCapped(v, cs[..|cs| - 1], ts);
    }
  }

  /** The daily cap bounds every calendar day's block count by ten per consultant. */
  lemma DailyHeadcount(m: Matrix, b: Bounds, s: Solution, d: int)
    requires Valid(m, b, s)
    ensures |DaySlots(m.blocks, d)| <= DailyMaxBlocks * |m.consultants|
  {
    var slots := DaySlots(m.blocks, d);
    if |slots| == 0 {
      return;
    }
    assert slots[0] in slots;
    assert Date(slots[0]) == d;
    TotalByColumns(s.x, m.consultants, slots, 1);
    TotalCapped(s.x, m.consultants, slots);
  }

  /** The block after `t` in a day's slot list, if `t` is listed and is not the day's last. */
  function NextInDay(slots: seq<int>, t: int): Option<int> {
    if |slots| < 2 then None else if slots[0] == t then Some(slots[1]) else NextInDay(slots[1..], t)
  }

  /** In a chronological slot list, the block after slot `i` is slot `i + 1`. */
  lemma {:induction false} NextInDayAt(slots: seq<int>, i: int)
    requires StrictlyIncreasing(slots) && 0 <= i < |slots| - 1
    ensures NextInDay(slots, slots[i]) == Some(slots[i + 1])
  {
    if i > 0 {
      assert slots[0] < slots[i];
      NextInDayAt(slots[1..], i - 1);
    }
  }

  /** A next block is always the successor of a listed slot. */
  lemma {:induction false} NextInDayFound(slots: seq<int>, t: int) returns (i: int)
    requires NextInDay(slots, t).Some?
    ensures 0 <= i < |slots| - 1 && slots[i] == t && slots[i + 1] == NextInDay(slots, t).value
  {
    if slots[0] == t {
      i := 0;
    } else {
      var j := NextInDayFound(slots[1..], t);
      i := j + 1;
    }
  }

  /** A chronological index gives chronological day slot lists. */
  lemma {:induction false} DaySlotsIncreasing(blocks: seq<int>, d: int)
    requires StrictlyIncreasing(blocks)
    ensures StrictlyIncreasing(DaySlots(blocks, d))
  {
    if |blocks| > 0 {
      var init := blocks[..|blocks| - 1];
      var t := blocks[|blocks| - 1];
      DaySlotsIncreasing(init, d);
      var r := DaySlots(init, d);
      if Date(t) == d {
        var r2 := r + [t];
        forall a, z | 0 <= a < z < |r2| ensures r2[a] < r2[z] {
          if z == |r| {
            assert r2[a] == r[a] && r[a] in r;
            var j :| 0 <= j < |init| && init[j] == r[a];
            assert blocks[j] == init[j];
          } else {
            assert r2[a] == r[a] && r2[z] == r[z];
          }
        }
      }
    }
  }

  function Abs(n: int): nat {
    if n < 0 then -n else n
  }

  /** The least value the change variable of `(c, t)` can take: whether the duty changes between
      `t` and the next block of the same day, 0 where no constraint reaches it. */
  function ChangeAt(m: Matrix, s: Solution, c: Consultant, t: int): int {
    match NextInDay(DaySlots(m.blocks, Date(t)), t)
    case Some(next) => if (c, t) in s.x && (c, next) in s.x then Abs(s.x[(c, t)] - s.x[(c, next)]) else 0
    case None => 0
  }

  /** The same duties with every change variable set to its least value. */
  function Tighten(m: Matrix, s: Solution): Solution {
    s.(y := map k | k in YVars(m) :: ChangeAt(m, s, k.0, k.1))
  }

  lemma {:induction false} RowSumMono(u: map<Cell, int>, v: map<Cell, int>, c: Consultant, ts: seq<int>)
    requires forall t :: Value(u, c, t) <= Value(v, c, t)
    ensures RowSum(u, c, ts) <= RowSum(v, c, ts)
  {
    if |ts| > 0 {
      RowSumMono(u, v, c, ts[..|ts| - 1]);
    }
  }

  lemma {:induction false} TotalMono(u: map<Cell, int>, v: map<Cell, int>, cs: seq<Consultant>, ts: seq<int>)
    requires forall c, t :: Value(u, c, t) <= Value(v, c, t)
    ensures Total(u, cs, ts) <= Total(v, cs, ts)
  {
    if |cs| > 0 {
      TotalMono(u, v, cs[..|cs| - 1], ts);
      RowSumMono(u, v, cs[|cs| - 1], ts);
    }
  }

  /** Every constrained pair of a chronological index is tight in the tightened solution. */
  lemma TightenLinked(m: Matrix, s: Solution)
    requires Domain(m, s) && StrictlyIncreasing(m.blocks)
    ensures ChurnLinked(m, Tighten(m, s))
  {
    forall c, d, i | c in m.consultants && d in Days(m.blocks) && 0 <= i < |DaySlots(m.blocks, d)| - 1
      ensures PairLinked(Tighten(m, s), c, DaySlots(m.blocks, d)[i], DaySlots(m.blocks, d)[i + 1])
    {
      TightenPair(m, s, c, d, i);
    }
  }

  /** One consecutive pair of a day: the tightened change variable is the duty difference. */
  lemma TightenPair(m: Matrix, s: Solution, c: Consultant, d: int, i: int)
    requires s.x.Keys <= Vars(m) && StrictlyIncreasing(m.blocks)
    requires 0 <= i < |DaySlots(m.blocks, d)| - 1
    ensures PairLinked(Tighten(m, s), c, DaySlots(m.blocks, d)[i], DaySlots(m.blocks, d)[i + 1])
  {
    ConsecutiveSlots(m.blocks, d, i);
    TightenedPair(m, s, c, DaySlots(m.blocks, d)[i], DaySlots(m.blocks, d)[i + 1]);
  }

  /** A block and the next block of its day are linked in the tightened solution. */
  lemma TightenedPair(m: Matrix, s: Solution, c: Consultant, t: int, next: int)
    requires s.x.Keys <= Vars(m) && StrictlyIncreasing(m.blocks)
    requires NextInDay(DaySlots(m.blocks, Date(t)), t) == Some(next) && t < next && next in m.blocks
    ensures PairLinked(Tighten(m, s), c, t, next)
  {
    if (c, t) in s.x && (c, next) in s.x {
      NotAfterLast(m.blocks, next);
      TightenedChange(m, s, c, t, next);
    }
  }

  /** Consecutive slots of a day in a chronological index: the second is the block after the first
      on the first's date, and a later listed block. */
  lemma ConsecutiveSlots(blocks: seq<int>, d: int, i: int)
    requires StrictlyIncreasing(blocks) && 0 <= i < |DaySlots(blocks, d)| - 1
    ensures var slots := DaySlots(blocks, d);
      NextInDay(DaySlots(blocks, Date(slots[i])), slots[i]) == Some(slots[i + 1])
      && slots[i] < slots[i + 1] && slots[i + 1] in blocks
  {
    DaySlotsIncreasing(blocks, d);
    NextInDayAt(DaySlots(blocks, d), i);
    SlotPair(blocks, d, i);
  }

  /** A duty cell whose next block of the day also has a duty variable gets, once tightened, the
      difference of the two duties as its change variable. */
  lemma TightenedChange(m: Matrix, s: Solution, c: Consultant, t: int, next: int)
    requires NextInDay(DaySlots(m.blocks, Date(t)), t) == Some(next)
    requires (c, t) in s.x && (c, next) in s.x && (c, t) in Vars(m)
    requires |m.blocks| > 0 && t < next <= m.blocks[|m.blocks| - 1]
    ensures Value(Tighten(m, s).y, c, t) == Abs(s.x[(c, t)] - s.x[(c, next)])
  {
    InYVars(m, c, t);
    TightenAt(m, s, c, t);
    ChangeAtPair(m, s, c, t, next);
  }

  /** Two consecutive slots of day `d` are listed blocks of that day, the first the earlier. */
  lemma SlotPair(blocks: seq<int>, d: int, i: int)
    requires StrictlyIncreasing(DaySlots(blocks, d)) && 0 <= i < |DaySlots(blocks, d)| - 1
    ensures Date(DaySlots(blocks, d)[i]) == d && DaySlots(blocks, d)[i + 1] in blocks
    ensures DaySlots(blocks, d)[i] < DaySlots(blocks, d)[i + 1]
  {
    var slots := DaySlots(blocks, d);
    assert slots[i] in slots && slots[i + 1] in slots;
  }

  /** A duty cell before the index's last block has a change variable. */
  lemma InYVars(m: Matrix, c: Consultant, t: int)
    requires (c, t) in Vars(m) && |m.blocks| > 0 && t < m.blocks[|m.blocks| - 1]
    ensures (c, t) in YVars(m)
  {
  }

  /** The tightened change variable of a cell is its least value, 0 where it has none. */
  lemma TightenAt(m: Matrix, s: Solution, c: Consultant, t: int)
    ensures Value(Tighten(m, s).y, c, t) == if (c, t) in YVars(m) then ChangeAt(m, s, c, t) else 0
  {
  }

  /** Where a next block of the same day exists, the least value is the duty difference. */
  lemma ChangeAtPair(m: Matrix, s: Solution, c: Consultant, t: int, next: int)
    requires NextInDay(DaySlots(m.blocks, Date(t)), t) == Some(next)
    requires (c, t) in s.x && (c, next) in s.x
    ensures ChangeAt(m, s, c, t) == Abs(s.x[(c, t)] - s.x[(c, next)])
  {
  }

  /** No block of a chronological index comes after its last one. */
  lemma NotAfterLast(blocks: seq<int>, t: int)
    requires StrictlyIncreasing(blocks) && t in blocks
    ensures t <= blocks[|blocks| - 1]
  {
    var j :| 0 <= j < |blocks| && blocks[j] == t;
    if j < |blocks| - 1 {
      assert blocks[j] < blocks[|blocks| - 1];
    }
  }

  /** Constraint 0 at one consultant, day and pair. */
  lemma LinkedAt(m: Matrix, s: Solution, c: Consultant, d: int, i: int)
    requires ChurnLinked(m, s) && c in m.consultants && d in Days(m.blocks)
    requires 0 <= i < |DaySlots(m.blocks, d)| - 1
    ensures PairLinked(s, c, DaySlots(m.blocks, d)[i], DaySlots(m.blocks, d)[i + 1])
  {
  }

  /** At one cell, the tightened change variable does not exceed that of a solution meeting
      constraint 0. */
  lemma TightenBelowAt(m: Matrix, s: Solution, c: Consultant, t: int)
    requires Domain(m, s) && ChurnLinked(m, s) && Grid(m)
    ensures Value(Tighten(m, s).y, c, t) <= Value(s.y, c, t)
  {
    TightenAt(m, s, c, t);
    if (c, t) in YVars(m) {
      assert (c, t) in s.y && (c, t) in Vars(m);
      ChangeBelow(m, s, c, t);
    }
  }

  /** Under constraint 0 a change variable is at least its least value. */
  lemma ChangeBelow(m: Matrix, s: Solution, c: Consultant, t: int)
    requires ChurnLinked(m, s) && Grid(m) && Binary(s.y) && (c, t) in s.y && (c, t) in m.pref
    ensures ChangeAt(m, s, c, t) <= s.y[(c, t)]
  {
    var slots := DaySlots(m.blocks, Date(t));
    var next := NextInDay(slots, t);
    if next.Some? && (c, t) in s.x && (c, next.value) in s.x {
      ChangeAtPair(m, s, c, t, next.value);
      var i := NextInDayFound(slots, t);
      assert t in slots;
      DayListed(m.blocks, t);
      GridColumn(m, c, t);
      LinkedAt(m, s, c, Date(t), i);
    } else {
      assert ChangeAt(m, s, c, t) == 0;
    }
  }

  lemma DayListed(blocks: seq<int>, t: int)
    requires t in blocks
    ensures Date(t) in Days(blocks)
  {
  }

  /** A cell of a full matrix belongs to one of its columns. */
  lemma GridColumn(m: Matrix, c: Consultant, t: int)
    requires Grid(m) && (c, t) in m.pref
    ensures c in m.consultants
  {
    assert (c, t) in Cells(m.consultants, m.blocks);
  }

  /** Tightening keeps one binary change variable per cell off the last block. */
  lemma TightenDomain(m: Matrix, s: Solution)
    requires Domain(m, s)
    ensures Domain(m, Tighten(m, s))
  {
    var s2 := Tighten(m, s);
    forall k | k in s2.y ensures s2.y[k] == 0 || s2.y[k] == 1 {
      TightenAt(m, s, k.0, k.1);
      ChangeBinary(m, s, k.0, k.1);
    }
  }

  /** Between 0/1 duties the least change value is 0 or 1. */
  lemma ChangeBinary(m: Matrix, s: Solution, c: Consultant, t: int)
    requires Binary(s.x)
    ensures ChangeAt(m, s, c, t) == 0 || ChangeAt(m, s, c, t) == 1
  {
  }

  /** Tightening leaves the duties alone and lowers no change variable's contribution. */
  lemma TightenCost(m: Matrix, s: Solution)
    requires Domain(m, s) && ChurnLinked(m, s) && Grid(m)
    ensures Cost(m, Tighten(m, s)) <= Cost(m, s)
  {
    var s2 := Tighten(m, s);
    forall c, t ensures Value(s2.y, c, t) <= Value(s.y, c, t) {
      TightenBelowAt(m, s, c, t);
    }
    TotalMono(s2.y, s.y, m.consultants, m.blocks);
    assert Weighted(m, s2) == Weighted(m, s);
  }

  /** Setting every change variable to its least value keeps a valid solution valid and never
      raises its cost, so an optimum counts exactly the same-day duty changes. */
  lemma TightenValid(m: Matrix, b: Bounds, s: Solution)
    requires Valid(m, b, s) && Grid(m) && StrictlyIncreasing(m.blocks)
    ensures Valid(m, b, Tighten(m, s))
    ensures Cost(m, Tighten(m, s)) <= Cost(m, s)
  {
    var s2 := Tighten(m, s);
    assert s2.x == s.x;
    TightenDomain(m, s);
    TightenLinked(m, s);
    TightenCost(m, s);
    SameDuties(m, b, s, s2);
  }

  /** The change variable at the last block of a day (other than the week's last) meets no
      constraint: a valid solution stays valid whatever 0/1 value it takes. */
  lemma UnconstrainedDayEnd(m: Matrix, b: Bounds, s: Solution, c: Consultant, t: int, v: int)
    requires Valid(m, b, s) && StrictlyIncreasing(m.blocks)
    requires (c, t) in YVars(m) && NextInDay(DaySlots(m.blocks, Date(t)), t).None?
    requires v == 0 || v == 1
    ensures Valid(m, b, s.(y := s.y[(c, t) := v]))
  {
    var s2 := s.(y := s.y[(c, t) := v]);
    assert s2.y.Keys == s.y.Keys;
    forall c', d, i | c' in m.consultants && d in Days(m.blocks) && 0 <= i < |DaySlots(m.blocks, d)| - 1
      ensures PairLinked(s2, c', DaySlots(m.blocks, d)[i], DaySlots(m.blocks, d)[i + 1])
    {
      DayEndPair(m, s, c, t, v, c', d, i);
    }
    SameDuties(m, b, s, s2);
  }

  /** Constraint 0 at one pair survives a new value for a day's last change variable. */
  lemma DayEndPair(m: Matrix, s: Solution, c: Consultant, t: int, v: int, c': Consultant, d: int, i: int)
    requires ChurnLinked(m, s) && StrictlyIncreasing(m.blocks)
    requires NextInDay(DaySlots(m.blocks, Date(t)), t).None?
    requires c' in m.consultants && d in Days(m.blocks) && 0 <= i < |DaySlots(m.blocks, d)| - 1
    ensures PairLinked(s.(y := s.y[(c, t) := v]), c', DaySlots(m.blocks, d)[i], DaySlots(m.blocks, d)[i + 1])
  {
    var slots := DaySlots(m.blocks, d);
    if c' == c && slots[i] == t {
      DaySlotsIncreasing(m.blocks, d);
      assert t in slots;
      NextInDayAt(slots, i);
      assert false;
    }
    LinkedAt(m, s, c', d, i);
  }

  /** Constraints 1 to 3 look only at the duties. */
  lemma SameDuties(m: Matrix, b: Bounds, s: Solution, s2: Solution)
    requires s2.x == s.x && Covered(m, s) && WithinBounds(m, b, s) && DailyCapped(m, s)
    ensures Covered(m, s2) && WithinBounds(m, b, s2) && DailyCapped(m, s2)
  {
  }
}
