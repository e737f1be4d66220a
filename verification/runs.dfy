/** Cutting a sequence into maximal runs wherever a break test between neighbours fires. This is the
    shape of a pandas "new group" mask followed by `cumsum` and `groupby`, and of a printout that
    starts a new heading whenever the heading text changes. */
module Runs {

  /** The pieces laid end to end. */
  function Concat<T>(ps: seq<seq<T>>): seq<T> {
    if |ps| == 0 then [] else Concat(ps[..|ps| - 1]) + ps[|ps| - 1]
  }

  /** Position `i` opens a new run: it is the first element, or it breaks from its predecessor. */
  predicate Opens<T>(s: seq<T>, brk: (T, T) -> bool, i: int)
    requires 0 <= i < |s|
  {
    i == 0 || brk(s[i - 1], s[i])
  }

  /** The positions below `n` that open a run, in ascending order (the running count of the mask
      steps up exactly at these positions). */
  function CutsBelow<T>(s: seq<T>, brk: (T, T) -> bool, n: nat): (r: seq<int>)
    requires n <= |s|
    ensures forall a :: 0 <= a < |r| ==> 0 <= r[a] < n
    ensures n > 0 ==> |r| > 0 && r[0] == 0
    ensures forall i :: i in r <==> 0 <= i < n && Opens(s, brk, i)
    ensures forall a, b :: 0 <= a < b < |r| ==> r[a] < r[b]
  {
    if n == 0 then []
    else
      var prev := CutsBelow(s, brk, n - 1);
      if Opens(s, brk, n - 1) then prev + [n - 1] else prev
  }

  /** The positions where a run opens (pandas' new-group mask): position 0 and every position whose
      predecessor and element break, in increasing order. */
  function Cuts<T>(s: seq<T>, brk: (T, T) -> bool): (r: seq<int>)
    ensures forall a :: 0 <= a < |r| ==> 0 <= r[a] < |s|
    ensures |s| > 0 ==> |r| > 0 && r[0] == 0
    ensures forall i :: i in r <==> 0 <= i < |s| && Opens(s, brk, i)
    ensures forall a, b :: 0 <= a < b < |r| ==> r[a] < r[b]
  {
    CutsBelow(s, brk, |s|)
  }

  /** Where the run opened by the `k`-th cut stops: at the next cut, or at the end. */
  function PieceEnd(len: int, cuts: seq<int>, k: int): int
    requires 0 <= k < |cuts|
  {
    if k + 1 < |cuts| then cuts[k + 1] else len
  }

  /** The first cut is position 0 and every piece is non-empty. */
  lemma CutsShape<T>(s: seq<T>, brk: (T, T) -> bool)
    ensures var cuts := Cuts(s, brk);
      (|s| == 0 <==> |cuts| == 0)
      && (|cuts| > 0 ==> cuts[0] == 0)
      && forall k :: 0 <= k < |cuts| ==> 0 <= cuts[k] < PieceEnd(|s|, cuts, k) <= |s|
  {
    var cuts := Cuts(s, brk);
    forall k | 0 <= k < |cuts| ensures 0 <= cuts[k] < PieceEnd(|s|, cuts, k) <= |s| {
      assert cuts[k] in cuts;
      if k + 1 < |cuts| {
        assert cuts[k + 1] in cuts;
      }
    }
  }

  /** The maximal runs of `s`: each one starts at a cut and stops at the next. */
  function Pieces<T>(s: seq<T>, brk: (T, T) -> bool): (r: seq<seq<T>>)
    ensures |r| == |Cuts(s, brk)|
    ensures forall k :: 0 <= k < |r| ==> r[k] == s[Cuts(s, brk)[k]..PieceEnd(|s|, Cuts(s, brk), k)]
  {
    var cuts := Cuts(s, brk);
    CutsShape(s, brk);
    seq(|cuts|, k requires 0 <= k < |cuts| => s[cuts[k]..PieceEnd(|s|, cuts, k)])
  }

  /** No position strictly inside a piece opens a run. */
  lemma NoCutInside<T>(s: seq<T>, brk: (T, T) -> bool, k: int, i: int)
    requires 0 <= k < |Cuts(s, brk)|
    requires Cuts(s, brk)[k] < i < PieceEnd(|s|, Cuts(s, brk), k)
    ensures 0 < i < |s| && !brk(s[i - 1], s[i])
  {
    var cuts := Cuts(s, brk);
    CutsShape(s, brk);
    forall j | 0 <= j < |cuts| ensures cuts[j] != i {
      if j > k + 1 {
        assert cuts[k + 1] < cuts[j];
      } else if j < k {
        assert cuts[j] < cuts[k];
      }
    }
    assert i !in cuts;
  }

  lemma SliceAt<T>(s: seq<T>, lo: int, hi: int, j: int)
    requires 0 <= lo <= hi <= |s| && 0 <= j < hi - lo
    ensures s[lo..hi][j] == s[lo + j]
  {
  }

  lemma SliceStep<T>(s: seq<T>, brk: (T, T) -> bool, lo: int, hi: int, j: int)
    requires 0 <= lo <= hi <= |s| && 0 < j < hi - lo
    requires !brk(s[lo + j - 1], s[lo + j])
    ensures !brk(s[lo..hi][j - 1], s[lo..hi][j])
  {
  }

  lemma SplitAt<T>(s: seq<T>, lo: int, hi: int)
    requires 0 <= lo <= hi <= |s|
    ensures s[..lo] + s[lo..hi] == s[..hi]
  {
  }

  /** The first `k` pieces laid end to end are the prefix of `s` before the `k`-th cut. */
  lemma {:induction false} ConcatPrefix<T>(s: seq<T>, brk: (T, T) -> bool, k: int)
    requires 0 <= k <= |Cuts(s, brk)|
    ensures var cuts := Cuts(s, brk);
      Concat(Pieces(s, brk)[..k]) == s[..if k < |cuts| then cuts[k] else |s|]
  {
    var cuts := Cuts(s, brk);
    var ps := Pieces(s, brk);
    if k == 0 {
      if |cuts| > 0 {
        assert s[..cuts[0]] == [];
      } else {
        assert s[..|s|] == [];
      }
    } else {
      ConcatPrefix(s, brk, k - 1);
      ConcatSnoc(ps, k);
      PieceBounds(s, brk, k - 1);
      SplitAt(s, cuts[k - 1], PieceEnd(|s|, cuts, k - 1));
    }
  }

  /** The pieces laid end to end give back `s`. */
  lemma ConcatPieces<T>(s: seq<T>, brk: (T, T) -> bool)
    ensures Concat(Pieces(s, brk)) == s
  {
    var ps := Pieces(s, brk);
    ConcatPrefix(s, brk, |ps|);
    assert ps[..|ps|] == ps;
  }

  /** The first `k` pieces are the first `k - 1` followed by piece `k - 1`. */
  lemma ConcatSnoc<T>(ps: seq<seq<T>>, k: int)
    requires 0 < k <= |ps|
    ensures Concat(ps[..k]) == Concat(ps[..k - 1]) + ps[k - 1]
  {
    assert ps[..k][..k - 1] == ps[..k - 1];
  }

  /** Piece `k` starts at its cut and stops no earlier than one place later and no later than the end. */
  lemma PieceBounds<T>(s: seq<T>, brk: (T, T) -> bool, k: int)
    requires 0 <= k < |Cuts(s, brk)|
    ensures 0 <= Cuts(s, brk)[k] < PieceEnd(|s|, Cuts(s, brk), k) <= |s|
  {
    var cuts := Cuts(s, brk);
    if k + 1 < |cuts| {
      assert cuts[k] < cuts[k + 1];
    }
  }

  /** The first and last elements of piece `k` are the element at its cut and the one just before
      the next cut. */
  lemma PieceEnds<T>(s: seq<T>, brk: (T, T) -> bool, k: int)
    requires 0 <= k < |Pieces(s, brk)|
    ensures 0 <= Cuts(s, brk)[k] < PieceEnd(|s|, Cuts(s, brk), k) <= |s|
    ensures |Pieces(s, brk)[k]| > 0
    ensures Pieces(s, brk)[k][0] == s[Cuts(s, brk)[k]]
    ensures Pieces(s, brk)[k][|Pieces(s, brk)[k]| - 1] == s[PieceEnd(|s|, Cuts(s, brk), k) - 1]
  {
    var p := Pieces(s, brk)[k];
    var lo, hi := Cuts(s, brk)[k], PieceEnd(|s|, Cuts(s, brk), k);
    PieceLength(s, brk, k);
    PieceAt(s, brk, k, 0);
    PieceAt(s, brk, k, |p| - 1);
    assert lo + (|p| - 1) == hi - 1;
    assert p[|p| - 1] == s[hi - 1];
  }

  /** The pieces are a partition of `s` into maximal runs: they are non-empty, they lay end to end
      back into `s`, no break occurs inside a piece, and a break separates each piece from the next. */
  lemma PiecesPartition<T>(s: seq<T>, brk: (T, T) -> bool)
    ensures var ps := Pieces(s, brk);
      (|s| == 0 <==> |ps| == 0)
      && (forall k :: 0 <= k < |ps| ==> |ps[k]| > 0)
      && Concat(ps) == s
      && (forall k, j :: 0 <= k < |ps| && 0 < j < |ps[k]| ==> !brk(ps[k][j - 1], ps[k][j]))
      && (forall k :: 0 < k < |ps| ==> brk(ps[k - 1][|ps[k - 1]| - 1], ps[k][0]))
  {
    var ps := Pieces(s, brk);
    CutsShape(s, brk);
    ConcatPrefix(s, brk, |ps|);
    assert ps[..|ps|] == ps;
    PiecesInner(s, brk);
    PiecesOuter(s, brk);
  }

  /** No break occurs between neighbours inside a piece. */
  lemma PiecesInner<T>(s: seq<T>, brk: (T, T) -> bool)
    ensures var ps := Pieces(s, brk);
      forall k, j :: 0 <= k < |ps| && 0 < j < |ps[k]| ==> !brk(ps[k][j - 1], ps[k][j])
  {
    var ps := Pieces(s, brk);
    forall k, j | 0 <= k < |ps| && 0 < j < |ps[k]| ensures !brk(ps[k][j - 1], ps[k][j]) {
      InnerAt(s, brk, k, j);
    }
  }

  lemma InnerAt<T>(s: seq<T>, brk: (T, T) -> bool, k: int, j: int)
    requires 0 <= k < |Pieces(s, brk)| && 0 < j < |Pieces(s, brk)[k]|
    ensures !brk(Pieces(s, brk)[k][j - 1], Pieces(s, brk)[k][j])
  {
    var cuts := Cuts(s, brk);
    var lo, hi := cuts[k], PieceEnd(|s|, cuts, k);
    NoCutInside(s, brk, k, lo + j);
    SliceStep(s, brk, lo, hi, j);
  }

  /** A break separates the last element of each piece from the first of the next. */
  lemma PiecesOuter<T>(s: seq<T>, brk: (T, T) -> bool)
    ensures var ps := Pieces(s, brk);
      (forall k :: 0 <= k < |ps| ==> |ps[k]| > 0)
      && forall k :: 0 < k < |ps| ==> brk(ps[k - 1][|ps[k - 1]| - 1], ps[k][0])
  {
    var ps := Pieces(s, brk);
    forall k | 0 <= k < |ps| ensures |ps[k]| > 0 {
      PieceNonEmpty(s, brk, k);
    }
    forall k | 0 < k < |ps| ensures brk(ps[k - 1][|ps[k - 1]| - 1], ps[k][0]) {
      OuterAt(s, brk, k);
    }
  }

  lemma PieceNonEmpty<T>(s: seq<T>, brk: (T, T) -> bool, k: int)
    requires 0 <= k < |Pieces(s, brk)|
    ensures |Pieces(s, brk)[k]| > 0
  {
    var cuts := Cuts(s, brk);
    if k + 1 < |cuts| {
      assert cuts[k] < cuts[k + 1];
    }
  }

  lemma OuterAt<T>(s: seq<T>, brk: (T, T) -> bool, k: int)
    requires 0 < k < |Pieces(s, brk)|
    ensures |Pieces(s, brk)[k - 1]| > 0 && |Pieces(s, brk)[k]| > 0
    ensures brk(Pieces(s, brk)[k - 1][|Pieces(s, brk)[k - 1]| - 1], Pieces(s, brk)[k][0])
  {
    LastOfPiece(s, brk, k - 1);
    PieceAt(s, brk, k, 0);
    BreakAtCut(s, brk, k);
  }

  /** The last element of a piece that has a successor sits just before the next cut. */
  lemma LastOfPiece<T>(s: seq<T>, brk: (T, T) -> bool, k: int)
    requires 0 <= k < |Pieces(s, brk)| - 1
    ensures 0 < Cuts(s, brk)[k + 1] <= |s|
    ensures |Pieces(s, brk)[k]| > 0 && Pieces(s, brk)[k][|Pieces(s, brk)[k]| - 1] == s[Cuts(s, brk)[k + 1] - 1]
  {
    PieceLength(s, brk, k);
    PieceAt(s, brk, k, |Pieces(s, brk)[k]| - 1);
  }

  /** A break separates the element before each later cut from the element at it. */
  lemma BreakAtCut<T>(s: seq<T>, brk: (T, T) -> bool, k: int)
    requires 0 < k < |Cuts(s, brk)|
    ensures 0 < Cuts(s, brk)[k] < |s| && brk(s[Cuts(s, brk)[k] - 1], s[Cuts(s, brk)[k]])
  {
    var cuts := Cuts(s, brk);
    assert cuts[0] < cuts[k];
    CutOpens(s, brk, k);
  }

  /** Cuts come in increasing order. */
  lemma CutsOrdered<T>(s: seq<T>, brk: (T, T) -> bool, a: int, b: int, c: int)
    requires 0 <= a < b <= c < |Cuts(s, brk)|
    ensures 0 <= Cuts(s, brk)[a] < Cuts(s, brk)[b] <= Cuts(s, brk)[c] < |s|
  {
    var cuts := Cuts(s, brk);
    assert cuts[a] < cuts[b];
    if b < c {
      assert cuts[b] < cuts[c];
    }
  }

  /** Piece `k` runs from its cut to the next one, or to the end. */
  lemma PieceLength<T>(s: seq<T>, brk: (T, T) -> bool, k: int)
    requires 0 <= k < |Pieces(s, brk)|
    ensures |Pieces(s, brk)[k]| == PieceEnd(|s|, Cuts(s, brk), k) - Cuts(s, brk)[k] > 0
  {
    PieceBounds(s, brk, k);
  }

  /** Every cut opens a run. */
  lemma CutOpens<T>(s: seq<T>, brk: (T, T) -> bool, k: int)
    requires 0 <= k < |Cuts(s, brk)|
    ensures 0 <= Cuts(s, brk)[k] < |s| && Opens(s, brk, Cuts(s, brk)[k])
  {
    assert Cuts(s, brk)[k] in Cuts(s, brk);
  }

  /** Where the `j`-th element of the `k`-th piece sits in the whole sequence. */
  lemma PieceIndex<T>(s: seq<T>, brk: (T, T) -> bool, k: int, j: int) returns (i: int)
    requires 0 <= k < |Pieces(s, brk)| && 0 <= j < |Pieces(s, brk)[k]|
    ensures 0 <= i < |s| && s[i] == Pieces(s, brk)[k][j]
  {
    var cuts := Cuts(s, brk);
    PieceBounds(s, brk, k);
    i := cuts[k] + j;
    SliceAt(s, cuts[k], PieceEnd(|s|, cuts, k), j);
  }

  /** The `j`-th element of the `k`-th piece is the element of `s` that many places after the cut. */
  lemma PieceAt<T>(s: seq<T>, brk: (T, T) -> bool, k: int, j: int)
    requires 0 <= k < |Pieces(s, brk)| && 0 <= j < |Pieces(s, brk)[k]|
    ensures 0 <= Cuts(s, brk)[k] + j < |s|
    ensures Pieces(s, brk)[k][j] == s[Cuts(s, brk)[k] + j]
  {
    var cuts := Cuts(s, brk);
    PieceBounds(s, brk, k);
    SliceAt(s, cuts[k], PieceEnd(|s|, cuts, k), j);
  }

  /** The `j`-th cut lies at least `j` places in: cuts are increasing and the first is at 0 or later. */
  lemma {:induction false} CutAtLeast<T>(s: seq<T>, brk: (T, T) -> bool, j: int)
    requires 0 <= j < |Cuts(s, brk)|
    ensures Cuts(s, brk)[j] >= j
    ensures |Cuts(s, brk)| <= |s|
    decreases j
  {
    var cuts := Cuts(s, brk);
    if j > 0 {
      CutAtLeast(s, brk, j - 1);
      assert cuts[j - 1] < cuts[j];
    }
    var last := |cuts| - 1;
    if last > j {
      CutAtLeastTail(s, brk, j, last);
    } else {
      assert cuts[last] >= j >= last;
    }
  }

  /** A later cut lies at least as many places past an earlier one as it has cuts after it. */
  lemma {:induction false} CutAtLeastTail<T>(s: seq<T>, brk: (T, T) -> bool, j: int, l: int)
    requires 0 <= j <= l < |Cuts(s, brk)| && Cuts(s, brk)[j] >= j
    ensures Cuts(s, brk)[l] >= l
    decreases l - j
  {
    var cuts := Cuts(s, brk);
    if j < l {
      assert cuts[j] < cuts[j + 1];
      CutAtLeastTail(s, brk, j + 1, l);
    }
  }

  /** When every neighbouring pair breaks, position `k` is the `k`-th cut. */
  lemma {:induction false} EveryCutAt<T>(s: seq<T>, brk: (T, T) -> bool, k: int)
    requires forall i :: 0 < i < |s| ==> brk(s[i - 1], s[i])
    requires 0 <= k < |s|
    ensures k < |Cuts(s, brk)| && Cuts(s, brk)[k] == k
    decreases k
  {
    var cuts := Cuts(s, brk);
    if k > 0 {
      EveryCutAt(s, brk, k - 1);
      assert Opens(s, brk, k);
      assert k in cuts;
      var a :| 0 <= a < |cuts| && cuts[a] == k;
      assert cuts[a] > cuts[k - 1];
      assert a >= k;
      assert cuts[k] > cuts[k - 1];
      assert cuts[k] <= cuts[a];
    }
  }

  /** When every neighbouring pair breaks, every element is a piece of its own. */
  lemma AllBreaks<T>(s: seq<T>, brk: (T, T) -> bool)
    requires forall i :: 0 < i < |s| ==> brk(s[i - 1], s[i])
    ensures |Pieces(s, brk)| == |s|
    ensures forall k :: 0 <= k < |s| ==> Pieces(s, brk)[k] == [s[k]]
  {
    AllBreaksCount(s, brk);
    forall k | 0 <= k < |s| ensures Pieces(s, brk)[k] == [s[k]] {
      SinglePiece(s, brk, k);
    }
  }

  /** When every neighbouring pair breaks, every position is a cut. */
  lemma AllBreaksCount<T>(s: seq<T>, brk: (T, T) -> bool)
    requires forall i :: 0 < i < |s| ==> brk(s[i - 1], s[i])
    ensures |Cuts(s, brk)| == |s|
  {
    if |Cuts(s, brk)| > 0 {
      CutAtLeast(s, brk, 0);
    }
    if |s| > 0 {
      EveryCutAt(s, brk, |s| - 1);
    }
  }

  /** When every neighbouring pair breaks, piece `k` holds element `k` alone. */
  lemma SinglePiece<T>(s: seq<T>, brk: (T, T) -> bool, k: int)
    requires forall i :: 0 < i < |s| ==> brk(s[i - 1], s[i])
    requires 0 <= k < |s|
    ensures k < |Pieces(s, brk)| && Pieces(s, brk)[k] == [s[k]]
  {
    AllBreaksCount(s, brk);
    EveryCutAt(s, brk, k);
    if k + 1 < |s| {
      EveryCutAt(s, brk, k + 1);
    }
    UnitPiece(s, brk, k);
  }

  /** A piece whose cut is at `k` and whose successor cut, if any, is at `k + 1` is `[s[k]]`. */
  lemma UnitPiece<T>(s: seq<T>, brk: (T, T) -> bool, k: int)
    requires 0 <= k < |Cuts(s, brk)| == |s| && Cuts(s, brk)[k] == k
    requires k + 1 < |s| ==> Cuts(s, brk)[k + 1] == k + 1
    ensures Pieces(s, brk)[k] == [s[k]]
  {
    assert PieceEnd(|s|, Cuts(s, brk), k) == k + 1;
    assert s[k..k + 1] == [s[k]];
  }
}
