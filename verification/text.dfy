/** The few Python string operations the printed schedule relies on: `lstrip` of one character,
    `replace` of every occurrence of a pattern, and the ordering of `str` values by code point. */
module Text {
  import opened Basics

  /** `s.lstrip(ch)`: drops every leading `ch`. */
  function LStrip(s: string, ch: char): (r: string)
    ensures |r| <= |s| && r == s[|s| - |r|..]
    ensures |r| > 0 ==> r[0] != ch
    ensures forall i :: 0 <= i < |s| - |r| ==> s[i] == ch
  {
    if |s| > 0 && s[0] == ch then LStrip(s[1..], ch) else s
  }

  /** `s.replace(pat, rep)` for a non-empty pattern: occurrences are found left to right and do not
      overlap. */
  function ReplaceAll(s: string, pat: string, rep: string): (r: string)
    requires |pat| > 0
    decreases |s|
  {
    if |s| < |pat| then s
    else if s[..|pat|] == pat then rep + ReplaceAll(s[|pat|..], pat, rep)
    else [s[0]] + ReplaceAll(s[1..], pat, rep)
  }

  /** Text that does not contain the pattern's first character is copied through unchanged, and
      whatever follows it is processed on its own. */
  lemma {:induction false} ReplaceSkips(u: string, w: string, pat: string, rep: string)
    requires |pat| > 0 && pat[0] !in u
    ensures ReplaceAll(u + w, pat, rep) == u + ReplaceAll(w, pat, rep)
    decreases |u|
  {
    if |u| > 0 {
      var s := u + w;
      assert s[0] == u[0] != pat[0];
      if |s| < |pat| {
        assert |w| < |pat|;
      } else {
        assert s[..|pat|][0] == s[0];
        assert s[1..] == u[1..] + w;
        ReplaceSkips(u[1..], w, pat, rep);
      }
    } else {
      assert u + w == w;
    }
  }

  /** A leading occurrence of the pattern is replaced. */
  lemma ReplaceLeading(w: string, pat: string, rep: string)
    requires |pat| > 0
    ensures ReplaceAll(pat + w, pat, rep) == rep + ReplaceAll(w, pat, rep)
  {
    var s := pat + w;
    assert s[..|pat|] == pat;
    assert s[|pat|..] == w;
  }

  /** Text without the pattern's first character contains no occurrence to replace. */
  lemma ReplaceNothing(u: string, pat: string, rep: string)
    requires |pat| > 0 && pat[0] !in u
    ensures ReplaceAll(u, pat, rep) == u
  {
    ReplaceSkips(u, [], pat, rep);
    assert u + [] == u;
  }

  /** Python's `a < b` on strings: compares code points left to right, and a proper prefix comes
      first. */
  predicate Less(a: string, b: string)
    decreases |a|
  {
    if |a| == 0 then |b| > 0
    else if |b| == 0 then false
    else if a[0] != b[0] then a[0] < b[0]
    else Less(a[1..], b[1..])
  }

  lemma {:induction false} LessIrreflexive(a: string)
    ensures !Less(a, a)
    decreases |a|
  {
    if |a| > 0 {
      LessIrreflexive(a[1..]);
    }
  }

  lemma {:induction false} LessTransitive(a: string, b: string, c: string)
    requires Less(a, b) && Less(b, c)
    ensures Less(a, c)
    decreases |a|
  {
    if |a| > 0 && |b| > 0 && |c| > 0 && a[0] == b[0] && b[0] == c[0] {
      LessTransitive(a[1..], b[1..], c[1..]);
    }
  }

  /** Any two different strings are ordered one way or the other, and never both. */
  lemma {:induction false} LessTotal(a: string, b: string)
    ensures a != b ==> Less(a, b) || Less(b, a)
    ensures !(Less(a, b) && Less(b, a))
    decreases |a|
  {
    if |a| > 0 && |b| > 0 && a[0] == b[0] {
      LessTotal(a[1..], b[1..]);
      if a[1..] == b[1..] {
        assert a == [a[0]] + a[1..] && b == [b[0]] + b[1..];
      }
    }
  }

  /** Strings in strictly ascending order, hence without repeats. */
  predicate Ascending(ks: seq<string>) {
    forall i, j :: 0 <= i < j < |ks| ==> Less(ks[i], ks[j])
  }

  /** Adds `c` to an ascending list of distinct strings, keeping it ascending and distinct. */
  function InsertKey(ks: seq<string>, c: string): (r: seq<string>)
    requires Ascending(ks)
    ensures Ascending(r)
    ensures forall e :: e in r <==> e in ks || e == c
  {
    if |ks| == 0 then [c]
    else
      var init, last := ks[..|ks| - 1], ks[|ks| - 1];
      SplitLast(ks);
      if last == c then ks
      else if Less(last, c) then
        AppendGreatest(ks, c);
        ks + [c]
      else
        FrontBelowLast(ks, init, last);
        var ins := InsertKey(init, c);
        LessTotal(last, c);
        assert ins[|ins| - 1] in ins;
        AppendGreatest(ins, last);
        ins + [last]
  }

  /** The front of an ascending list is ascending and below its last element. */
  lemma FrontBelowLast(ks: seq<string>, init: seq<string>, last: string)
    requires Ascending(ks) && ks == init + [last]
    ensures Ascending(init)
    ensures forall e :: e in init ==> Less(e, last)
  {
    assert ks[|ks| - 1] == last;
    forall i, j | 0 <= i < j < |init| ensures Less(init[i], init[j]) {
      assert init[i] == ks[i] && init[j] == ks[j];
    }
    forall e | e in init ensures Less(e, last) {
      var i :| 0 <= i < |init| && init[i] == e;
      assert ks[i] == e;
    }
  }

  /** Appending a string greater than the current last one keeps the list ascending. */
  lemma AppendGreatest(ks: seq<string>, c: string)
    requires Ascending(ks)
    requires |ks| > 0 ==> Less(ks[|ks| - 1], c)
    ensures Ascending(ks + [c])
  {
    var r := ks + [c];
    forall i, j | 0 <= i < j < |r| ensures Less(r[i], r[j]) {
      if j == |ks| && i < |ks| - 1 {
        LessTransitive(ks[i], ks[|ks| - 1], c);
      }
    }
  }

  /** Two ascending lists holding the same strings are the same list: the order of the keys is
      determined by the keys alone. */
  lemma {:induction false} AscendingUnique(a: seq<string>, b: seq<string>)
    requires Ascending(a) && Ascending(b)
    requires forall e :: e in a <==> e in b
    ensures a == b
    decreases |a|
  {
    if |a| == 0 || |b| == 0 {
      forall e ensures multiset(a)[e] == multiset(b)[e] {
        assert e !in a && e !in b;
      }
      assert multiset(a) == multiset(b);
      assert |a| == |multiset(a)| == |multiset(b)| == |b|;
    } else {
      assert a[0] in b && b[0] in a;
      var i :| 0 <= i < |b| && b[i] == a[0];
      var j :| 0 <= j < |a| && a[j] == b[0];
      if i > 0 && j > 0 {
        LessTransitive(b[0], b[i], a[j]);
        LessIrreflexive(b[0]);
      } else if i > 0 {
        LessIrreflexive(b[0]);
      } else if j > 0 {
        LessIrreflexive(a[0]);
      }
      assert a[0] == b[0];
      forall e ensures e in a[1..] <==> e in b[1..] {
        if e in a[1..] {
          var p :| 1 <= p < |a| && a[p] == e;
          if e == a[0] {
            LessIrreflexive(a[0]);
          }
          assert e in b;
        }
        if e in b[1..] {
          var q :| 1 <= q < |b| && b[q] == e;
          if e == b[0] {
            LessIrreflexive(b[0]);
          }
          assert e in a;
        }
      }
      AscendingUnique(a[1..], b[1..]);
      assert a == [a[0]] + a[1..] && b == [b[0]] + b[1..];
    }
  }
}
