/** Plain substring search and replacement on strings: the two string
    operations the timezone rewriter relies on, Python's `pat in s` and
    `s.replace(pat, rep)`. */
module Text {

  /** `pat` occurs in `s` starting at index `i`. */
  predicate OccursAt(s: string, pat: string, i: int) {
    0 <= i && i + |pat| <= |s| && s[i..i + |pat|] == pat
  }

  /** `pat in s`: some index of `s` starts an occurrence of `pat`. */
  predicate Contains(s: string, pat: string) {
    exists i :: 0 <= i <= |s| - |pat| && OccursAt(s, pat, i)
  }

  /** `s.replace(pat, rep)` for a non-empty `pat`: scan `s` from the left and
      replace every non-overlapping occurrence of `pat` by `rep`; the scan
      resumes after the replaced occurrence. */
  function ReplaceAll(s: string, pat: string, rep: string): string
    requires pat != []
    decreases |s|
  {
    if |s| < |pat| then s
    else if s[..|pat|] == pat then rep + ReplaceAll(s[|pat|..], pat, rep)
    else [s[0]] + ReplaceAll(s[1..], pat, rep)
  }

  /** The index of the leftmost occurrence of `pat` in `s`. */
  ghost function FirstOccurrence(s: string, pat: string): (j: nat)
    requires Contains(s, pat)
    ensures OccursAt(s, pat, j)
    ensures forall i :: 0 <= i < j ==> !OccursAt(s, pat, i)
    decreases |s|
  {
    if OccursAt(s, pat, 0) then 0
    else
      ContainedInTail(s, pat);
      ShiftedOccurrence(s, 1, pat);
      1 + FirstOccurrence(s[1..], pat)
  }

  /** The index of the first `c` in `s`. */
  ghost function FirstIndexOf(s: string, c: char): (r: nat)
    requires c in s
    ensures r < |s| && s[r] == c
    ensures forall j :: 0 <= j < r ==> s[j] != c
  {
    if s[0] == c then 0
    else
      assert c in s[1..] by {
        var k :| 0 <= k < |s| && s[k] == c;
        assert s[1..][k - 1] == c;
      }
      1 + FirstIndexOf(s[1..], c)
  }

  /** The index of the last `c` in `s`. */
  ghost function LastIndexOf(s: string, c: char): (r: nat)
    requires c in s
    ensures r < |s| && s[r] == c
    ensures forall j :: r < j < |s| ==> s[j] != c
  {
    if s[|s| - 1] == c then |s| - 1
    else
      assert c in s[..|s| - 1] by {
        var k :| 0 <= k < |s| && s[k] == c;
        assert s[..|s| - 1][k] == c;
      }
      LastIndexOf(s[..|s| - 1], c)
  }

  /** Occurrences in a suffix are occurrences in the whole string, shifted. */
  lemma ShiftedOccurrence(s: string, d: nat, pat: string)
    requires d <= |s|
    ensures forall i :: 0 <= i ==> (OccursAt(s[d..], pat, i) <==> OccursAt(s, pat, i + d))
    ensures forall i :: d <= i ==> (OccursAt(s, pat, i) <==> OccursAt(s[d..], pat, i - d))
  {
    forall i | 0 <= i ensures OccursAt(s[d..], pat, i) <==> OccursAt(s, pat, i + d) {
      if i + |pat| <= |s| - d {
        assert s[d..][i..i + |pat|] == s[i + d..i + d + |pat|];
      }
    }
  }

  /** A pattern found in a suffix is found in the whole string. */
  lemma ContainedInSuffix(s: string, d: nat, pat: string)
    requires d <= |s|
    ensures Contains(s[d..], pat) ==> Contains(s, pat)
  {
    if Contains(s[d..], pat) {
      var i :| 0 <= i <= |s[d..]| - |pat| && OccursAt(s[d..], pat, i);
      assert s[d..][i..i + |pat|] == s[i + d..i + d + |pat|];
      assert OccursAt(s, pat, i + d);
    }
  }

  /** A pattern found in `s` but not at its start is found in `s[1..]`. */
  lemma ContainedInTail(s: string, pat: string)
    requires Contains(s, pat) && !OccursAt(s, pat, 0)
    ensures Contains(s[1..], pat)
  {
    var i :| 0 <= i <= |s| - |pat| && OccursAt(s, pat, i);
    assert s[1..][i - 1..i - 1 + |pat|] == s[i..i + |pat|];
    assert OccursAt(s[1..], pat, i - 1);
  }

  /** An occurrence of `a + b` holds an occurrence of `a` and one of `b`. */
  lemma ContainsParts(s: string, a: string, b: string)
    requires Contains(s, a + b)
    ensures Contains(s, a) && Contains(s, b)
  {
    var i :| 0 <= i <= |s| - |a + b| && OccursAt(s, a + b, i);
    assert s[i..i + |a|] == (a + b)[..|a|] == a;
    assert OccursAt(s, a, i);
    assert s[i + |a|..i + |a| + |b|] == (a + b)[|a|..] == b;
    assert OccursAt(s, b, i + |a|);
  }

  /** A pattern holding a character that `s` lacks does not occur in `s`. */
  lemma ContainsChars(s: string, pat: string, c: char)
    requires c in pat && c !in s
    ensures !Contains(s, pat)
  {
    var k :| 0 <= k < |pat| && pat[k] == c;
    forall i | 0 <= i <= |s| - |pat| ensures !OccursAt(s, pat, i) {
      assert s[i..i + |pat|][k] == s[i + k] != c;
    }
  }

  /** A string sitting between two others occurs in the concatenation. */
  lemma ContainsMiddle(a: string, b: string, c: string)
    ensures Contains(a + b + c, b)
  {
    assert (a + b + c)[|a|..|a| + |b|] == b;
    assert OccursAt(a + b + c, b, |a|);
  }

  /** Nothing to replace: `replace` returns its input. */
  lemma {:induction false} ReplaceAllUnchanged(s: string, pat: string, rep: string)
    requires pat != [] && !Contains(s, pat)
    ensures ReplaceAll(s, pat, rep) == s
    decreases |s|
  {
    if |s| >= |pat| {
      assert !OccursAt(s, pat, 0);
      ShiftedOccurrence(s, 1, pat);
      ReplaceAllUnchanged(s[1..], pat, rep);
      assert s == [s[0]] + s[1..];
    }
  }

  /** The scan passes over everything before the leftmost occurrence, replaces
      that occurrence and goes on after it. */
  lemma ReplaceAllAtFirst(s: string, pat: string, rep: string, j: nat)
    requires pat != [] && OccursAt(s, pat, j)
    requires forall i :: 0 <= i < j ==> !OccursAt(s, pat, i)
    ensures ReplaceAll(s, pat, rep) == s[..j] + rep + ReplaceAll(s[j + |pat|..], pat, rep)
  {
    SplitBeforeFirst(s, pat, rep, j);
    PrefixUntouched(s, pat, rep, j);
    ReplaceAllAtStart(s[j..], pat, rep);
    assert s[j..][|pat|..] == s[j + |pat|..];
  }

  /** No occurrence straddles the start of the leftmost one. */
  lemma SplitBeforeFirst(s: string, pat: string, rep: string, j: nat)
    requires pat != [] && j <= |s|
    requires forall i :: 0 <= i < j ==> !OccursAt(s, pat, i)
    ensures ReplaceAll(s, pat, rep) == ReplaceAll(s[..j], pat, rep) + ReplaceAll(s[j..], pat, rep)
  {
    assert s == s[..j] + s[j..];
    ReplaceAllConcat(s[..j], s[j..], pat, rep);
  }

  /** An occurrence at the start is replaced first. */
  lemma ReplaceAllAtStart(s: string, pat: string, rep: string)
    requires pat != [] && OccursAt(s, pat, 0)
    ensures ReplaceAll(s, pat, rep) == rep + ReplaceAll(s[|pat|..], pat, rep)
  {
    assert s[..|pat|] == pat;
  }

  /** The part before the leftmost occurrence comes through unchanged. */
  lemma PrefixUntouched(s: string, pat: string, rep: string, j: nat)
    requires pat != [] && j <= |s|
    requires forall i :: 0 <= i < j ==> !OccursAt(s, pat, i)
    ensures ReplaceAll(s[..j], pat, rep) == s[..j]
  {
    var x := s[..j];
    forall i | 0 <= i <= |x| - |pat| ensures !OccursAt(x, pat, i) {
      assert !OccursAt(s, pat, i);
      assert x[i..i + |pat|] == s[i..i + |pat|];
    }
    ReplaceAllUnchanged(x, pat, rep);
  }

  /** A text `x + pat + y` whose only occurrence of `pat` is the one after
      `x` has exactly that occurrence replaced. */
  lemma ReplaceAllOnly(x: string, pat: string, y: string, rep: string)
    requires pat != [] && !Contains(y, pat)
    requires forall i :: 0 <= i < |x| ==> !OccursAt(x + pat + y, pat, i)
    ensures ReplaceAll(x + pat + y, pat, rep) == x + rep + y
  {
    var s := x + pat + y;
    assert s[|x|..|x| + |pat|] == pat;
    ReplaceAllAtFirst(s, pat, rep, |x|);
    assert s[..|x|] == x;
    assert s[|x| + |pat|..] == y;
    ReplaceAllUnchanged(y, pat, rep);
  }

  /** String `b`, laid over string `a` from index `d` of `a` on, agrees with
      `a` wherever the two overlap. */
  ghost predicate Agree(a: string, b: string, d: int) {
    forall j :: 0 <= j < |b| && 0 <= d + j < |a| ==> a[d + j] == b[j]
  }

  /** An inserted `rep` cannot take part in an occurrence of `q`: `q` can
      neither start inside `rep` nor start before `rep` and run into it. */
  ghost predicate CannotForm(q: string, rep: string) {
    && (forall d :: 0 <= d < |rep| ==> !Agree(rep, q, d))
    && (forall e :: 0 < e < |q| ==> !Agree(q, rep, e))
  }

  /** An occurrence of `q` in `t` that overlaps a copy of `rep` at `j` makes
      the two agree on the overlap. */
  lemma OverlapAgrees(t: string, q: string, i: int, rep: string, j: int)
    requires 0 <= j && j + |rep| <= |t| && t[j..j + |rep|] == rep
    ensures OccursAt(t, q, i) && i < j ==> Agree(q, rep, j - i)
    ensures OccursAt(t, q, i) && j <= i ==> Agree(rep, q, i - j)
  {
    if OccursAt(t, q, i) {
      if i < j {
        forall k | 0 <= k < |rep| && 0 <= j - i + k < |q| ensures q[j - i + k] == rep[k] {
          assert t[i..i + |q|][j - i + k] == t[j + k] == t[j..j + |rep|][k];
        }
      } else {
        forall k | 0 <= k < |q| && 0 <= i - j + k < |rep| ensures rep[i - j + k] == q[k] {
          assert t[i..i + |q|][k] == t[i + k] == t[j..j + |rep|][i - j + k];
        }
      }
    }
  }

  /** Replacing `pat` by a `rep` that cannot take part in an occurrence of `q`
      creates no occurrence of `q`: if `q` is `pat` itself, none is left; if
      `q` was absent, it stays absent. */
  lemma {:induction false} NoNewOccurrence(s: string, pat: string, rep: string, q: string)
    requires pat != [] && q != []
    requires CannotForm(q, rep)
    requires q == pat || !Contains(s, q)
    ensures !Contains(ReplaceAll(s, pat, rep), q)
    decreases |s|
  {
    if !Contains(s, pat) {
      ReplaceAllUnchanged(s, pat, rep);
    } else {
      var j := FirstOccurrence(s, pat);
      var rest := s[j + |pat|..];
      ContainedInSuffix(s, j + |pat|, q);
      NoNewOccurrence(rest, pat, rep, q);
      ReplaceAllAtFirst(s, pat, rep, j);
      var tail := ReplaceAll(rest, pat, rep);
      forall i | 0 <= i <= |s[..j] + rep + tail| - |q| ensures !OccursAt(s[..j] + rep + tail, q, i) {
        OccurrenceAround(s[..j], rep, tail, q, i);
        if i + |q| <= j {
          assert s[..j][i..i + |q|] == s[i..i + |q|];
          assert !OccursAt(s, q, i);
        }
      }
    }
  }

  /** Where an occurrence of `q` in `a + rep + tail` can lie: inside `a`,
      overlapping `rep`, or inside `tail`. */
  lemma OccurrenceAround(a: string, rep: string, tail: string, q: string, i: int)
    ensures OccursAt(a + rep + tail, q, i) && i + |q| <= |a| ==> OccursAt(a, q, i)
    ensures OccursAt(a + rep + tail, q, i) && i < |a| < i + |q| ==> Agree(q, rep, |a| - i)
    ensures OccursAt(a + rep + tail, q, i) && |a| <= i < |a| + |rep| ==> Agree(rep, q, i - |a|)
    ensures OccursAt(a + rep + tail, q, i) && |a| + |rep| <= i ==> OccursAt(tail, q, i - |a| - |rep|)
  {
    var t := a + rep + tail;
    assert t[|a|..|a| + |rep|] == rep;
    OverlapAgrees(t, q, i, rep, |a|);
    if OccursAt(t, q, i) && i + |q| <= |a| {
      assert t[i..i + |q|] == a[i..i + |q|];
    }
    if OccursAt(t, q, i) && |a| + |rep| <= i {
      assert t[i..i + |q|] == tail[i - |a| - |rep|..i - |a| - |rep| + |q|];
    }
  }

  /** Replacement works piecewise across a boundary that no occurrence of
      `pat` straddles. */
  lemma {:induction false} ReplaceAllConcat(x: string, y: string, pat: string, rep: string)
    requires pat != []
    requires forall i :: 0 <= i < |x| < i + |pat| ==> !OccursAt(x + y, pat, i)
    ensures ReplaceAll(x + y, pat, rep) == ReplaceAll(x, pat, rep) + ReplaceAll(y, pat, rep)
    decreases |x|, 1
  {
    if x == [] {
      assert x + y == y;
    } else if |x + y| < |pat| {
      assert ReplaceAll(x, pat, rep) == x && ReplaceAll(y, pat, rep) == y;
    } else if (x + y)[..|pat|] == pat {
      ConcatFromMatch(x, y, pat, rep);
    } else {
      ConcatFromMismatch(x, y, pat, rep);
    }
  }

  /** `ReplaceAllConcat` when `pat` starts the text. */
  lemma {:induction false} ConcatFromMatch(x: string, y: string, pat: string, rep: string)
    requires pat != [] && x != [] && |pat| <= |x + y| && (x + y)[..|pat|] == pat
    requires forall i :: 0 <= i < |x| < i + |pat| ==> !OccursAt(x + y, pat, i)
    ensures ReplaceAll(x + y, pat, rep) == ReplaceAll(x, pat, rep) + ReplaceAll(y, pat, rep)
    decreases |x|, 0
  {
    ConcatAtMatch(x, y, pat, rep);
    var x' := x[|pat|..];
    StraddleShifted(x, y, pat, |pat|);
    ReplaceAllConcat(x', y, pat, rep);
    assert rep + (ReplaceAll(x', pat, rep) + ReplaceAll(y, pat, rep))
      == (rep + ReplaceAll(x', pat, rep)) + ReplaceAll(y, pat, rep);
  }

  /** `ReplaceAllConcat` when `pat` does not start the text. */
  lemma {:induction false} ConcatFromMismatch(x: string, y: string, pat: string, rep: string)
    requires pat != [] && x != [] && |pat| <= |x + y| && (x + y)[..|pat|] != pat
    requires forall i :: 0 <= i < |x| < i + |pat| ==> !OccursAt(x + y, pat, i)
    ensures ReplaceAll(x + y, pat, rep) == ReplaceAll(x, pat, rep) + ReplaceAll(y, pat, rep)
    decreases |x|, 0
  {
    ConcatAtMismatch(x, y, pat, rep);
    var x' := x[1..];
    StraddleShifted(x, y, pat, 1);
    ReplaceAllConcat(x', y, pat, rep);
    assert [x[0]] + (ReplaceAll(x', pat, rep) + ReplaceAll(y, pat, rep))
      == ([x[0]] + ReplaceAll(x', pat, rep)) + ReplaceAll(y, pat, rep);
  }

  /** The first step of `ReplaceAllConcat` when `pat` starts the text. */
  lemma ConcatAtMatch(x: string, y: string, pat: string, rep: string)
    requires pat != [] && x != [] && |pat| <= |x + y| && (x + y)[..|pat|] == pat
    requires forall i :: 0 <= i < |x| < i + |pat| ==> !OccursAt(x + y, pat, i)
    ensures |pat| <= |x|
    ensures ReplaceAll(x + y, pat, rep) == rep + ReplaceAll(x[|pat|..] + y, pat, rep)
    ensures ReplaceAll(x, pat, rep) == rep + ReplaceAll(x[|pat|..], pat, rep)
  {
    assert OccursAt(x + y, pat, 0);
    assert x[..|pat|] == pat;
    assert (x + y)[|pat|..] == x[|pat|..] + y;
  }

  /** The first step of `ReplaceAllConcat` when `pat` does not start the
      text. */
  lemma ConcatAtMismatch(x: string, y: string, pat: string, rep: string)
    requires pat != [] && x != [] && |pat| <= |x + y| && (x + y)[..|pat|] != pat
    ensures ReplaceAll(x + y, pat, rep) == [x[0]] + ReplaceAll(x[1..] + y, pat, rep)
    ensures ReplaceAll(x, pat, rep) == [x[0]] + ReplaceAll(x[1..], pat, rep)
  {
    assert (x + y)[1..] == x[1..] + y;
    if |x| >= |pat| {
      assert x[..|pat|] == (x + y)[..|pat|];
    } else {
      assert x == [x[0]] + x[1..];
      assert |x[1..]| < |pat|;
    }
  }

  /** Dropping `d` characters of the left part keeps the boundary clear. */
  lemma StraddleShifted(x: string, y: string, pat: string, d: nat)
    requires d <= |x|
    requires forall i :: 0 <= i < |x| < i + |pat| ==> !OccursAt(x + y, pat, i)
    ensures (x + y)[d..] == x[d..] + y
    ensures forall i :: 0 <= i < |x| - d < i + |pat| ==> !OccursAt(x[d..] + y, pat, i)
  {
    assert (x + y)[d..] == x[d..] + y;
    ShiftedOccurrence(x + y, d, pat);
  }

  /** A character that `pat` lacks cuts the text: replacement works
      piecewise on the two sides of it, and it stays the last character of the
      left side. */
  lemma ReplaceAllAfterCut(x: string, y: string, pat: string, rep: string, c: char)
    requires pat != [] && c !in pat
    requires x != [] && x[|x| - 1] == c
    ensures ReplaceAll(x + y, pat, rep) == ReplaceAll(x, pat, rep) + ReplaceAll(y, pat, rep)
    ensures var r := ReplaceAll(x, pat, rep); r != [] && r[|r| - 1] == c
  {
    CutNotStraddled(x + y, |x| - 1, pat, c);
    ReplaceAllConcat(x, y, pat, rep);
    var x0 := x[..|x| - 1];
    assert x0 + [c] == x;
    CutNotStraddled(x0 + [c], |x0|, pat, c);
    ReplaceAllConcat(x0, [c], pat, rep);
    ContainsChars([c], pat, pat[0]);
    ReplaceAllUnchanged([c], pat, rep);
  }

  /** No occurrence of `pat` covers a character that `pat` lacks. */
  lemma CutNotStraddled(t: string, p: nat, pat: string, c: char)
    requires c !in pat && p < |t| && t[p] == c
    ensures forall i :: 0 <= i <= p < i + |pat| ==> !OccursAt(t, pat, i)
  {
    forall i | 0 <= i <= p < i + |pat| ensures !OccursAt(t, pat, i) {
      if i + |pat| <= |t| {
        assert t[i..i + |pat|][p - i] == c;
        assert pat[p - i] in pat;
      }
    }
  }
}
