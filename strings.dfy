/**
  Text primitives shared by every pass of the converter: prefix and
  occurrence tests, the leftmost search that `str.find` and the literal
  regular expressions perform, literal replace-all (`re.sub` with a literal
  pattern, `str.replace`), the same-line lazy match `open(.*?)close` of a
  regular expression compiled without DOTALL, Python's `strip`/`rstrip`,
  and `'\n'.join` with its inverse `split('\n')`.
 */
module Strings {

  datatype Option<T> = None | Some(value: T)

  /** The character classes `\w`, `\s` and `\d` of Python's `re` module on
      `str` patterns, and `str.isspace` (which agrees with `\s`). They are
      Unicode tables the model does not reproduce. */
  datatype CharClasses = CharClasses(isWord: char -> bool, isSpace: char -> bool, isDigit: char -> bool)

  /** The facts about those tables that the converter relies on: a backtick
      is neither a word character nor whitespace, and a backslash is not a
      word character. */
  predicate ValidClasses(cls: CharClasses)
  {
    !cls.isWord('`') && !cls.isSpace('`') && !cls.isWord('\\')
  }

  predicate StartsWith(s: string, p: string)
  {
    |p| <= |s| && s[..|p|] == p
  }

  predicate EndsWith(s: string, p: string)
  {
    |p| <= |s| && s[|s| - |p|..] == p
  }

  /** `p` occurs in `s` starting at index `i`. */
  predicate OccursAt(s: string, p: string, i: nat)
  {
    i + |p| <= |s| && s[i..i + |p|] == p
  }

  predicate AllSat(p: char -> bool, s: string)
  {
    forall k :: 0 <= k < |s| ==> p(s[k])
  }

  lemma OccursAtShift(s: string, p: string, i: nat, k: nat)
    requires i <= |s|
    ensures OccursAt(s[i..], p, k) <==> OccursAt(s, p, i + k)
  {
    if i + k + |p| <= |s| {
      assert s[i..][k..k + |p|] == s[i + k..i + k + |p|];
    }
  }

  /** An occurrence starts with the pattern's first character. */
  lemma OccursAtHead(s: string, p: string, i: nat)
    ensures OccursAt(s, p, i) && p != [] ==> s[i] == p[0]
  {
    if OccursAt(s, p, i) && p != [] {
      assert s[i] == s[i..i + |p|][0];
    }
  }

  /** A one-character pattern occurs exactly where that character is. */
  lemma OccursAtChar(s: string, c: char, i: nat)
    ensures OccursAt(s, [c], i) <==> i < |s| && s[i] == c
  {
    if i < |s| {
      assert s[i..i + 1] == [s[i]];
    }
  }

  /** A prefix fixes the first characters. */
  lemma StartsWithAt(s: string, p: string, k: nat)
    ensures StartsWith(s, p) && k < |p| ==> s[k] == p[k]
  {
    if StartsWith(s, p) && k < |p| {
      assert s[k] == s[..|p|][k];
    }
  }

  /** Concatenation is associative. */
  lemma ConcatAssoc(a: string, b: string, c: string)
    ensures a + (b + c) == (a + b) + c
  {
  }

  /** The leftmost occurrence of `p` in `s` at or after index `from`. */
  function FindFrom(s: string, p: string, from: nat): (r: Option<nat>)
    ensures r.Some? ==> from <= r.value && OccursAt(s, p, r.value)
    ensures r.Some? ==> forall k :: from <= k < r.value ==> !OccursAt(s, p, k)
    ensures r.None? ==> forall k :: from <= k ==> !OccursAt(s, p, k)
    decreases |s| - from
  {
    if from + |p| > |s| then None
    else if OccursAt(s, p, from) then Some(from)
    else FindFrom(s, p, from + 1)
  }

  /** The end of the maximal run of characters satisfying `p` that starts
      at `i` (a greedy `[…]*`). */
  function RunEnd(p: char -> bool, s: string, i: nat): (j: nat)
    requires i <= |s|
    ensures i <= j <= |s|
    ensures forall k :: i <= k < j ==> p(s[k])
    ensures j == |s| || !p(s[j])
    decreases |s| - i
  {
    if i < |s| && p(s[i]) then RunEnd(p, s, i + 1) else i
  }

  /** The start of the maximal run of characters satisfying `p` that ends
      at `hi`, never going below `lo`. */
  function RunStart(p: char -> bool, s: string, lo: nat, hi: nat): (k: nat)
    requires lo <= hi <= |s|
    ensures lo <= k <= hi
    ensures forall m :: k <= m < hi ==> p(s[m])
    ensures k == lo || !p(s[k - 1])
    decreases hi - lo
  {
    if lo < hi && p(s[hi - 1]) then RunStart(p, s, lo, hi - 1) else hi
  }

  /** The leftmost occurrence is the one with no occurrence before it. */
  lemma FindFromAt(s: string, p: string, from: nat, d: nat)
    requires from <= d && OccursAt(s, p, d)
    requires forall k :: from <= k < d ==> !OccursAt(s, p, k)
    ensures FindFrom(s, p, from) == Some(d)
  {
  }

  /** A run that cannot be extended is the maximal one. */
  lemma RunEndAt(p: char -> bool, s: string, i: nat, e: nat)
    requires i <= e <= |s|
    requires forall k :: i <= k < e ==> p(s[k])
    requires e == |s| || !p(s[e])
    ensures RunEnd(p, s, i) == e
  {
  }

  /** A backward run that cannot be extended is the maximal one. */
  lemma RunStartAt(p: char -> bool, s: string, lo: nat, hi: nat, k: nat)
    requires lo <= k <= hi <= |s|
    requires forall m :: k <= m < hi ==> p(s[m])
    requires k == lo || !p(s[k - 1])
    ensures RunStart(p, s, lo, hi) == k
  {
  }

  /** The index of the first line break at or after `i`, or `|s|`. */
  function LineEnd(s: string, i: nat): (e: nat)
    requires i <= |s|
    ensures i <= e <= |s|
    ensures forall k :: i <= k < e ==> s[k] != '\n'
    ensures e == |s| || s[e] == '\n'
    decreases |s| - i
  {
    if i < |s| && s[i] != '\n' then LineEnd(s, i + 1) else i
  }

  /** Python's `str.rstrip()`. */
  function RStrip(isSpace: char -> bool, s: string): (r: string)
    ensures |r| <= |s| && r == s[..|r|]
    ensures forall k :: |r| <= k < |s| ==> isSpace(s[k])
    ensures r == [] || !isSpace(r[|r| - 1])
  {
    s[..RunStart(isSpace, s, 0, |s|)]
  }

  /** `rstrip` leaves a text that does not end in whitespace alone. */
  lemma RStripKeeps(isSpace: char -> bool, s: string)
    requires s == [] || !isSpace(s[|s| - 1])
    ensures RStrip(isSpace, s) == s
  {
    RunStartAt(isSpace, s, 0, |s|, |s|);
    assert s[..|s|] == s;
  }

  /** Python's `str.strip()`: `s` is `r` padded on both sides with
      whitespace, and `r` neither starts nor ends with whitespace. */
  function Strip(isSpace: char -> bool, s: string): (r: string)
    ensures exists i :: StrippedAt(isSpace, s, r, i)
    ensures r == [] || (!isSpace(r[0]) && !isSpace(r[|r| - 1]))
  {
    var i := RunEnd(isSpace, s, 0);
    var j := RunStart(isSpace, s, i, |s|);
    assert StrippedAt(isSpace, s, s[i..j], i);
    s[i..j]
  }

  /** A text that neither starts nor ends with whitespace is its own
      `strip()`. */
  lemma StripKeeps(isSpace: char -> bool, s: string)
    requires s == [] || (!isSpace(s[0]) && !isSpace(s[|s| - 1]))
    ensures Strip(isSpace, s) == s
  {
    RunEndAt(isSpace, s, 0, 0);
    RunStartAt(isSpace, s, 0, |s|, |s|);
  }

  /** `s` is `r` placed at index `i` with only whitespace around it. */
  predicate StrippedAt(isSpace: char -> bool, s: string, r: string, i: nat)
  {
    i + |r| <= |s| && s[i..i + |r|] == r
    && (forall k :: 0 <= k < i ==> isSpace(s[k]))
    && (forall k :: i + |r| <= k < |s| ==> isSpace(s[k]))
  }

  /** The lazy, single-line match `open(.*?)close` anchored at index 0 of
      `s` (a pattern compiled without DOTALL, so `.` never crosses a line
      break). On success the result is the index where `close` starts; the
      captured group is `s[|open|..j]`. */
  function LineMatch(s: string, open: string, close: string): Option<nat>
  {
    if !StartsWith(s, open) then None
    else match FindFrom(s, close, |open|)
      case None => None
      case Some(j) => if '\n' in s[|open|..j] then None else Some(j)
  }

  /** The match `LineMatch` reports is the non-DOTALL lazy one: the text
      opens with `open`, `close` occurs at the index returned and not
      earlier, with no line break in between; and when the text opens with
      `open` but nothing is found, every later `close` is past a line break. */
  lemma LineMatchSpec(s: string, open: string, close: string)
    ensures LineMatch(s, open, close).Some? ==>
              var j := LineMatch(s, open, close).value;
              StartsWith(s, open) && |open| <= j && OccursAt(s, close, j)
    ensures LineMatch(s, open, close).Some? ==>
              forall k :: |open| <= k < LineMatch(s, open, close).value ==> s[k] != '\n' && !OccursAt(s, close, k)
    ensures LineMatch(s, open, close).None? && StartsWith(s, open) ==>
              forall k :: |open| <= k && OccursAt(s, close, k) ==> '\n' in s[|open|..k]
  {
    if StartsWith(s, open) {
      match FindFrom(s, close, |open|)
      case None =>
      case Some(j) =>
        if '\n' !in s[|open|..j] {
          forall k | |open| <= k < j ensures s[k] != '\n' {
            assert s[k] == s[|open|..j][k - |open|];
          }
        } else {
          forall k | |open| <= k && OccursAt(s, close, k) ensures '\n' in s[|open|..k] {
            assert s[|open|..j] == s[|open|..k][..j - |open|];
          }
        }
    }
  }

  /** A text matched by `LineMatch` splits into the opening, the captured
      group, which holds no line break, the closing and the rest. */
  /** The reported index leaves room for the opening and the closing. */
  lemma LineMatchBounds(s: string, open: string, close: string, j: nat)
    requires LineMatch(s, open, close) == Some(j)
    ensures |open| <= j && j + |close| <= |s|
  {
    var f := FindFrom(s, close, |open|);
    assert f == Some(j);
  }

  lemma LineMatchSplit(s: string, open: string, close: string, j: nat)
    requires LineMatch(s, open, close) == Some(j)
    ensures |open| <= j && j + |close| <= |s| && '\n' !in s[|open|..j]
    ensures s == open + s[|open|..j] + close + s[j + |close|..]
  {
    LineMatchSpec(s, open, close);
    assert s[..|open|] == open;
    assert s[j..j + |close|] == close;
    assert s == s[..|open|] + s[|open|..j] + s[j..j + |close|] + s[j + |close|..];
  }

  /** Literal, leftmost, non-overlapping replacement of every occurrence of
      `pat` by `rep`: `str.replace`, and `re.sub` with a pattern and a
      template that hold no special characters. */
  function ReplaceAll(s: string, pat: string, rep: string): string
    requires pat != []
    decreases |s|
  {
    if s == [] then []
    else if StartsWith(s, pat) then rep + ReplaceAll(s[|pat|..], pat, rep)
    else [s[0]] + ReplaceAll(s[1..], pat, rep)
  }

  /** Text before the first occurrence of `pat` is copied unchanged. */
  lemma {:induction false} ReplaceAllSkips(s: string, pat: string, rep: string, n: nat)
    requires pat != [] && n <= |s|
    requires forall k :: 0 <= k < n ==> !OccursAt(s, pat, k)
    ensures ReplaceAll(s, pat, rep) == s[..n] + ReplaceAll(s[n..], pat, rep)
  {
    if n > 0 {
      assert !OccursAt(s, pat, 0);
      forall k | 0 <= k < n - 1 ensures !OccursAt(s[1..], pat, k) {
        OccursAtShift(s, pat, 1, k);
      }
      ReplaceAllSkips(s[1..], pat, rep, n - 1);
      assert s[1..][n - 1..] == s[n..];
      assert s[..n] == [s[0]] + s[1..][..n - 1];
    }
  }

  /** With no occurrence of `pat`, replacement is the identity. */
  lemma ReplaceAllAbsent(s: string, pat: string, rep: string)
    requires pat != []
    requires forall k :: !OccursAt(s, pat, k)
    ensures ReplaceAll(s, pat, rep) == s
  {
    ReplaceAllSkips(s, pat, rep, |s|);
    assert s[|s|..] == [];
  }

  lemma StartsWithCons(s: string, p: string)
    requires s != [] && p != [] && s[0] == p[0] && StartsWith(s[1..], p[1..])
    ensures StartsWith(s, p) && OccursAt(s, p, 0)
  {
    assert s[..|p|] == [s[0]] + s[1..][..|p| - 1];
  }

  /** A text starts with a non-empty prefix exactly when their first
      characters agree and the rest of the text starts with the rest of
      the prefix. */
  lemma StartsWithSplit(s: string, p: string)
    ensures p != [] ==>
              (StartsWith(s, p) <==> s != [] && s[0] == p[0] && StartsWith(s[1..], p[1..]))
  {
    if p != [] && s != [] && |s| >= |p| {
      assert s[..|p|] == [s[0]] + s[1..][..|p| - 1];
    }
  }

  /** The first character of the replaced text. */
  lemma ReplaceAllHead(t: string, pat: string, rep: string)
    requires pat != [] && rep != [] && t != []
    ensures ReplaceAll(t, pat, rep) != []
    ensures ReplaceAll(t, pat, rep)[0] == if StartsWith(t, pat) then rep[0] else t[0]
  {
  }

  /** The first occurrence of `pat` is replaced, the text before it is
      copied, and the replacing goes on after it. */
  lemma ReplaceAllFirst(a: string, pat: string, rep: string, b: string)
    requires pat != []
    requires forall k :: 0 <= k < |a| ==> !OccursAt(a + pat + b, pat, k)
    ensures ReplaceAll(a + pat + b, pat, rep) == a + rep + ReplaceAll(b, pat, rep)
  {
    var s := a + pat + b;
    ReplaceAllSkips(s, pat, rep, |a|);
    assert s[..|a|] == a && s[|a|..] == pat + b;
    StartsWithAppend(pat, b);
    assert (pat + b)[|pat|..] == b;
    ConcatAssoc(a, rep, ReplaceAll(b, pat, rep));
  }

  /** If the replaced text starts with `w` and `w` holds no first character
      of `pat` (which `rep` starts with), then no replacement happened
      inside `w`: the original text starts with `w` too. */
  lemma {:induction false} ReplaceAllPrefix(t: string, pat: string, rep: string, w: string)
    requires pat != [] && rep != [] && rep[0] == pat[0] && pat[0] !in w
    requires StartsWith(ReplaceAll(t, pat, rep), w)
    ensures StartsWith(t, w)
    decreases |t|
  {
    if w != [] && t != [] {
      ReplaceAllHead(t, pat, rep);
      if StartsWith(t, pat) {
        assert false;
      } else {
        var r := ReplaceAll(t, pat, rep);
        assert r == [t[0]] + ReplaceAll(t[1..], pat, rep);
        assert w[0] == t[0];
        assert StartsWith(ReplaceAll(t[1..], pat, rep), w[1..]) by {
          assert r[1..] == ReplaceAll(t[1..], pat, rep);
          assert r[1..][..|w| - 1] == r[..|w|][1..];
        }
        ReplaceAllPrefix(t[1..], pat, rep, w[1..]);
        assert t[..|w|] == [t[0]] + t[1..][..|w| - 1];
      }
    }
  }

  /** Splicing `extra` after every occurrence of a pattern that cannot
      overlap itself is undone by replacing `pat + extra` back by `pat`. */
  lemma {:induction false} InsertAfterUndo(s: string, pat: string, extra: string)
    requires pat != [] && pat[0] !in pat[1..]
    ensures ReplaceAll(ReplaceAll(s, pat, pat + extra), pat + extra, pat) == s
    decreases |s|
  {
    var rep := pat + extra;
    if s != [] {
      var r := ReplaceAll(s, pat, rep);
      if StartsWith(s, pat) {
        var t := ReplaceAll(s[|pat|..], pat, rep);
        assert r == rep + t;
        assert StartsWith(r, rep);
        assert r[|rep|..] == t;
        InsertAfterUndo(s[|pat|..], pat, extra);
        assert s == pat + s[|pat|..];
      } else {
        var t := ReplaceAll(s[1..], pat, rep);
        assert r == [s[0]] + t;
        if StartsWith(r, rep) {
          assert StartsWith(t, pat[1..]) by {
            assert t[..|pat| - 1] == r[..|pat|][1..];
          }
          ReplaceAllPrefix(s[1..], pat, rep, pat[1..]);
          assert false;
        }
        InsertAfterUndo(s[1..], pat, extra);
      }
    }
  }

  /** Replacing `pat` by `rep` is undone by replacing `rep` back by `pat`,
      provided `rep` never occurs in the original text and both start with
      the same character that `rep` does not repeat. */
  lemma {:induction false} ReplaceAllUndo(s: string, pat: string, rep: string)
    requires pat != [] && rep != [] && rep[0] == pat[0] && pat[0] !in rep[1..]
    requires forall k :: !OccursAt(s, rep, k)
    ensures ReplaceAll(ReplaceAll(s, pat, rep), rep, pat) == s
    decreases |s|
  {
    if s != [] {
      var r := ReplaceAll(s, pat, rep);
      forall k ensures !OccursAt(s[1..], rep, k) {
        OccursAtShift(s, rep, 1, k);
      }
      if StartsWith(s, pat) {
        var t := ReplaceAll(s[|pat|..], pat, rep);
        assert r == rep + t;
        assert r[|rep|..] == t;
        forall k ensures !OccursAt(s[|pat|..], rep, k) {
          OccursAtShift(s, rep, |pat|, k);
        }
        ReplaceAllUndo(s[|pat|..], pat, rep);
        assert s == pat + s[|pat|..];
      } else {
        var t := ReplaceAll(s[1..], pat, rep);
        assert r == [s[0]] + t;
        if StartsWith(r, rep) {
          assert StartsWith(t, rep[1..]) by {
            assert t[..|rep| - 1] == r[..|rep|][1..];
          }
          ReplaceAllPrefix(s[1..], pat, rep, rep[1..]);
          StartsWithCons(s, rep);
          assert false;
        }
        ReplaceAllUndo(s[1..], pat, rep);
      }
    }
  }

  /** `'\n'.join(lines)`. */
  function JoinLines(lines: seq<string>): string
    decreases |lines|
  {
    if lines == [] then []
    else if |lines| == 1 then lines[0]
    else lines[0] + "\n" + JoinLines(lines[1..])
  }

  lemma StartsWithAppend(a: string, b: string)
    ensures StartsWith(a + b, a)
  {
    assert (a + b)[..|a|] == a;
  }

  lemma EndsWithAppend(a: string, b: string)
    ensures EndsWith(a + b, b)
  {
    assert (a + b)[|a|..] == b;
  }

  /** A text that is the first character of `t` followed by a text that
      starts with the next `p - 1` characters of `t` starts with the first
      `p` characters of `t`. */
  lemma ConsPrefix(t: string, p: nat, x: string, y: string, a: string)
    requires 0 < p <= |t|
    requires x == [t[0]] + y && y == t[1..][..p - 1] + a
    ensures x == t[..p] + a
  {
    assert [t[0]] + t[1..][..p - 1] == t[..p];
  }

  /** A text made of the first character of `u`, then the rest of `u`,
      then `z`, is `u + z`. */
  lemma ConsConcat(u: string, x: string, y: string, z: string)
    requires u != [] && x == [u[0]] + y && y == u[1..] + z
    ensures x == u + z
  {
    assert [u[0]] + u[1..] == u;
  }

  /** The joined text starts with the first line. */
  lemma {:induction false} JoinLinesHead(lines: seq<string>)
    requires |lines| >= 1
    ensures StartsWith(JoinLines(lines), lines[0])
  {
    var rest := if |lines| == 1 then [] else "\n" + JoinLines(lines[1..]);
    assert JoinLines(lines) == lines[0] + rest;
    StartsWithAppend(lines[0], rest);
  }

  /** `s.split('\n')`. */
  function SplitLines(s: string): (lines: seq<string>)
    ensures |lines| >= 1
    decreases |s|
  {
    match FindFrom(s, "\n", 0)
    case None => [s]
    case Some(i) => [s[..i]] + SplitLines(s[i + 1..])
  }

  /** A text whose first `n` characters hold no line break has no
      occurrence of `"\n"` before index `n`. */
  lemma NoLineBreak(s: string, n: nat)
    requires n <= |s| && forall k :: 0 <= k < n ==> s[k] != '\n'
    ensures forall k :: 0 <= k < n ==> !OccursAt(s, "\n", k)
    ensures n == |s| ==> forall k :: !OccursAt(s, "\n", k)
  {
    forall k: nat | k < |s| ensures k < n ==> !OccursAt(s, "\n", k) {
      assert s[k..k + 1][0] == s[k];
    }
  }

  /** Joining lines that hold no line break and splitting the result again
      gives the lines back. */
  lemma {:induction false} SplitJoinLines(lines: seq<string>)
    requires |lines| >= 1
    requires forall k :: 0 <= k < |lines| ==> '\n' !in lines[k]
    ensures SplitLines(JoinLines(lines)) == lines
    decreases |lines|
  {
    var first := lines[0];
    var s := JoinLines(lines);
    if |lines| == 1 {
      NoLineBreak(s, |s|);
    } else {
      var rest := JoinLines(lines[1..]);
      assert s == first + "\n" + rest;
      assert s[..|first|] == first;
      NoLineBreak(s, |first|);
      assert OccursAt(s, "\n", |first|);
      assert FindFrom(s, "\n", 0) == Some(|first|);
      assert s[|first| + 1..] == rest;
      SplitJoinLines(lines[1..]);
    }
  }
}
