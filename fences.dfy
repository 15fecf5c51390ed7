/**
  The fence pass of `markdown_to_html`: every match of the pattern
  ```` ```(\w*)\s*(.*?)\s*``` ```` (DOTALL), taken left to right and without
  overlap, is replaced by the highlighted code block for its body and
  language tag; all other text is copied.

  A backtick is neither a word character nor whitespace, so the regular
  expression behaves like a deterministic scan at each opening fence: the
  language tag is the maximal run of word characters, the whitespace after
  it is skipped in full, the closing fence is the first fence after that,
  and the body stops where the whitespace in front of the closing fence
  begins. `MatchFenceAgreesWithRegex` proves that this scan finds a match
  exactly when the pattern does, and the same one.
 */
module Fences {
  import opened Strings
  import opened Highlight

  const Fence := "```"

  /** A match at the start of a text: the language tag (group 1), the body
      (group 2), the index where the body starts and the index where the
      closing fence starts. */
  datatype FenceMatch = FenceMatch(lang: string, body: string, bodyStart: nat, close: nat)

  /** The candidate decompositions of the pattern at index 0 of `s`:
      the opening fence, `\w*` on `[3, a)`, `\s*` on `[a, b)`, the body
      `.*?` on `[b, c)`, `\s*` on `[c, d)` and the closing fence at `d`. */
  predicate FenceRegexAt(cls: CharClasses, s: string, a: nat, b: nat, c: nat, d: nat)
  {
    && StartsWith(s, Fence)
    && 3 <= a <= b <= c <= d
    && OccursAt(s, Fence, d)
    && (forall k :: 3 <= k < a ==> cls.isWord(s[k]))
    && (forall k :: a <= k < b ==> cls.isSpace(s[k]))
    && (forall k :: c <= k < d ==> cls.isSpace(s[k]))
  }

  /** The match of the fence pattern anchored at index 0 of `s`, if any. */
  function MatchFence(cls: CharClasses, s: string): (m: Option<FenceMatch>)
    ensures m.Some? ==> StartsWith(s, Fence)
    ensures m.Some? ==> 3 + |m.value.lang| <= m.value.bodyStart
                        && m.value.bodyStart + |m.value.body| <= m.value.close
                        && m.value.close + 3 <= |s|
    ensures m.Some? ==> s[3..3 + |m.value.lang|] == m.value.lang
                        && s[m.value.bodyStart..m.value.bodyStart + |m.value.body|] == m.value.body
                        && OccursAt(s, Fence, m.value.close)
    ensures m.Some? ==> AllSat(cls.isWord, m.value.lang)
    ensures m.Some? ==> m.value.body == [] || !cls.isSpace(m.value.body[|m.value.body| - 1])
  {
    if !StartsWith(s, Fence) then None
    else
      var a := RunEnd(cls.isWord, s, 3);
      var b := RunEnd(cls.isSpace, s, a);
      match FindFrom(s, Fence, b)
      case None => None
      case Some(d) =>
        var c := RunStart(cls.isSpace, s, b, d);
        Some(FenceMatch(s[3..a], s[b..c], b, d))
  }

  /** The scan agrees with the regular expression: it finds a match exactly
      when some decomposition exists, its match is one of them, and it is
      the one backtracking tries first (longest `\w*`, then longest `\s*`,
      then shortest body, then longest trailing `\s*`). */
  lemma MatchFenceAgreesWithRegex(cls: CharClasses, s: string)
    requires ValidClasses(cls)
    ensures MatchFence(cls, s).Some? <==> exists a: nat, b: nat, c: nat, d: nat :: FenceRegexAt(cls, s, a, b, c, d)
    ensures MatchFence(cls, s).Some? ==>
              var m := MatchFence(cls, s).value;
              var A, B, C, D := 3 + |m.lang|, m.bodyStart, m.bodyStart + |m.body|, m.close;
              && FenceRegexAt(cls, s, A, B, C, D)
              && forall a: nat, b: nat, c: nat, d: nat :: FenceRegexAt(cls, s, a, b, c, d) ==>
                   a <= A && (a == A ==> b <= B && (b == B ==> C <= c && (c == C ==> d == D)))
  {
    if StartsWith(s, Fence) {
      var A := RunEnd(cls.isWord, s, 3);
      var B := RunEnd(cls.isSpace, s, A);
      match FindFrom(s, Fence, B)
      case None =>
        forall a: nat, b: nat, c: nat, d: nat | FenceRegexAt(cls, s, a, b, c, d) ensures false {
          OccursAtHead(s, Fence, d);
        }
      case Some(D) =>
        var C := RunStart(cls.isSpace, s, B, D);
        OccursAtHead(s, Fence, D);
        assert FenceRegexAt(cls, s, A, B, C, D);
        forall a: nat, b: nat, c: nat, d: nat | FenceRegexAt(cls, s, a, b, c, d)
          ensures a <= A && (a == A ==> b <= B && (b == B ==> C <= c && (c == C ==> d == D)))
        {
          OccursAtHead(s, Fence, d);
        }
    }
  }

  /** The fence pass: `code_block_re.sub(code_block_replacer, md_text)`.
      Each match's body goes through `rstrip` and the highlighter; where no
      match starts, one character is copied and the scan moves on. */
  function FencePass(cls: CharClasses, pyg: Pygments, s: string): string
    requires ValidClasses(cls)
    decreases |s|
  {
    if s == [] then []
    else match MatchFence(cls, s)
      case Some(m) =>
        HighlightCode(pyg, RStrip(cls.isSpace, m.body), m.lang) + FencePass(cls, pyg, s[m.close + 3..])
      case None => [s[0]] + FencePass(cls, pyg, s[1..])
  }

  /** The body handed to the highlighter never ends in whitespace, so the
      `rstrip` in `code_block_replacer` never changes it. */
  lemma FenceBodyIsStripped(cls: CharClasses, s: string)
    requires MatchFence(cls, s).Some?
    ensures RStrip(cls.isSpace, MatchFence(cls, s).value.body) == MatchFence(cls, s).value.body
  {
    RStripKeeps(cls.isSpace, MatchFence(cls, s).value.body);
  }

  /** No match starts at a character other than a backtick. */
  lemma NoFenceNoMatch(cls: CharClasses, s: string)
    requires s != [] && s[0] != '`'
    ensures MatchFence(cls, s).None?
  {
    StartsWithAt(s, Fence, 0);
  }

  /** Where no match starts, one character is copied. */
  lemma FencePassSkip(cls: CharClasses, pyg: Pygments, s: string)
    requires ValidClasses(cls)
    requires s != [] && MatchFence(cls, s).None?
    ensures FencePass(cls, pyg, s) == [s[0]] + FencePass(cls, pyg, s[1..])
  {
  }

  /** One step of `FencePassSkips`: the first character is copied. */
  lemma SkipsStep(cls: CharClasses, pyg: Pygments, u: string, v: string)
    requires ValidClasses(cls)
    requires u != [] && MatchFence(cls, u + v).None?
    requires FencePass(cls, pyg, u[1..] + v) == u[1..] + FencePass(cls, pyg, v)
    ensures FencePass(cls, pyg, u + v) == u + FencePass(cls, pyg, v)
  {
    var s := u + v;
    assert s[0] == u[0] && s[1..] == u[1..] + v;
    FencePassSkip(cls, pyg, s);
    ConsConcat(u, FencePass(cls, pyg, s), FencePass(cls, pyg, s[1..]), FencePass(cls, pyg, v));
  }

  /** Text at none of whose positions a match starts is copied unchanged in
      front of whatever the pass makes of the rest. */
  lemma {:induction false} FencePassSkips(cls: CharClasses, pyg: Pygments, u: string, v: string)
    requires ValidClasses(cls)
    requires forall i :: 0 <= i < |u| ==> MatchFence(cls, (u + v)[i..]).None?
    ensures FencePass(cls, pyg, u + v) == u + FencePass(cls, pyg, v)
    decreases |u|
  {
    if u != [] {
      var s := u + v;
      assert s[0..] == s;
      forall i | 0 <= i < |u| - 1 ensures MatchFence(cls, (u[1..] + v)[i..]).None? {
        assert (u[1..] + v)[i..] == s[i + 1..];
      }
      FencePassSkips(cls, pyg, u[1..], v);
      SkipsStep(cls, pyg, u, v);
    } else {
      assert u + v == v;
    }
  }

  /** Text without a backtick is copied unchanged in front of whatever the
      pass makes of the rest: no match can start in it. */
  lemma FencePassCopiesText(cls: CharClasses, pyg: Pygments, u: string, v: string)
    requires ValidClasses(cls)
    requires '`' !in u
    ensures FencePass(cls, pyg, u + v) == u + FencePass(cls, pyg, v)
  {
    forall i | 0 <= i < |u| ensures MatchFence(cls, (u + v)[i..]).None? {
      assert (u + v)[i..][0] == u[i];
      NoFenceNoMatch(cls, (u + v)[i..]);
    }
    FencePassSkips(cls, pyg, u, v);
  }

  /** Where no match starts anywhere, the pass is the identity. */
  lemma {:induction false} FencePassWithoutMatch(cls: CharClasses, pyg: Pygments, s: string)
    requires ValidClasses(cls)
    requires forall i :: 0 <= i < |s| ==> MatchFence(cls, s[i..]).None?
    ensures FencePass(cls, pyg, s) == s
    decreases |s|
  {
    if s != [] {
      assert s[0..] == s;
      forall i | 0 <= i < |s| - 1 ensures MatchFence(cls, s[1..][i..]).None? {
        assert s[1..][i..] == s[i + 1..];
      }
      FencePassWithoutMatch(cls, pyg, s[1..]);
    }
  }

  /** An opening fence with no later fence is not a match, and neither is
      anything after it: such a text passes through unchanged, behind any
      text in which no match starts. */
  lemma FencePassUnterminated(cls: CharClasses, pyg: Pygments, u: string, s: string)
    requires ValidClasses(cls)
    requires forall i :: 0 <= i < |u| ==> MatchFence(cls, (u + s)[i..]).None?
    requires StartsWith(s, Fence)
    requires forall k :: 3 <= k ==> !OccursAt(s, Fence, k)
    ensures FencePass(cls, pyg, u + s) == u + s
  {
    forall i | 0 <= i < |s| ensures MatchFence(cls, s[i..]).None? {
      var m := MatchFence(cls, s[i..]);
      if m.Some? {
        OccursAtShift(s, Fence, i, m.value.close);
      }
    }
    FencePassWithoutMatch(cls, pyg, s);
    FencePassSkips(cls, pyg, u, s);
  }
  /** Where the pieces of a fenced block lie in its text. */
  lemma BlockLayout(lang: string, body: string, v: string)
    ensures var s := Fence + lang + "\n" + body + "\n" + Fence + v;
            var a, b, d := 3 + |lang|, 4 + |lang|, |lang| + |body| + 5;
            && |s| == d + 3 + |v|
            && s[..3] == Fence && s[3..a] == lang && s[a] == '\n'
            && s[b..d - 1] == body && s[d - 1] == '\n'
            && s[d..d + 3] == Fence && s[d + 3..] == v
  {
  }

  /** The language tag and the line break after it. */
  lemma BlockHeadScan(cls: CharClasses, s: string, lang: string, b: nat)
    requires cls.isSpace('\n') && !cls.isWord('\n') && AllSat(cls.isWord, lang)
    requires b == 4 + |lang| < |s| && s[3..3 + |lang|] == lang && s[3 + |lang|] == '\n'
    requires !cls.isSpace(s[b])
    ensures RunEnd(cls.isWord, s, 3) == 3 + |lang|
    ensures RunEnd(cls.isSpace, s, 3 + |lang|) == b
  {
    forall k | 3 <= k < 3 + |lang| ensures cls.isWord(s[k]) {
      assert s[k] == s[3..3 + |lang|][k - 3];
    }
    RunEndAt(cls.isWord, s, 3, 3 + |lang|);
    RunEndAt(cls.isSpace, s, 3 + |lang|, b);
  }

  /** The body, the line break after it and the closing fence. */
  lemma BlockTailScan(cls: CharClasses, s: string, body: string, b: nat, d: nat)
    requires cls.isSpace('\n')
    requires '`' !in body && body != [] && !cls.isSpace(body[|body| - 1])
    requires d == b + |body| + 1 && d + 3 <= |s|
    requires s[b..d - 1] == body && s[d - 1] == '\n' && s[d..d + 3] == Fence
    ensures FindFrom(s, Fence, b) == Some(d)
    ensures RunStart(cls.isSpace, s, b, d) == d - 1
  {
    forall k | b <= k < d ensures !OccursAt(s, Fence, k) {
      if k < d - 1 { assert s[k] == s[b..d - 1][k - b]; }
      OccursAtHead(s, Fence, k);
    }
    FindFromAt(s, Fence, b, d);
    assert s[d - 2] == s[b..d - 1][|body| - 1];
    RunStartAt(cls.isSpace, s, b, d, d - 1);
  }

  /** The scan on a text laid out as a fenced block. */
  lemma FenceBlockScan(cls: CharClasses, s: string, lang: string, body: string)
    requires ValidClasses(cls) && cls.isSpace('\n') && !cls.isWord('\n')
    requires AllSat(cls.isWord, lang)
    requires '`' !in body && body != [] && !cls.isSpace(body[0]) && !cls.isSpace(body[|body| - 1])
    requires |s| >= |lang| + |body| + 8
    requires s[..3] == Fence && s[3..3 + |lang|] == lang && s[3 + |lang|] == '\n'
    requires s[4 + |lang|..|lang| + |body| + 4] == body && s[|lang| + |body| + 4] == '\n'
    requires s[|lang| + |body| + 5..|lang| + |body| + 8] == Fence
    ensures MatchFence(cls, s) == Some(FenceMatch(lang, body, |lang| + 4, |lang| + |body| + 5))
  {
    var b, d := 4 + |lang|, |lang| + |body| + 5;
    assert StartsWith(s, Fence);
    assert s[b] == s[b..d - 1][0];
    BlockHeadScan(cls, s, lang, b);
    BlockTailScan(cls, s, body, b, d);
  }

  /** A fenced block in the usual layout, the language tag and the body
      each on lines of their own, is matched with exactly that tag and
      body. */
  lemma FenceBlockMatch(cls: CharClasses, lang: string, body: string, v: string)
    requires ValidClasses(cls) && cls.isSpace('\n') && !cls.isWord('\n')
    requires AllSat(cls.isWord, lang)
    requires '`' !in body && body != [] && !cls.isSpace(body[0]) && !cls.isSpace(body[|body| - 1])
    ensures MatchFence(cls, Fence + lang + "\n" + body + "\n" + Fence + v)
            == Some(FenceMatch(lang, body, |lang| + 4, |lang| + |body| + 5))
  {
    BlockLayout(lang, body, v);
    FenceBlockScan(cls, Fence + lang + "\n" + body + "\n" + Fence + v, lang, body);
  }

  /** The pass highlights such a block with its tag and body and carries on
      after its closing fence; text in front of it is copied. */
  lemma FencePassBlock(cls: CharClasses, pyg: Pygments, u: string, lang: string, body: string, v: string)
    requires ValidClasses(cls) && cls.isSpace('\n') && !cls.isWord('\n')
    requires AllSat(cls.isWord, lang)
    requires '`' !in body && body != [] && !cls.isSpace(body[0]) && !cls.isSpace(body[|body| - 1])
    requires forall i :: 0 <= i < |u| ==>
               MatchFence(cls, (u + (Fence + lang + "\n" + body + "\n" + Fence + v))[i..]).None?
    ensures '\\' !in lang
    ensures FencePass(cls, pyg, u + (Fence + lang + "\n" + body + "\n" + Fence + v))
            == u + (HighlightCode(pyg, body, lang) + FencePass(cls, pyg, v))
  {
    var s := Fence + lang + "\n" + body + "\n" + Fence + v;
    FenceBlockMatch(cls, lang, body, v);
    BlockLayout(lang, body, v);
    RStripKeeps(cls.isSpace, body);
    FencePassSkips(cls, pyg, u, s);
  }
}
