/**
  The image pass of `markdown_to_html`: `re.sub(r'<img(.*?)>',
  r'<img\1 class="edu-img">', html)`. The pattern is compiled without
  DOTALL, so a tag only matches when its `>` is on the same line as its
  `<img`; the class is then inserted in front of the first such `>`.
 */
module Images {
  import opened Strings

  const ImgOpen := "<img"
  const EduClass := " class=\"edu-img\""

  /** The image pass, scanning left to right: at a match the tag is
      rewritten and the scan resumes after its `>`; elsewhere one character
      is copied. */
  function ImagePass(s: string): string
    decreases |s|
  {
    if s == [] then []
    else match LineMatch(s, ImgOpen, ">")
      case Some(j) => ImgOpen + s[4..j] + EduClass + ">" + ImagePass(s[j + 1..])
      case None => [s[0]] + ImagePass(s[1..])
  }

  /** The inverse of the image pass: every same-line `<img …>` whose
      attributes end with the inserted class loses that class again. */
  function StripEduClass(r: string): string
    decreases |r|
  {
    if r == [] then []
    else match LineMatch(r, ImgOpen, ">")
      case Some(j) =>
        if EndsWith(r[4..j], EduClass)
        then ImgOpen + r[4..j - |EduClass|] + ">" + StripEduClass(r[j + 1..])
        else [r[0]] + StripEduClass(r[1..])
      case None => [r[0]] + StripEduClass(r[1..])
  }

  /** Text with no `<` in it is never changed by the pass before it: if the
      output starts with such a text, so does the input. */
  lemma {:induction false} ImagePassPrefix(t: string, w: string)
    requires '<' !in w
    ensures StartsWith(ImagePass(t), w) ==> StartsWith(t, w)
    decreases |t|
  {
    if t != [] && w != [] && StartsWith(ImagePass(t), w) {
      ImagePassHead(t);
      StartsWithAt(t, ImgOpen, 0);
      StartsWithAt(ImagePass(t), w, 0);
      match LineMatch(t, ImgOpen, ">")
      case Some(j) =>
        assert false;
      case None =>
        var r := ImagePass(t);
        assert r == [t[0]] + ImagePass(t[1..]);
        assert StartsWith(ImagePass(t[1..]), w[1..]) by {
          assert r[1..] == ImagePass(t[1..]);
          assert r[1..][..|w| - 1] == r[..|w|][1..];
        }
        ImagePassPrefix(t[1..], w[1..]);
        assert t[..|w|] == [t[0]] + t[1..][..|w| - 1];
    }
  }

  /** Where no tag matches, one character is copied. */
  lemma ImagePassSkip(t: string)
    requires t != [] && LineMatch(t, ImgOpen, ">").None?
    ensures ImagePass(t) == [t[0]] + ImagePass(t[1..])
  {
  }

  /** At a tag, the class is inserted and the scan resumes after the `>`. */
  lemma ImagePassMatch(t: string, j: nat)
    requires t != [] && LineMatch(t, ImgOpen, ">") == Some(j)
    ensures j + 1 <= |t|
    ensures ImagePass(t) == ImgOpen + t[4..j] + EduClass + ">" + ImagePass(t[j + 1..])
  {
    LineMatchBounds(t, ImgOpen, ">", j);
  }

  /** The first character survives the pass. */
  lemma ImagePassHead(t: string)
    requires t != []
    ensures ImagePass(t) != [] && ImagePass(t)[0] == t[0]
  {
    match LineMatch(t, ImgOpen, ">")
    case Some(j) =>
      StartsWithAt(t, ImgOpen, 0);
    case None =>
  }

  /** No tag matches at the start of a text whose first line break or end
      comes before any `>`. */
  lemma NoTagBeforeBreak(t: string, p: nat)
    requires 0 < p <= |t| && (p == |t| || t[p] == '\n')
    requires forall k :: 0 <= k < p ==> t[k] != '>' && t[k] != '\n'
    ensures LineMatch(t, ImgOpen, ">").None?
  {
    if StartsWith(t, ImgOpen) {
      forall k | 0 <= k < 4 ensures t[k] != '\n' {
        StartsWithAt(t, ImgOpen, k);
      }
      assert 4 <= p;
      match FindFrom(t, ">", 4)
      case None =>
      case Some(j) =>
        OccursAtChar(t, '>', j);
        assert p < j;
        assert t[4..j][p - 4] == '\n';
    }
  }

  /** One step of `ImagePassKeepsLine`: the first character is copied and
      the rest of the stretch follows. */
  lemma KeepsLineStep(t: string, p: nat)
    requires 0 < p <= |t| && LineMatch(t, ImgOpen, ">").None?
    requires ImagePass(t[1..]) == t[1..][..p - 1] + ImagePass(t[1..][p - 1..])
    ensures ImagePass(t) == t[..p] + ImagePass(t[p..])
  {
    ImagePassSkip(t);
    assert t[1..][p - 1..] == t[p..];
    ConsPrefix(t, p, ImagePass(t), ImagePass(t[1..]), ImagePass(t[p..]));
  }

  /** A stretch that holds neither `>` nor a line break, and ends at a line
      break or at the end of the text, is copied unchanged: no tag can start
      in it and reach a `>` on the same line. */
  lemma {:induction false} ImagePassKeepsLine(t: string, p: nat)
    requires p <= |t| && (p == |t| || t[p] == '\n')
    requires forall k :: 0 <= k < p ==> t[k] != '>' && t[k] != '\n'
    ensures ImagePass(t) == t[..p] + ImagePass(t[p..])
    decreases p
  {
    if p > 0 {
      NoTagBeforeBreak(t, p);
      ImagePassKeepsLine(t[1..], p - 1);
      KeepsLineStep(t, p);
    } else {
      assert t[..0] == [] && t[0..] == t;
    }
  }

  /** One step of `ImagePassSkips`: the first character is copied. */
  lemma SkipsStep(u: string, v: string)
    requires u != [] && LineMatch(u + v, ImgOpen, ">").None?
    requires ImagePass(u[1..] + v) == u[1..] + ImagePass(v)
    ensures ImagePass(u + v) == u + ImagePass(v)
  {
    var s := u + v;
    assert s[0] == u[0] && s[1..] == u[1..] + v;
    ImagePassSkip(s);
    ConsConcat(u, ImagePass(s), ImagePass(s[1..]), ImagePass(v));
  }

  /** Text at none of whose positions a tag matches is copied unchanged in
      front of whatever the pass makes of the rest. */
  lemma {:induction false} ImagePassSkips(u: string, v: string)
    requires forall i :: 0 <= i < |u| ==> LineMatch((u + v)[i..], ImgOpen, ">").None?
    ensures ImagePass(u + v) == u + ImagePass(v)
    decreases |u|
  {
    if u != [] {
      var s := u + v;
      assert s[0..] == s;
      forall i | 0 <= i < |u| - 1 ensures LineMatch((u[1..] + v)[i..], ImgOpen, ">").None? {
        assert (u[1..] + v)[i..] == s[i + 1..];
      }
      ImagePassSkips(u[1..], v);
      SkipsStep(u, v);
    } else {
      assert u + v == v;
    }
  }

  /** HTML in which `<img` never occurs is left as it is. */
  lemma {:induction false} ImagePassWithoutTags(s: string)
    requires forall k :: !OccursAt(s, ImgOpen, k)
    ensures ImagePass(s) == s
    decreases |s|
  {
    if s != [] {
      assert !OccursAt(s, ImgOpen, 0);
      StartsWithSplit(s, ImgOpen);
      OccursAtHead(s, ImgOpen, 0);
      ImagePassSkip(s);
      forall k: nat ensures !OccursAt(s[1..], ImgOpen, k) {
        OccursAtShift(s, ImgOpen, 1, k);
      }
      ImagePassWithoutTags(s[1..]);
    }
  }

  /** A tag whose attributes `x` hold neither `>` nor a line break is
      matched up to the `>` that follows them. */
  lemma TagMatch(x: string, rest: string)
    requires '>' !in x && '\n' !in x
    ensures LineMatch(ImgOpen + x + ">" + rest, ImgOpen, ">") == Some(4 + |x|)
  {
    var s := ImgOpen + x + ">" + rest;
    var j := 4 + |x|;
    assert StartsWith(s, ImgOpen);
    OccursAtChar(s, '>', j);
    forall k | 4 <= k < j ensures !OccursAt(s, ">", k) {
      assert s[k] == x[k - 4];
      OccursAtChar(s, '>', k);
    }
    assert FindFrom(s, ">", 4) == Some(j);
    assert s[4..j] == x;
  }

  /** A tag whose attributes `x` reach a `>` on the same line gets the
      class inserted right before that `>`; everything in `x` is kept in
      order. */
  lemma ImageTagRewritten(x: string, rest: string)
    requires '>' !in x && '\n' !in x
    ensures ImagePass(ImgOpen + x + ">" + rest) == ImgOpen + x + EduClass + ">" + ImagePass(rest)
  {
    var s := ImgOpen + x + ">" + rest;
    TagMatch(x, rest);
    assert s[4..4 + |x|] == x;
    assert s[4 + |x| + 1..] == rest;
  }

  /** A self-closing tag keeps its `/`, which now stands in front of the
      inserted class: `<img src="a.png" />` becomes
      `<img src="a.png" / class="edu-img">`. */
  lemma ImageSelfClosing(attrs: string, rest: string)
    requires '>' !in attrs && '\n' !in attrs
    ensures ImagePass(ImgOpen + attrs + "/>" + rest) == ImgOpen + attrs + "/" + EduClass + ">" + ImagePass(rest)
  {
    var x := attrs + "/";
    assert ImgOpen + attrs + "/>" + rest == ImgOpen + x + ">" + rest;
    ImageTagRewritten(x, rest);
  }

  /** A tag with no `>` before the end of its line is left untouched. */
  lemma ImageWithoutClose(x: string, tail: string)
    requires '>' !in x && '\n' !in x
    requires tail == [] || tail[0] == '\n'
    ensures ImagePass(ImgOpen + x + tail) == ImgOpen + x + ImagePass(tail)
  {
    var s := ImgOpen + x + tail;
    var p := 4 + |x|;
    forall k | 0 <= k < p ensures s[k] != '>' && s[k] != '\n' {
      if k >= 4 { assert s[k] == x[k - 4]; }
    }
    ImagePassKeepsLine(s, p);
    assert s[..p] == ImgOpen + x;
    assert s[p..] == tail;
  }

  /** Where no tag matches, the inverse copies one character. */
  lemma StripSkip(r: string)
    requires r != [] && LineMatch(r, ImgOpen, ">").None?
    ensures StripEduClass(r) == [r[0]] + StripEduClass(r[1..])
  {
  }

  /** The inverse removes the class from a rewritten tag. */
  lemma StripTag(x: string, rest: string)
    requires '>' !in x && '\n' !in x
    ensures StripEduClass(ImgOpen + x + EduClass + ">" + rest) == ImgOpen + x + ">" + StripEduClass(rest)
  {
    var y := x + EduClass;
    var r := ImgOpen + y + ">" + rest;
    assert ImgOpen + x + EduClass + ">" + rest == r;
    TagMatch(y, rest);
    var j := 4 + |y|;
    assert r[4..j] == y;
    assert EndsWith(y, EduClass);
    assert r[4..j - |EduClass|] == x;
    assert r[j + 1..] == rest;
  }

  /** The attributes of a matched tag hold neither `>` nor a line break,
      and the tag splits around them. */
  lemma TagAttrs(s: string, j: nat)
    requires LineMatch(s, ImgOpen, ">") == Some(j)
    ensures 4 <= j < |s|
    ensures '>' !in s[4..j] && '\n' !in s[4..j]
    ensures s == ImgOpen + s[4..j] + ">" + s[j + 1..]
  {
    LineMatchSpec(s, ImgOpen, ">");
    forall k | 4 <= k < j ensures s[k] != '>' {
      OccursAtChar(s, '>', k);
    }
    OccursAtChar(s, '>', j);
  }

  /** A rewritten tag is stripped back to the original one. */
  lemma MatchedTagStripped(s: string, j: nat)
    requires s != [] && LineMatch(s, ImgOpen, ">") == Some(j)
    requires StripEduClass(ImagePass(s[j + 1..])) == s[j + 1..]
    ensures StripEduClass(ImagePass(s)) == s
  {
    TagAttrs(s, j);
    ImagePassMatch(s, j);
    StripTag(s[4..j], ImagePass(s[j + 1..]));
  }

  /** A tag opening that is not matched is not matched after the pass
      either: the pass copies its line up to the line break unchanged. */
  lemma UnmatchedOpenKept(s: string)
    requires StartsWith(s, ImgOpen) && LineMatch(s, ImgOpen, ">").None?
    ensures LineMatch(ImagePass(s), ImgOpen, ">").None?
  {
    var r := ImagePass(s);
    var p := LineEnd(s, 4);
    LineMatchSpec(s, ImgOpen, ">");
    forall k | 0 <= k < p ensures s[k] != '>' && s[k] != '\n' {
      StartsWithAt(s, ImgOpen, k);
      OccursAtChar(s, '>', k);
      if k >= 4 {
        assert '\n' !in s[4..k];
      }
    }
    ImagePassKeepsLine(s, p);
    UnmatchedLineKept(s, r, p);
  }

  /** The line-level half of `UnmatchedOpenKept`: a text that agrees with
      an unmatched tag opening up to its line break is unmatched too. */
  lemma UnmatchedLineKept(s: string, r: string, p: nat)
    requires StartsWith(s, ImgOpen) && 4 <= p <= |s| && (p == |s| || s[p] == '\n')
    requires forall k :: 0 <= k < p ==> s[k] != '>'
    requires r == s[..p] + ImagePass(s[p..])
    ensures LineMatch(r, ImgOpen, ">").None?
  {
    if p == |s| {
      assert r == s;
      LineMatchSpec(r, ImgOpen, ">");
      match LineMatch(r, ImgOpen, ">")
      case None =>
      case Some(j) =>
        OccursAtChar(r, '>', j);
        assert false;
    } else {
      ImagePassHead(s[p..]);
      assert r[p] == '\n';
      assert StartsWith(r, ImgOpen) by {
        assert r[..4] == s[..4];
      }
      LineMatchSpec(r, ImgOpen, ">");
      forall k | 4 <= k && OccursAt(r, ">", k) ensures '\n' in r[4..k] {
        OccursAtChar(r, '>', k);
        assert r[4..k][p - 4] == r[p];
      }
    }
  }

  /** Where the pass copies a character, the inverse finds no tag either. */
  lemma SkippedNoTag(s: string)
    requires s != [] && LineMatch(s, ImgOpen, ">").None?
    ensures LineMatch(ImagePass(s), ImgOpen, ">").None?
  {
    if StartsWith(s, ImgOpen) {
      UnmatchedOpenKept(s);
    } else {
      var r := ImagePass(s);
      ImagePassSkip(s);
      ImagePassHead(s);
      ImagePassPrefix(s[1..], "img");
      assert ImgOpen[1..] == "img";
      assert r[1..] == ImagePass(s[1..]);
      StartsWithSplit(r, ImgOpen);
      StartsWithSplit(s, ImgOpen);
    }
  }

  /** The pass only inserts the class: stripping it again gives the input
      back, character for character. */
  lemma {:induction false} ImagePassUndone(s: string)
    ensures StripEduClass(ImagePass(s)) == s
    decreases |s|
  {
    if s != [] {
      match LineMatch(s, ImgOpen, ">")
      case Some(j) =>
        LineMatchSpec(s, ImgOpen, ">");
        ImagePassUndone(s[j + 1..]);
        MatchedTagStripped(s, j);
      case None =>
        ImagePassUndone(s[1..]);
        ImagePassSkip(s);
        ImagePassHead(s);
        SkippedNoTag(s);
        var r := ImagePass(s);
        StripSkip(r);
        assert r[1..] == ImagePass(s[1..]);
    }
  }
}
