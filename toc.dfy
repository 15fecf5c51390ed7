/**
  `generate_toc_and_add_links`: collect the same-line `<h3>…</h3>` headings
  of the rendered page, build a table of contents linking to them, give
  every such heading an `id`, and splice the table in after the first
  same-line `<h2>…</h2>` (or in front of everything when there is none).

  `findall` and `sub` use the same pattern and both scan left to right
  without overlap, so they see the same matches: `Pieces` is that one scan,
  and both the headings and the rewritten page are read off it.
 */
module Toc {
  import opened Strings

  const H3Open := "<h3>"
  const H3Close := "</h3>"
  const H2Open := "<h2>"
  const H2Close := "</h2>"

  /** The first line of the table: its container, its own heading
      ("table of contents" in Persian) and the list opening. */
  const TocHead := "<div class=\"toc\"><h3>\U{0641}\U{0647}\U{0631}\U{0633}\U{062A} \U{0645}\U{0637}\U{0627}\U{0644}\U{0628}</h3><ul>"
  const TocFoot := "</ul></div>"

  /** The arguments both `slugify` calls pass: separator `-`, and spaces
      and zero-width non-joiners replaced by `-`. */
  const Separator := "-"
  const Replacements: seq<(string, string)> := [(" ", "-"), ("\U{200C}", "-")]

  /** `slugify(text, separator, replacements)` from python-slugify. */
  type Slugify = (string, string, seq<(string, string)>) -> string

  function Slug(slugify: Slugify, text: string): string
  {
    slugify(text, Separator, Replacements)
  }

  // ---------------------------------------------------------------------
  // The scan shared by `findall` and `sub`

  /** A stretch of the page: one copied character, or a matched heading
      with its raw title (group 1). */
  datatype Piece = Char(c: char) | Heading(title: string)

  /** The page cut at the matches of `<h3>(.*?)</h3>`, left to right. */
  function Pieces(s: string): seq<Piece>
    decreases |s|
  {
    if s == [] then []
    else match LineMatch(s, H3Open, H3Close)
      case Some(j) => [Heading(s[4..j])] + Pieces(s[j + 5..])
      case None => [Char(s[0])] + Pieces(s[1..])
  }

  function PieceText(p: Piece): string
  {
    match p
    case Char(c) => [c]
    case Heading(t) => H3Open + t + H3Close
  }

  /** The text a sequence of pieces was cut from. */
  function Unparse(ps: seq<Piece>): string
    decreases |ps|
  {
    if ps == [] then [] else PieceText(ps[0]) + Unparse(ps[1..])
  }

  /** The titles of the heading pieces, in order. */
  function Titles(ps: seq<Piece>): seq<string>
    decreases |ps|
  {
    if ps == [] then []
    else (if ps[0].Heading? then [ps[0].title] else []) + Titles(ps[1..])
  }

  /** `add_id_link`: the title is stripped, and the id is the slug of the
      stripped title. */
  function IdHeading(slugify: Slugify, isSpace: char -> bool, raw: string): string
  {
    var title := Strip(isSpace, raw);
    "<h3 id=\"" + Slug(slugify, title) + "\">" + title + "</h3>"
  }

  /** The page as `sub` rebuilds it from the pieces. */
  function Rendered(slugify: Slugify, isSpace: char -> bool, ps: seq<Piece>): string
    decreases |ps|
  {
    if ps == [] then []
    else
      (match ps[0]
       case Char(c) => [c]
       case Heading(t) => IdHeading(slugify, isSpace, t))
      + Rendered(slugify, isSpace, ps[1..])
  }

  lemma PiecesMatch(s: string, j: nat)
    requires s != [] && LineMatch(s, H3Open, H3Close) == Some(j)
    ensures j + 5 <= |s|
    ensures Pieces(s) == [Heading(s[4..j])] + Pieces(s[j + 5..])
  {
  }

  lemma PiecesSkip(s: string)
    requires s != [] && LineMatch(s, H3Open, H3Close).None?
    ensures Pieces(s) == [Char(s[0])] + Pieces(s[1..])
  {
  }

  lemma UnparseCons(p: Piece, ps: seq<Piece>)
    ensures Unparse([p] + ps) == PieceText(p) + Unparse(ps)
  {
    assert ([p] + ps)[1..] == ps;
  }

  lemma TitlesCons(p: Piece, ps: seq<Piece>)
    ensures Titles([p] + ps) == (if p.Heading? then [p.title] else []) + Titles(ps)
  {
    assert ([p] + ps)[1..] == ps;
  }

  lemma RenderedCons(slugify: Slugify, isSpace: char -> bool, p: Piece, ps: seq<Piece>)
    ensures Rendered(slugify, isSpace, [p] + ps)
            == (match p
                case Char(c) => [c]
                case Heading(t) => IdHeading(slugify, isSpace, t))
               + Rendered(slugify, isSpace, ps)
  {
    assert ([p] + ps)[1..] == ps;
  }

  /** The cut loses nothing: gluing the pieces back gives the page. */
  lemma {:induction false} PiecesUnparse(s: string)
    ensures Unparse(Pieces(s)) == s
    decreases |s|
  {
    if s != [] {
      match LineMatch(s, H3Open, H3Close)
      case Some(j) =>
        PiecesMatch(s, j);
        LineMatchSplit(s, H3Open, H3Close, j);
        UnparseCons(Heading(s[4..j]), Pieces(s[j + 5..]));
        PiecesUnparse(s[j + 5..]);
      case None =>
        PiecesSkip(s);
        UnparseCons(Char(s[0]), Pieces(s[1..]));
        PiecesUnparse(s[1..]);
        assert s == [s[0]] + s[1..];
    }
  }

  /** No title holds a line break: the pattern is not DOTALL. */
  lemma {:induction false} TitlesSingleLine(s: string)
    ensures forall t :: t in Titles(Pieces(s)) ==> '\n' !in t
    decreases |s|
  {
    if s != [] {
      match LineMatch(s, H3Open, H3Close)
      case Some(j) =>
        PiecesMatch(s, j);
        LineMatchSplit(s, H3Open, H3Close, j);
        TitlesCons(Heading(s[4..j]), Pieces(s[j + 5..]));
        TitlesSingleLine(s[j + 5..]);
      case None =>
        PiecesSkip(s);
        TitlesCons(Char(s[0]), Pieces(s[1..]));
        TitlesSingleLine(s[1..]);
    }
  }

  // ---------------------------------------------------------------------
  // findall and sub

  /** `re.findall(r'<h3>(.*?)</h3>', html_content)`. */
  function Headings(s: string): seq<string>
    decreases |s|
  {
    if s == [] then []
    else match LineMatch(s, H3Open, H3Close)
      case Some(j) => [s[4..j]] + Headings(s[j + 5..])
      case None => Headings(s[1..])
  }

  /** `re.sub(r'<h3>(.*?)</h3>', add_id_link, html_content)`. */
  function AddIds(slugify: Slugify, isSpace: char -> bool, s: string): string
    decreases |s|
  {
    if s == [] then []
    else match LineMatch(s, H3Open, H3Close)
      case Some(j) => IdHeading(slugify, isSpace, s[4..j]) + AddIds(slugify, isSpace, s[j + 5..])
      case None => [s[0]] + AddIds(slugify, isSpace, s[1..])
  }

  /** `findall` returns the titles of the pieces. */
  lemma {:induction false} HeadingsAreTitles(s: string)
    ensures Headings(s) == Titles(Pieces(s))
    decreases |s|
  {
    if s != [] {
      match LineMatch(s, H3Open, H3Close)
      case Some(j) =>
        PiecesMatch(s, j);
        TitlesCons(Heading(s[4..j]), Pieces(s[j + 5..]));
        HeadingsAreTitles(s[j + 5..]);
      case None =>
        PiecesSkip(s);
        TitlesCons(Char(s[0]), Pieces(s[1..]));
        HeadingsAreTitles(s[1..]);
    }
  }

  /** `sub` rewrites exactly the heading pieces and copies every other
      character; with `PiecesUnparse` and `HeadingsAreTitles`, the n-th
      rewritten heading is the n-th title `findall` returned. */
  lemma {:induction false} AddIdsRendersPieces(slugify: Slugify, isSpace: char -> bool, s: string)
    ensures AddIds(slugify, isSpace, s) == Rendered(slugify, isSpace, Pieces(s))
    decreases |s|
  {
    if s != [] {
      match LineMatch(s, H3Open, H3Close)
      case Some(j) =>
        PiecesMatch(s, j);
        RenderedCons(slugify, isSpace, Heading(s[4..j]), Pieces(s[j + 5..]));
        AddIdsRendersPieces(slugify, isSpace, s[j + 5..]);
      case None =>
        PiecesSkip(s);
        RenderedCons(slugify, isSpace, Char(s[0]), Pieces(s[1..]));
        AddIdsRendersPieces(slugify, isSpace, s[1..]);
    }
  }

  /** A page without `<h3>` has no headings and is left as it is. */
  lemma {:induction false} NoHeadings(slugify: Slugify, isSpace: char -> bool, s: string)
    requires forall k :: !OccursAt(s, H3Open, k)
    ensures Headings(s) == [] && AddIds(slugify, isSpace, s) == s
    decreases |s|
  {
    if s != [] {
      assert !OccursAt(s, H3Open, 0);
      StartsWithSplit(s, H3Open);
      OccursAtHead(s, H3Open, 0);
      assert LineMatch(s, H3Open, H3Close).None?;
      forall k: nat ensures !OccursAt(s[1..], H3Open, k) {
        OccursAtShift(s, H3Open, 1, k);
      }
      NoHeadings(slugify, isSpace, s[1..]);
    }
  }

  /** `add_id_link` keeps a title without surrounding whitespace verbatim,
      and takes its id from that very title. */
  lemma IdHeadingShape(slugify: Slugify, isSpace: char -> bool, raw: string)
    ensures raw == [] || (!isSpace(raw[0]) && !isSpace(raw[|raw| - 1])) ==>
              IdHeading(slugify, isSpace, raw) == "<h3 id=\"" + Slug(slugify, raw) + "\">" + raw + "</h3>"
  {
    if raw == [] || (!isSpace(raw[0]) && !isSpace(raw[|raw| - 1])) {
      StripKeeps(isSpace, raw);
      assert IdHeading(slugify, isSpace, raw) == "<h3 id=\"" + Slug(slugify, raw) + "\">" + raw + "</h3>";
    }
  }

  // ---------------------------------------------------------------------
  // The table of contents

  /** The link a table entry makes to a heading. */
  function EntryLine(slug: string, text: string): string
  {
    "<li><a href=\"#" + slug + "\">" + text + "</a></li>"
  }

  /** The entry for one heading: the slug of the raw, unstripped title. */
  function TocEntry(slugify: Slugify, heading: string): string
  {
    EntryLine(Slug(slugify, heading), heading)
  }

  /** The entries for `headings`, appended one at a time. */
  function Entries(slugify: Slugify, headings: seq<string>): seq<string>
    decreases |headings|
  {
    if headings == [] then []
    else Entries(slugify, headings[..|headings| - 1]) + [TocEntry(slugify, headings[|headings| - 1])]
  }

  /** `toc_lines` once the loop is done. */
  function TocLines(slugify: Slugify, headings: seq<string>): seq<string>
  {
    [TocHead] + Entries(slugify, headings) + [TocFoot]
  }

  /** The table has the fixed first and last lines and, between them, one
      entry per heading, in order. */
  lemma {:induction false} TocLinesShape(slugify: Slugify, headings: seq<string>)
    ensures var lines := TocLines(slugify, headings);
            && |lines| == |headings| + 2
            && lines[0] == TocHead && lines[|lines| - 1] == TocFoot
            && forall i :: 0 <= i < |headings| ==> lines[i + 1] == TocEntry(slugify, headings[i])
    decreases |headings|
  {
    EntriesShape(slugify, headings);
  }

  lemma {:induction false} EntriesShape(slugify: Slugify, headings: seq<string>)
    ensures |Entries(slugify, headings)| == |headings|
    ensures forall i :: 0 <= i < |headings| ==> Entries(slugify, headings)[i] == TocEntry(slugify, headings[i])
    decreases |headings|
  {
    if headings != [] {
      var init := headings[..|headings| - 1];
      EntriesShape(slugify, init);
      forall i | 0 <= i < |headings| - 1 ensures headings[i] == init[i] {
      }
    }
  }

  /** Without headings the table is still emitted, with an empty list. */
  lemma TocEmpty(slugify: Slugify)
    ensures JoinLines(TocLines(slugify, [])) == TocHead + "\n" + TocFoot
  {
    assert TocLines(slugify, []) == [TocHead, TocFoot];
    assert [TocHead, TocFoot][1..] == [TocFoot];
  }

  lemma EntryLineSingle(slug: string, text: string)
    requires '\n' !in slug && '\n' !in text
    ensures '\n' !in EntryLine(slug, text)
  {
  }

  lemma FixedLinesSingle()
    ensures '\n' !in TocHead && '\n' !in TocFoot
  {
  }

  /** No line of the table holds a line break when no heading and no slug
      does. */
  lemma TocLinesSingle(slugify: Slugify, headings: seq<string>)
    requires forall h :: h in headings ==> '\n' !in h && '\n' !in Slug(slugify, h)
    ensures forall k :: 0 <= k < |TocLines(slugify, headings)| ==> '\n' !in TocLines(slugify, headings)[k]
  {
    var lines := TocLines(slugify, headings);
    TocLinesShape(slugify, headings);
    FixedLinesSingle();
    forall k | 0 <= k < |lines| ensures '\n' !in lines[k] {
      if 0 < k < |lines| - 1 {
        var h := headings[k - 1];
        assert h in headings;
        EntryLineSingle(Slug(slugify, h), h);
      }
    }
  }

  /** When no slug holds a line break, the joined table splits back into
      exactly its lines. */
  lemma TocSplitsIntoLines(slugify: Slugify, s: string)
    requires forall t :: t in Headings(s) ==> '\n' !in Slug(slugify, t)
    ensures SplitLines(JoinLines(TocLines(slugify, Headings(s)))) == TocLines(slugify, Headings(s))
  {
    HeadingsAreTitles(s);
    TitlesSingleLine(s);
    TocLinesSingle(slugify, Headings(s));
    TocLinesShape(slugify, Headings(s));
    SplitJoinLines(TocLines(slugify, Headings(s)));
  }

  /** `generate_toc_and_add_links`' loop: the table's lines are collected
      in a list and joined with line breaks. */
  method BuildToc(slugify: Slugify, headings: seq<string>) returns (toc: string)
    ensures toc == JoinLines(TocLines(slugify, headings))
  {
    var lines := [TocHead];
    for i := 0 to |headings|
      invariant lines == [TocHead] + Entries(slugify, headings[..i])
    {
      assert headings[..i + 1][..i] == headings[..i];
      lines := lines + [TocEntry(slugify, headings[i])];
    }
    assert headings[..|headings|] == headings;
    lines := lines + [TocFoot];
    toc := JoinLines(lines);
  }

  /** A table entry links to the id `add_id_link` gives the same heading
      exactly when slugifying the raw and the stripped title agree. */
  lemma EntryMatchesId(slugify: Slugify, isSpace: char -> bool, raw: string)
    ensures TocEntry(slugify, raw) == EntryLine(Slug(slugify, Strip(isSpace, raw)), raw)
            <==> Slug(slugify, raw) == Slug(slugify, Strip(isSpace, raw))
  {
    var a, b := Slug(slugify, raw), Slug(slugify, Strip(isSpace, raw));
    if EntryLine(a, raw) == EntryLine(b, raw) {
      var pre := "<li><a href=\"#";
      assert |a| == |b|;
      assert a == EntryLine(a, raw)[|pre|..|pre| + |a|];
      assert b == EntryLine(b, raw)[|pre|..|pre| + |b|];
    }
  }

  // ---------------------------------------------------------------------
  // Insertion after the first h2

  /** `re.search(r'<h2>(.*?)</h2>', …)` from index `from` on: the start and
      the end of the leftmost same-line match. */
  function SearchH2(s: string, from: nat): Option<(nat, nat)>
    decreases |s| - from
  {
    if from >= |s| then None
    else match LineMatch(s[from..], H2Open, H2Close)
      case Some(j) => Some((from, from + j + 5))
      case None => SearchH2(s, from + 1)
  }

  lemma SearchH2Found(s: string, from: nat, j: nat)
    requires from < |s| && LineMatch(s[from..], H2Open, H2Close) == Some(j)
    ensures SearchH2(s, from) == Some((from, from + j + 5))
  {
  }

  lemma SearchH2Skip(s: string, from: nat)
    requires from < |s| && LineMatch(s[from..], H2Open, H2Close).None?
    ensures SearchH2(s, from) == SearchH2(s, from + 1)
  {
  }

  /** A match the search reports is the leftmost one: the pattern matches
      at its start, the match ends after the first `</h2>` on that line,
      and the pattern matches at no earlier index. */
  lemma {:induction false} SearchH2Leftmost(s: string, from: nat)
    ensures SearchH2(s, from).Some? ==>
              var i, e := SearchH2(s, from).value.0, SearchH2(s, from).value.1;
              && from <= i && i + 5 <= e <= |s|
              && LineMatch(s[i..], H2Open, H2Close) == Some(e - i - 5)
              && forall k :: from <= k < i ==> LineMatch(s[k..], H2Open, H2Close).None?
    decreases |s| - from
  {
    if from < |s| {
      match LineMatch(s[from..], H2Open, H2Close)
      case Some(j) =>
        LineMatchSplit(s[from..], H2Open, H2Close, j);
        SearchH2Found(s, from, j);
      case None =>
        SearchH2Leftmost(s, from + 1);
        SearchH2Skip(s, from);
    }
  }

  /** When the search reports nothing, the pattern matches nowhere. */
  lemma {:induction false} SearchH2Absent(s: string, from: nat)
    ensures SearchH2(s, from).None? ==>
              forall k :: from <= k <= |s| ==> LineMatch(s[k..], H2Open, H2Close).None?
    decreases |s| - from
  {
    if from < |s| {
      match LineMatch(s[from..], H2Open, H2Close)
      case Some(j) =>
        SearchH2Found(s, from, j);
      case None =>
        SearchH2Absent(s, from + 1);
        SearchH2Skip(s, from);
    } else {
      forall k | from <= k <= |s| ensures LineMatch(s[k..], H2Open, H2Close).None? {
        assert s[k..] == [];
      }
    }
  }

  /** The index the table goes to: after the first h2 match, or 0. */
  function InsertIndex(s: string): (e: nat)
    ensures e <= |s|
  {
    SearchH2Leftmost(s, 0);
    match SearchH2(s, 0)
    case Some((i, e)) => e
    case None => 0
  }

  /** The splice of `toc` into the id-rewritten page. Cutting the table
      back out gives the page. */
  function InsertToc(toc: string, s: string): (r: string)
    ensures |r| == |s| + |toc|
    ensures var e := InsertIndex(s);
            && r[..e] == s[..e] && r[e..e + |toc|] == toc && r[e + |toc|..] == s[e..]
            && r[..e] + r[e + |toc|..] == s
  {
    var e := InsertIndex(s);
    var r := s[..e] + toc + s[e..];
    assert r[..e] == s[..e] && r[e..e + |toc|] == toc && r[e + |toc|..] == s[e..];
    r
  }

  /** The page `generate_toc_and_add_links` returns. */
  function TocPage(slugify: Slugify, isSpace: char -> bool, html: string): string
  {
    InsertToc(JoinLines(TocLines(slugify, Headings(html))), AddIds(slugify, isSpace, html))
  }

  /** `generate_toc_and_add_links(html_content)`. */
  method GenerateTocAndAddLinks(slugify: Slugify, isSpace: char -> bool, html: string) returns (page: string)
    ensures page == TocPage(slugify, isSpace, html)
  {
    var headings := Headings(html);
    var toc := BuildToc(slugify, headings);
    var updated := AddIds(slugify, isSpace, html);
    page := InsertToc(toc, updated);
  }

  /** The page is the id-rewritten content with the table spliced in right
      after the first same-line h2 of that content, or in front when it has
      none; the table's own `<h3>` is added after the rewrite and stays
      without an id. */
  lemma TocPageShape(slugify: Slugify, isSpace: char -> bool, html: string)
    ensures var updated := AddIds(slugify, isSpace, html);
            var toc := JoinLines(TocLines(slugify, Headings(html)));
            var page := TocPage(slugify, isSpace, html);
            && (SearchH2(updated, 0).None? ==> page == toc + updated)
            && (SearchH2(updated, 0).Some? ==>
                  var e := SearchH2(updated, 0).value.1;
                  page == updated[..e] + toc + updated[e..])
            && StartsWith(toc, TocHead)
  {
    var updated := AddIds(slugify, isSpace, html);
    var toc := JoinLines(TocLines(slugify, Headings(html)));
    var page := TocPage(slugify, isSpace, html);
    var e := InsertIndex(updated);
    assert page == page[..e] + page[e..e + |toc|] + page[e + |toc|..];
    JoinLinesHead(TocLines(slugify, Headings(html)));
  }
}
