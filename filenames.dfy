/**
  The script around the converter: pick the `season-*.md` files of the
  working directory, title each one after the first number in its name,
  derive the output path, and the name `convert_markdown_file` puts into
  the page's "edit on GitHub" link.

  The directory listing, `os.path.isfile`, `\d` and the spelled-out,
  capitalised number (`num2words(…).capitalize()`) are parameters.
 */
module FileNames {
  import opened Strings

  const MdExt := ".md"
  const HtmlExt := ".html"
  const SeasonPrefix := "season-"

  // ---------------------------------------------------------------------
  // Selection

  /** The listing filter: a regular file whose name ends with `.md` and
      starts with `season-`. */
  predicate Selected(isFile: string -> bool, direct: string, f: string)
  {
    isFile(direct + "/" + f) && EndsWith(f, MdExt) && StartsWith(f, SeasonPrefix)
  }

  /** The list comprehension building `files`: exactly the selected names,
      each as often as the listing holds it. */
  function SeasonFiles(isFile: string -> bool, direct: string, names: seq<string>): (files: seq<string>)
    ensures forall f :: multiset(files)[f] == if Selected(isFile, direct, f) then multiset(names)[f] else 0
    ensures forall f :: f in files <==> f in names && Selected(isFile, direct, f)
    decreases |names|
  {
    if names == [] then []
    else
      var rest := SeasonFiles(isFile, direct, names[1..]);
      assert names == [names[0]] + names[1..];
      (if Selected(isFile, direct, names[0]) then [names[0]] else []) + rest
  }

  // ---------------------------------------------------------------------
  // Titles

  /** `n[i..i + |d|]` is the match of `\d+` that `re.search` finds: the
      leftmost digit starts it and it runs as far as the digits go. */
  predicate FirstRunAt(isDigit: char -> bool, n: string, i: nat, d: string)
  {
    && d != [] && i + |d| <= |n| && n[i..i + |d|] == d && AllSat(isDigit, d)
    && (forall k :: 0 <= k < i ==> !isDigit(n[k]))
    && (i + |d| == |n| || !isDigit(n[i + |d|]))
  }

  /** `re.search(r"\d+", n).group(0)`, or `None` where the search finds
      nothing and `.group` would fail. */
  function FirstNumber(isDigit: char -> bool, n: string): (r: Option<string>)
    ensures r.None? <==> forall k :: 0 <= k < |n| ==> !isDigit(n[k])
    ensures r.Some? ==> exists i :: FirstRunAt(isDigit, n, i, r.value)
  {
    var i := RunEnd(c => !isDigit(c), n, 0);
    if i == |n| then None
    else
      var e := RunEnd(isDigit, n, i);
      assert FirstRunAt(isDigit, n, i, n[i..e]);
      Some(n[i..e])
  }

  /** The match of `\d+` is unique: whatever `FirstRunAt` describes is what
      `FirstNumber` returns. */
  lemma FirstNumberUnique(isDigit: char -> bool, n: string, i: nat, d: string)
    requires FirstRunAt(isDigit, n, i, d)
    ensures FirstNumber(isDigit, n) == Some(d)
  {
    forall k | i <= k < i + |d| ensures isDigit(n[k]) {
      assert n[k] == d[k - i];
    }
    RunEndAt(c => !isDigit(c), n, 0, i);
    RunEndAt(isDigit, n, i, i + |d|);
  }

  // ---------------------------------------------------------------------
  // Output path

  /** `path.replace(".md", ".html")`: every occurrence is replaced, not
      only the extension. */
  function OutputPath(p: string): string
  {
    ReplaceAll(p, MdExt, HtmlExt)
  }

  /** Text before the first `.md` is kept, that `.md` becomes `.html`, and
      the replacement goes on after it. */
  lemma OutputPathReplacesEvery(a: string, b: string)
    requires forall k :: !OccursAt(a, MdExt, k)
    ensures OutputPath(a + MdExt + b) == a + HtmlExt + OutputPath(b)
  {
    var s := a + MdExt + b;
    assert s[..|a|] == a;
    assert s[|a|] == '.';
    forall k | 0 <= k < |a| ensures !OccursAt(s, MdExt, k) {
      if k + 3 <= |a| {
        assert !OccursAt(a, MdExt, k);
        assert s[k..k + 3] == a[k..k + 3];
      } else if k + 2 == |a| {
        assert k + 3 <= |s| && s[k..k + 3][2] == s[k + 2];
      } else {
        assert k + 3 <= |s| && s[k..k + 3][1] == s[k + 1];
      }
    }
    ReplaceAllSkips(s, MdExt, HtmlExt, |a|);
    assert s[..|a|] == a;
    assert s[|a|..] == MdExt + b;
    assert StartsWith(s[|a|..], MdExt);
    assert (MdExt + b)[3..] == b;
  }

  /** A name with a single `.md`, at its end, gets the `.html` extension. */
  lemma OutputPathOfName(stem: string)
    requires forall k :: !OccursAt(stem, MdExt, k)
    ensures OutputPath(stem + MdExt) == stem + HtmlExt
  {
    OutputPathReplacesEvery(stem, []);
    assert stem + MdExt + [] == stem + MdExt;
    assert ReplaceAll([], MdExt, HtmlExt) == [];
  }

  /** Nothing is lost: on a path without `.html`, replacing `.html` back by
      `.md` gives the input path. */
  lemma OutputPathUndone(p: string)
    requires forall k :: !OccursAt(p, HtmlExt, k)
    ensures ReplaceAll(OutputPath(p), HtmlExt, MdExt) == p
  {
    assert MdExt[0] !in HtmlExt[1..];
    ReplaceAllUndo(p, MdExt, HtmlExt);
  }

  // ---------------------------------------------------------------------
  // The name in the edit link

  /** Where `\.md$` matches: before a final `.md`, or before a final `.md`
      that a single line break follows (`$` also matches there). */
  function ExtIndex(p: string): (e: Option<nat>)
    ensures e.Some? ==> ExtAt(p, e.value)
    ensures e.None? ==> forall k :: !ExtAt(p, k)
  {
    if EndsWith(p, MdExt) then Some(|p| - 3)
    else if EndsWith(p, MdExt + "\n") then ExtAtBreak(p); Some(|p| - 4)
    else NoExtAt(p); None
  }

  predicate ExtAt(p: string, e: nat)
  {
    e + 3 <= |p| && p[e..e + 3] == MdExt
    && (e + 3 == |p| || (e + 4 == |p| && p[e + 3] == '\n'))
  }

  /** `\.md$` matches only against the end of the text. */
  lemma ExtAtEnd(p: string, k: nat)
    requires ExtAt(p, k)
    ensures (k + 3 == |p| && EndsWith(p, MdExt)) || (k + 4 == |p| && EndsWith(p, MdExt + "\n"))
  {
    if k + 4 == |p| {
      assert p[k..] == p[k..k + 3] + [p[k + 3]];
    } else {
      assert p[k..] == p[k..k + 3];
    }
  }

  lemma ExtAtBreak(p: string)
    requires EndsWith(p, MdExt + "\n")
    ensures ExtAt(p, |p| - 4)
  {
    var k := |p| - 4;
    assert p[k..k + 3] == p[k..][..3];
    assert p[k + 3] == p[k..][3];
  }

  lemma NoExtAt(p: string)
    requires !EndsWith(p, MdExt) && !EndsWith(p, MdExt + "\n")
    ensures forall k :: !ExtAt(p, k)
  {
    forall k: nat ensures !ExtAt(p, k) {
      if ExtAt(p, k) {
        ExtAtEnd(p, k);
      }
    }
  }

  /** The decompositions `([^\\]+)\.md$` admits: the group on `[i, e)`. */
  predicate MdNameRegexAt(p: string, i: nat, e: nat)
  {
    i < e && ExtAt(p, e) && forall k :: i <= k < e ==> p[k] != '\\'
  }

  /** `re.search(r"([^\\]+)\.md$", input_file).group(1)`, or `None` where
      the search finds nothing and `.group` would fail. */
  function MdName(p: string): Option<string>
  {
    match ExtIndex(p)
    case None => None
    case Some(e) =>
      var i := RunStart(c => c != '\\', p, 0, e);
      if i < e then Some(p[i..e]) else None
  }

  /** `MdName` is what the regular expression finds: a match exists exactly
      when some decomposition does, and the group returned is the one of
      the leftmost start. */
  lemma MdNameAgreesWithRegex(p: string)
    ensures MdName(p).Some? <==> exists i: nat, e: nat :: MdNameRegexAt(p, i, e)
    ensures MdName(p).Some? ==>
              exists i: nat, e: nat :: && MdNameRegexAt(p, i, e) && p[i..e] == MdName(p).value
                                       && forall i': nat, e': nat :: MdNameRegexAt(p, i', e') ==> i <= i'
  {
    match ExtIndex(p)
    case None =>
    case Some(e) =>
      var i := RunStart(c => c != '\\', p, 0, e);
      forall i': nat, e': nat | MdNameRegexAt(p, i', e') ensures e' == e && i <= i' {
      }
      if i < e {
        assert MdNameRegexAt(p, i, e);
      }
  }

  /** As written, the name keeps the whole path before `.md` when the path
      holds no backslash, the directory included. */
  lemma MdNameKeepsDirectory(direct: string, f: string)
    requires '\\' !in direct && '\\' !in f && EndsWith(f, MdExt)
    ensures MdName(direct + "/" + f) == Some(direct + "/" + f[..|f| - 3])
  {
    var p := direct + "/" + f;
    assert EndsWith(p, MdExt) by {
      assert p[|p| - 3..] == f[|f| - 3..];
    }
    var e := |p| - 3;
    forall k | 0 <= k < e ensures p[k] != '\\' {
      if k < |direct| { assert p[k] == direct[k]; }
      else if k > |direct| { assert p[k] == f[k - |direct| - 1]; }
    }
    RunStartAt(c => c != '\\', p, 0, e, 0);
    assert p[0..e] == direct + "/" + f[..|f| - 3];
  }

  /** The evidently intended edit-link name: the file name without its
      `.md`, after the last `/` or `\`. */
  function EditStem(p: string): Option<string>
  {
    match ExtIndex(p)
    case None => None
    case Some(e) =>
      var i := RunStart(c => c != '\\' && c != '/', p, 0, e);
      if i < e then Some(p[i..e]) else None
  }

  /** For a path the script builds, the corrected name is the file's own
      stem, whatever the directory. */
  lemma EditStemOfPath(direct: string, f: string)
    requires '/' !in f && '\\' !in f && EndsWith(f, MdExt) && |f| > 3
    ensures EditStem(direct + "/" + f) == Some(f[..|f| - 3])
  {
    var p := direct + "/" + f;
    assert p[|p| - 3..] == f[|f| - 3..];
    var e := |p| - 3;
    var i := |direct| + 1;
    forall k | i <= k < e ensures p[k] != '\\' && p[k] != '/' {
      assert p[k] == f[k - i];
    }
    assert p[i - 1] == '/';
    RunStartAt(c => c != '\\' && c != '/', p, 0, e, i);
    assert p[i..e] == f[..|f| - 3];
  }

  // ---------------------------------------------------------------------
  // The conversion loop

  /** One `convert_markdown_file(path, output_file, title)` call, with the
      name its edit link uses. */
  datatype Job = Job(input: string, output: string, title: string, editName: string)

  /** How the script's run ends: titling fails before any conversion, or
      every file is converted, or a conversion stops the script when
      `md_name`'s search finds nothing, after the conversions before it. */
  datatype Outcome = NoTitle | Completed(jobs: seq<Job>) | Crashed(jobs: seq<Job>, failing: string)

  /** The conversion of one selected file: `None` where `md_name`'s
      `.group(1)` raises, before the file is even opened. */
  function JobFor(spell: string -> string, direct: string, f: string, number: string): (job: Option<Job>)
    ensures job.None? <==> MdName(direct + "/" + f).None?
    ensures job.Some? ==> job.value.input == direct + "/" + f
                          && job.value.output == ReplaceAll(job.value.input, MdExt, HtmlExt)
                          && Some(job.value.editName) == MdName(job.value.input)
  {
    var path := direct + "/" + f;
    match MdName(path)
    case None => None
    case Some(name) => Some(Job(path, OutputPath(path), spell(number), name))
  }

  /** On a POSIX path without backslashes no conversion fails, and the edit
      link's name is the whole path without `.md`. */
  lemma JobForKeepsDirectory(spell: string -> string, direct: string, f: string, number: string)
    requires '\\' !in direct && '\\' !in f && EndsWith(f, MdExt)
    ensures JobFor(spell, direct, f, number)
            == Some(Job(direct + "/" + f, OutputPath(direct + "/" + f), spell(number), direct + "/" + f[..|f| - 3]))
  {
    MdNameKeepsDirectory(direct, f);
  }

  /** The list comprehension building `file_num`, up to the spelling:
      the first number of every file, or `None` as soon as one file has
      none. */
  method FirstNumbers(isDigit: char -> bool, files: seq<string>) returns (numbers: Option<seq<string>>)
    ensures numbers.None? <==> exists f :: f in files && FirstNumber(isDigit, f).None?
    ensures numbers.Some? ==>
              && |numbers.value| == |files|
              && forall k :: 0 <= k < |files| ==> FirstNumber(isDigit, files[k]) == Some(numbers.value[k])
  {
    var found: seq<string> := [];
    for i := 0 to |files|
      invariant |found| == i
      invariant forall k :: 0 <= k < i ==> FirstNumber(isDigit, files[k]) == Some(found[k])
    {
      match FirstNumber(isDigit, files[i])
      case None =>
        assert files[i] in files;
        return None;
      case Some(d) =>
        found := found + [d];
    }
    forall f | f in files ensures FirstNumber(isDigit, f).Some? {
      var k :| 0 <= k < |files| && files[k] == f;
    }
    numbers := Some(found);
  }

  /** The `for path, title in zip(…)` loop: convert the files in order,
      stopping at the first one whose conversion raises. */
  method ConvertAll(spell: string -> string, direct: string, files: seq<string>, numbers: seq<string>)
    returns (outcome: Outcome)
    requires |numbers| == |files|
    ensures !outcome.NoTitle?
    ensures outcome.Completed? ==>
              && |outcome.jobs| == |files|
              && forall i :: 0 <= i < |files| ==> JobFor(spell, direct, files[i], numbers[i]) == Some(outcome.jobs[i])
    ensures outcome.Crashed? ==>
              var n := |outcome.jobs|;
              && n < |files|
              && (forall i :: 0 <= i < n ==> JobFor(spell, direct, files[i], numbers[i]) == Some(outcome.jobs[i]))
              && JobFor(spell, direct, files[n], numbers[n]).None?
              && outcome.failing == direct + "/" + files[n]
  {
    var done: seq<Job> := [];
    for i := 0 to |files|
      invariant |done| == i
      invariant forall k :: 0 <= k < i ==> JobFor(spell, direct, files[k], numbers[k]) == Some(done[k])
    {
      match JobFor(spell, direct, files[i], numbers[i])
      case None =>
        return Crashed(done, direct + "/" + files[i]);
      case Some(job) =>
        done := done + [job];
    }
    outcome := Completed(done);
  }

  /** The script body: select the files, title each one, then convert them
      in order. Titling fails as a whole, before any conversion, as soon as
      one selected name holds no digit. */
  method PlanConversions(isFile: string -> bool, isDigit: char -> bool, spell: string -> string,
                         direct: string, names: seq<string>) returns (outcome: Outcome)
    ensures var files := SeasonFiles(isFile, direct, names);
            && (outcome.NoTitle? <==> exists f :: f in files && FirstNumber(isDigit, f).None?)
            && (outcome.Completed? ==>
                  && |outcome.jobs| == |files|
                  && forall i :: 0 <= i < |files| ==>
                       JobFor(spell, direct, files[i], FirstNumber(isDigit, files[i]).value) == Some(outcome.jobs[i]))
            && (outcome.Crashed? ==>
                  var n := |outcome.jobs|;
                  && n < |files|
                  && (forall i :: 0 <= i < n ==>
                        JobFor(spell, direct, files[i], FirstNumber(isDigit, files[i]).value) == Some(outcome.jobs[i]))
                  && MdName(direct + "/" + files[n]).None?
                  && outcome.failing == direct + "/" + files[n])
  {
    var files := SeasonFiles(isFile, direct, names);
    var numbers := FirstNumbers(isDigit, files);
    if numbers.None? {
      return NoTitle;
    }
    outcome := ConvertAll(spell, direct, files, numbers.value);
  }
}
