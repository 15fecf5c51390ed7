/**
  The code-block highlighter (`highlight_code`): pick a pygments lexer for
  the language tag, falling back to the plain-text lexer when the lookup
  fails, format the code, and splice a fixed "code-info" header (a copy
  button and the language label) in after every opening
  `<div class="code-box">` of the formatter's output.
 */
module Highlight {
  import opened Strings

  /** A pygments lexer, as far as the converter can tell lexers apart:
      one found by its alias, or the plain-text `TextLexer`. */
  datatype Lexer = Named(alias: string) | PlainText

  /** The two pygments calls the highlighter makes. `lookup` is
      `get_lexer_by_name`, whose exception is `None` here; `format` is
      `highlight(code, lexer, HtmlFormatter(cssclass="code-box",
      style="colorful"))`. */
  datatype Pygments = Pygments(lookup: string -> Option<Lexer>, format: (string, Lexer) -> string)

  /** The opening tag of the formatter's wrapping container. */
  const CodeBoxOpen := "<div class=\"code-box\">"

  /** The header opens its own container, */
  const InfoOpen := "\n        <div class=\"code-info\">"

  /** holds the copy button, */
  const CopyButton :=
    "\n" +
    "            <button class=\"copy-icon\">\n" +
    "                <svg xmlns=\"http://www.w3.org/2000/svg\" width=\"20\" height=\"20\" " +
    "fill=\"none\" viewBox=\"0 0 24 24\" class=\"icon-sm\">" +
    "<path fill=\"currentColor\" fill-rule=\"evenodd\" " +
    "d=\"M7 5a3 3 0 0 1 3-3h9a3 3 0 0 1 3 3v9a3 3 0 0 1-3 3h-2v2a3 3 0 0 1-3 3H5" +
    "a3 3 0 0 1-3-3v-9a3 3 0 0 1 3-3h2zm2 2h5a3 3 0 0 1 3 3v5h2a1 1 0 0 0 1-1V5" +
    "a1 1 0 0 0-1-1h-9a1 1 0 0 0-1 1zM5 9a1 1 0 0 0-1 1v9a1 1 0 0 0 1 1h9a1 1 0 0 0 1-1v-9" +
    "a1 1 0 0 0-1-1z\" clip-rule=\"evenodd\"></path></svg>\n" +
    "                <span>Copy code</span>\n" +
    "            </button>\n" +
    "            "

  /** and then the language label, */
  const LabelOpen := "<span class=\"language\">"

  /** after which it closes the label and the container. */
  const InfoTail := "</span>\n        </div>\n    "

  /** The container tag's first character, `<`, does not occur again in
      it, so occurrences of the tag never overlap. */
  lemma CodeBoxOpenUnique()
    ensures CodeBoxOpen != [] && CodeBoxOpen[0] !in CodeBoxOpen[1..]
  {
  }

  /** The lexer `highlight_code` ends up with: the one the lookup finds, or
      the plain-text lexer when the lookup fails. It never fails itself. */
  function ChooseLexer(pyg: Pygments, language: string): (lexer: Lexer)
    ensures pyg.lookup(language).Some? ==> lexer == pyg.lookup(language).value
    ensures pyg.lookup(language).None? ==> lexer == PlainText
  {
    match pyg.lookup(language)
    case Some(found) => found
    case None => PlainText
  }

  /** The code-info header for a language label: it opens the
      `code-info` container and ends with the label, verbatim, inside
      `<span class="language">`. */
  function CodeInfo(language: string): (info: string)
    ensures StartsWith(info, InfoOpen)
    ensures EndsWith(info, LabelOpen + language + InfoTail)
  {
    var tail := LabelOpen + language + InfoTail;
    StartsWithAppend(InfoOpen, CopyButton + tail);
    ConcatAssoc(InfoOpen, CopyButton, tail);
    EndsWithAppend(InfoOpen + CopyButton, tail);
    InfoOpen + (CopyButton + tail)
  }

  /** `highlight_code(code, language)`. The language tag is spliced into the
      template of an `re.sub`, which would interpret a backslash in it; the
      only caller passes a run of word characters, which has none.

      Replacing every header-carrying container tag back by the bare tag
      gives exactly the formatter's output for the chosen lexer, so the
      header is inserted right after each `<div class="code-box">` and
      nowhere else, and nothing of the formatter's output is lost. */
  function HighlightCode(pyg: Pygments, code: string, language: string): (html: string)
    requires '\\' !in language
    ensures ReplaceAll(html, CodeBoxOpen + CodeInfo(language), CodeBoxOpen)
            == pyg.format(code, ChooseLexer(pyg, language))
    ensures StartsWith(pyg.format(code, ChooseLexer(pyg, language)), CodeBoxOpen) ==>
              StartsWith(html, CodeBoxOpen + CodeInfo(language))
  {
    var formatted := pyg.format(code, ChooseLexer(pyg, language));
    CodeBoxOpenUnique();
    InsertAfterUndo(formatted, CodeBoxOpen, CodeInfo(language));
    ReplaceAll(formatted, CodeBoxOpen, CodeBoxOpen + CodeInfo(language))
  }

  /** The usual formatter output, one container whose body never repeats
      the opening tag, gets the header exactly once, as the container's
      first child. */
  lemma HighlightCodeSingleBox(pyg: Pygments, code: string, language: string, rest: string)
    requires '\\' !in language
    requires pyg.format(code, ChooseLexer(pyg, language)) == CodeBoxOpen + rest
    requires forall k :: !OccursAt(rest, CodeBoxOpen, k)
    ensures HighlightCode(pyg, code, language) == CodeBoxOpen + CodeInfo(language) + rest
  {
    var s := CodeBoxOpen + rest;
    assert StartsWith(s, CodeBoxOpen);
    assert s[|CodeBoxOpen|..] == rest;
    ReplaceAllAbsent(rest, CodeBoxOpen, CodeBoxOpen + CodeInfo(language));
  }

  /** The header goes right after the formatter's first container tag,
      the text before that tag is kept, and the same happens to every
      later container tag. */
  lemma HighlightCodeSplices(pyg: Pygments, code: string, language: string, a: string, b: string)
    requires '\\' !in language
    requires pyg.format(code, ChooseLexer(pyg, language)) == a + CodeBoxOpen + b
    requires forall k :: 0 <= k < |a| ==> !OccursAt(a + CodeBoxOpen + b, CodeBoxOpen, k)
    ensures HighlightCode(pyg, code, language)
            == a + (CodeBoxOpen + CodeInfo(language)) + ReplaceAll(b, CodeBoxOpen, CodeBoxOpen + CodeInfo(language))
  {
    ReplaceAllFirst(a, CodeBoxOpen, CodeBoxOpen + CodeInfo(language), b);
  }

  /** When the formatter emits no container tag, the output is passed on
      untouched. */
  lemma HighlightCodeWithoutBox(pyg: Pygments, code: string, language: string)
    requires '\\' !in language
    requires forall k :: !OccursAt(pyg.format(code, ChooseLexer(pyg, language)), CodeBoxOpen, k)
    ensures HighlightCode(pyg, code, language) == pyg.format(code, ChooseLexer(pyg, language))
  {
    ReplaceAllAbsent(pyg.format(code, ChooseLexer(pyg, language)), CodeBoxOpen, CodeBoxOpen + CodeInfo(language));
  }
}
