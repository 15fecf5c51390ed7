# django-booklet converter, modelled in Dafny

This project models `convertor.py` of django-booklet. The script turns the
`season-*.md` lecture files of a directory into HTML pages in four steps:

1. It highlights fenced code blocks with pygments and adds a copy-button
   header to each.
2. It renders the Markdown and adds a class to every image tag.
3. It gives every level-3 heading an `id`, builds a table of contents
   that links to those headings, and splices the table in after the first
   level-2 heading.
4. It derives each page's title, output path and "edit" link name from the
   file name.

Everything the script does itself is text rewriting, and the model writes
it as functions over strings. The libraries it calls are parameters:

- the Markdown renderer is a `string -> string` function;
- the pygments lexer lookup and formatter form the `Pygments` record;
- `slugify` is a parameter;
- `num2words(…).capitalize()` is a parameter;
- `os.path.isfile` is a parameter;
- the regular-expression classes `\w`, `\s` and `\d` are character
  predicates (`CharClasses`).

The regular expressions become deterministic left-to-right scans, with the
leftmost, non-overlapping matching of `re.sub` and `re.findall`. Where the
scan is not obviously the regex, a reference predicate states the regex's
possible decompositions, and a lemma proves that the scan picks the one the
regex engine picks: `FenceRegexAt` for the fence pattern and
`MdNameRegexAt` for the `md_name` pattern.

There are two loops. The table-of-contents loop is the method
`Toc.BuildToc`. The script's loop over the files is
`FileNames.PlanConversions`, with `FileNames.FirstNumbers` for the title
comprehension.

Modules:

- `Strings`: shared scans and Python string operations (`find`, `rstrip`,
  `strip`, `replace`, `join`, `split`, the same-line lazy match).
- `Highlight`: `highlight_code`.
- `Fences`: the fence pass of `markdown_to_html`.
- `Images`: the image pass.
- `Markdown`: `markdown_to_html` as a whole.
- `Toc`: `generate_toc_and_add_links`.
- `FileNames`: the script's file selection, titles, output paths and
  `md_name`.

Where the code and the usual description of the converter differ, the model
follows the code:

- The table entry slugifies the raw heading text, but the `id` is the slug
  of the stripped text (`Toc.EntryMatchesId`).
- The output path replaces every `.md` in the path, not only the extension
  (`FileNames.OutputPathReplacesEvery`).
- The header is inserted after every `<div class="code-box">` the formatter
  emits, not exactly once (`Highlight.HighlightCode`).
- The image class goes in front of the first `>` on the tag's line, not
  at the end of the attribute list, so a trailing `/` ends up before it
  (`Images.ImageSelfClosing`).
- Only bare `<h3>…</h3>` pairs on one line count as headings.
- A selected file name without a digit stops the whole run before any page
  is converted, not just that one file (`FileNames.PlanConversions`).
- The edit-link name keeps the directory (see Findings). The script model
  uses the name as written (`FileNames.JobFor`). A name whose search fails
  stops the run at that file, after the earlier pages are written
  (`FileNames.ConvertAll`).

## Model

| member | source | states |
|---|---|---|
| Highlight.ChooseLexer | convertor.py:13-16 | The lexer is the one the lookup finds; when the lookup fails it is the plain-text lexer, so the choice never fails. |
| Highlight.CodeInfo | convertor.py:21-29 | The header opens the `code-info` container and ends with the language argument, verbatim, inside `<span class="language">`, followed by the closing tags. |
| Highlight.HighlightCode | convertor.py:12-33 | Replacing each header-carrying `<div class="code-box">` by the bare tag gives back the formatter's output for the chosen lexer, so the result adds nothing but headers after container tags. If the formatter output starts with the container tag, the result starts with the tag followed by the header. |
| Highlight.HighlightCodeSplices | convertor.py:31-32 | The header goes right after the first container tag, the text before the tag is kept, and the rest is processed the same way, so every container tag gets the header. |
| Highlight.HighlightCodeSingleBox | convertor.py:31-32 | For formatter output with a single container tag, the result is that tag, the header, then the rest unchanged. |
| Highlight.HighlightCodeWithoutBox | convertor.py:31-32 | Formatter output without a container tag is returned unchanged. |
| Strings.LineMatchSpec | convertor.py:56 | The non-DOTALL lazy match `open(.*?)close` closes at the first `close` after `open`, with no line break in between. When no match is found, every later `close` lies past a line break. |
| Strings.LineMatchSplit | convertor.py:65 | A matched text is the opening, a group without line breaks, the closing, and the rest. |
| Strings.FindFrom | convertor.py:40 | Returns the leftmost occurrence at or after the start index, or `None` when there is none. |
| Strings.RunEnd | convertor.py:40 | A greedy `[…]*` run: every character up to the result satisfies the class, and the next one does not. |
| Strings.RunStart | convertor.py:40 | The whitespace run before the closing fence is maximal: it reaches back until a non-member or the lower bound. |
| Strings.RStrip | convertor.py:44 | `rstrip()` returns a prefix, drops only whitespace, and leaves no trailing whitespace. |
| Strings.RStripKeeps | convertor.py:44 | A text that does not end in whitespace is its own `rstrip()`. |
| Strings.Strip | convertor.py:78 | `strip()` returns the text with only whitespace around it removed; the result neither starts nor ends with whitespace. |
| Strings.StripKeeps | convertor.py:78 | A text with no surrounding whitespace is its own `strip()`. |
| Strings.ReplaceAllSkips | convertor.py:170 | `replace` copies the text before the first occurrence unchanged. |
| Strings.ReplaceAllFirst | convertor.py:31-32 | The first occurrence is replaced, the text before it is copied, and the replacing continues after it. |
| Strings.ReplaceAllAbsent | convertor.py:31-32 | Replacing a pattern that does not occur changes nothing. |
| Strings.InsertAfterUndo | convertor.py:31-32 | After text is inserted behind every occurrence of a tag, replacing tag+insert by the tag gives the input back, when the tag cannot overlap itself. |
| Strings.ReplaceAllUndo | convertor.py:170 | A replacement can be reversed on text that does not contain the replacement string. |
| Strings.JoinLinesHead | convertor.py:74 | The `\n`-joined text starts with its first line. |
| Strings.SplitJoinLines | convertor.py:74 | Lines without line breaks, once joined with `\n`, split back into exactly those lines. |
| Fences.MatchFence | convertor.py:39-43 | At an opening fence, the match gives the language tag (a word-character run) and the body. The body does not end in whitespace. Both are the slices of the text at the reported positions, and a closing fence follows. |
| Fences.MatchFenceAgreesWithRegex | convertor.py:39-40 | The scan finds a match exactly when the DOTALL pattern has a decomposition. Its match is the one backtracking tries first: longest `\w*`, then longest `\s*`, then shortest body. |
| Fences.FenceBodyIsStripped | convertor.py:44 | The `rstrip()` in `code_block_replacer` never changes the body. |
| Fences.FencePassCopiesText | convertor.py:48-49 | Text without a backtick is copied unchanged in front of whatever the pass makes of the rest. |
| Fences.FencePassSkips | convertor.py:48-49 | Text at none of whose positions the fence pattern matches is copied unchanged in front of whatever the pass makes of the rest, backticks and inline code included. |
| Fences.FencePassWithoutMatch | convertor.py:48-49 | Where no match starts anywhere, the pass is the identity. |
| Fences.FencePassUnterminated | convertor.py:39-49 | An opening fence with no later fence passes through unchanged, with everything after it, behind any text in which no match starts. |
| Fences.FenceBlockScan | convertor.py:39-43 | A text laid out as a fenced block is matched with exactly its tag and its body. |
| Fences.FenceBlockMatch | convertor.py:39-43 | A block written as fence, tag, line, body, line, fence is matched with exactly that tag and body. |
| Fences.FencePassBlock | convertor.py:42-49 | Text in front of such a block in which no match starts is copied. The block becomes `highlight_code(body, tag)`, and the pass resumes after the closing fence. |
| Images.ImagePassKeepsLine | convertor.py:56-57 | A stretch without `>` up to a line break is copied unchanged. |
| Images.ImagePassSkips | convertor.py:56-57 | Text at none of whose positions a tag matches is copied unchanged in front of whatever the pass makes of the rest. |
| Images.ImagePassWithoutTags | convertor.py:56-57 | HTML without `<img` is unchanged. |
| Images.TagMatch | convertor.py:56 | A tag matches up to the first `>` after attributes that hold neither `>` nor a line break. |
| Images.ImageTagRewritten | convertor.py:56-57 | `<img` + attributes + `>` becomes `<img` + the same attributes + ` class="edu-img">`, and the rest is processed on. |
| Images.ImageSelfClosing | convertor.py:56-57 | In a self-closing tag, the `/` is kept and stands before the inserted class. |
| Images.ImageWithoutClose | convertor.py:56-57 | An `<img` with no `>` before the line break is left untouched. |
| Images.ImagePassUndone | convertor.py:56-57 | Stripping the inserted class again gives the input back: the pass only inserts the class. |
| Markdown.MarkdownToHtml | convertor.py:37-59 | Removing the image class gives the renderer's output on the fence-processed text. The stages run fence pass, render, image pass. |
| Markdown.PlainMarkdown | convertor.py:48-57 | Markdown in which no fenced block matches reaches the renderer untouched. Output without `<img` is returned as rendered. |
| Markdown.MarkdownWithBlock | convertor.py:42-53 | For a document with one fenced block and no other match, the renderer receives the highlighted block in place of the fenced text. |
| Toc.PiecesUnparse | convertor.py:65 | Cutting the page at the `<h3>(.*?)</h3>` matches loses nothing: gluing the pieces back gives the page. |
| Toc.TitlesSingleLine | convertor.py:65 | No heading title contains a line break. |
| Toc.HeadingsAreTitles | convertor.py:65 | `findall` returns the titles of the heading pieces, in order. |
| Toc.AddIdsRendersPieces | convertor.py:77-83 | `sub` rewrites exactly the heading pieces, in the same order as `findall` sees them, and copies every other character. |
| Toc.NoHeadings | convertor.py:65-83 | A page without `<h3>` has no headings and is unchanged by the id pass. |
| Toc.IdHeadingShape | convertor.py:77-81 | A title without surrounding whitespace is kept verbatim and gets the id `slugify(title)`. |
| Toc.EntriesShape | convertor.py:68-71 | There is one entry per heading, in order: `<li><a href="#slug">heading</a></li>`. |
| Toc.TocLinesShape | convertor.py:66-73 | The table lines are the fixed Persian-titled head, one entry per heading, and `</ul></div>`. |
| Toc.TocEmpty | convertor.py:66-74 | With no headings the table is still emitted: the head line, a line break, and the closing line. |
| Toc.TocLinesSingle | convertor.py:66-73 | No table line contains a line break when no heading and no slug does. |
| Toc.TocSplitsIntoLines | convertor.py:74 | The joined table splits back into exactly its lines when slugs contain no line breaks. |
| Toc.BuildToc | convertor.py:66-74 | The loop that appends one entry per heading produces the `\n`-joined table lines. |
| Toc.EntryMatchesId | convertor.py:69-80 | An entry links to the id of its heading exactly when `slugify(raw) == slugify(strip(raw))`. |
| Toc.SearchH2Leftmost | convertor.py:86 | A match that `re.search` reports starts at the leftmost index where a same-line `<h2>…</h2>` matches, and ends after the first `</h2>` there. |
| Toc.SearchH2Absent | convertor.py:86 | When `re.search` reports no match, the pattern matches at no index. |
| Toc.InsertIndex | convertor.py:86-92 | The insertion index lies within the page. |
| Toc.InsertToc | convertor.py:87-92 | The table sits at the insertion index. Cutting it back out gives the id-rewritten page. |
| Toc.GenerateTocAndAddLinks | convertor.py:63-94 | The method returns the page that `TocPage` specifies. |
| Toc.TocPageShape | convertor.py:83-92 | The table goes after the first h2 match of the id-rewritten page, or in front when there is none. The table starts with its own bare `<h3>`. |
| FileNames.SeasonFiles | convertor.py:156-157 | Exactly the regular files named `season-*.md` are selected, each as often as listed. |
| FileNames.FirstNumber | convertor.py:163 | `re.search(r"\d+")` fails exactly when the name has no digit. Otherwise it returns the leftmost maximal digit run. |
| FileNames.FirstNumberUnique | convertor.py:163 | The leftmost maximal digit run is unique, and `FirstNumber` returns it. |
| FileNames.FirstNumbers | convertor.py:163-164 | The comprehension fails exactly when some name has no digit. Otherwise it gives every name's first number, in order. |
| FileNames.OutputPathReplacesEvery | convertor.py:170 | Text before the first `.md` is kept, that `.md` becomes `.html`, and the replacing continues after it. |
| FileNames.OutputPathOfName | convertor.py:170 | A path with `.md` only at its end gets the `.html` extension. |
| FileNames.OutputPathUndone | convertor.py:170 | On a path without `.html`, replacing `.html` back by `.md` restores the path. |
| FileNames.ExtIndex | convertor.py:99 | `\.md$` matches before a final `.md`, or before a final `.md` plus line break, and nowhere else. |
| FileNames.ExtAtEnd | convertor.py:99 | Wherever `\.md$` matches, it is against the very end of the text, or the end before one final line break. |
| FileNames.MdNameAgreesWithRegex | convertor.py:99-100 | `md_name` exists exactly when `([^\\]+)\.md$` matches. It is the group of the leftmost match. |
| FileNames.MdNameKeepsDirectory | convertor.py:99-100 | For a path built as `direct + "/" + f` without backslashes, `md_name` is the whole path without `.md`, directory included. |
| FileNames.EditStemOfPath | convertor.py:99-100 | The corrected name is the file's own stem, whatever the directory. |
| FileNames.JobFor | convertor.py:98-100 | A conversion fails exactly when `md_name`'s search finds nothing. Otherwise it reads the script's path, writes to every `.md` replaced by `.html`, and links with the `md_name` group. |
| FileNames.JobForKeepsDirectory | convertor.py:98-100 | For a backslash-free POSIX path, the conversion does not fail, and its edit link name is the whole path without `.md`. |
| FileNames.ConvertAll | convertor.py:167-173 | The loop converts the files in order, and stops at the first conversion that raises. |
| FileNames.PlanConversions | convertor.py:153-173 | The run fails before any conversion exactly when a selected name has no digit. Otherwise the selected files are converted in order, each with its path, output path, title and `md_name`. The run stops at the first file whose `md_name` search fails, after converting the files before it. |

## Left out

- The Markdown renderer (`markdown.markdown`, convertor.py:52-53) is a foreign library and a parameter, so nothing is proved about what it does with the highlighted HTML.
- Pygments' lexer lookup and formatter are foreign calls, parameters of the model (convertor.py:14-19). This includes the `stripall` option and the `colorful` style, which only affect the formatter output.
- `slugify`'s own rules are not modelled: transliteration, lower-casing and separator trimming (convertor.py:69-70, 79-80). It is a parameter called with the same separator and replacement list at both call sites. Duplicate slugs are therefore not ruled out, as in the source.
- `num2words(…).capitalize()` (convertor.py:163) is a foreign call and a parameter.
- File reading and writing, `os.getcwd`, `os.listdir`, `os.path.isfile` and `print` are I/O (convertor.py:101-103, 144-147, 153-157, 173). The listing and the `isfile` answers are parameters; `convert_markdown_file` is not run, and `PlanConversions` returns the calls it would make.
- The HTML page template (convertor.py:108-142) is static text. It is the only consumer of `title` and `md_name`, which the model computes but does not embed.
- The Unicode tables behind `\w`, `\s`, `\d` and `str.isspace` are not modelled; they are predicates. The fence lemmas assume only what holds in Python: a backtick is neither a word nor a space character, and a backslash is not a word character.
- HighlightCode: requires a language without a backslash, because `re.sub` would read backslashes in the template as escapes; its only caller passes a `\w*` run, which never contains one.
- MarkdownToHtml: states its result through the inverse of the image pass rather than through the renderer, since the renderer is opaque.
- `re.MULTILINE` on the fence pattern is not modelled: the pattern has no `^` or `$`.
- The listing order of `os.listdir` is whatever the parameter sequence gives. `SeasonFiles` states which files are selected and how often, by multiset.

## Findings

| source | as written | input that shows it | evidently intended | confidence | as-written member | corrected member |
|---|---|---|---|---|---|---|
| convertor.py:99-100 | `md_name` is the text before `.md` after the last backslash. The script builds the path as `direct + "/" + f`, so with `/` separators the directory stays in the name, and the edit link at convertor.py:129 points to `seasons-source//home/u/booklet/season-1.md`. | `"/home/u/booklet/season-1.md"` gives `"/home/u/booklet/season-1"`. | The file's own stem, `"season-1"`. | medium, not executed | FileNames.MdNameKeepsDirectory | FileNames.EditStemOfPath |
