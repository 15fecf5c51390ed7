/**
  `markdown_to_html`: the fence pass over the Markdown text, the Markdown
  renderer over the result, and the image pass over the rendered HTML.
  The renderer (`markdown.markdown` with the `fenced_code`, `codehilite`
  and `tables` extensions) is a parameter: nothing is assumed about it.
 */
module Markdown {
  import opened Strings
  import opened Highlight
  import opened Fences
  import opened Images

  /** `markdown_to_html(md_text)`. Removing the inserted image class again
      gives exactly the renderer's output for the fence-processed text: the
      three stages run in this order, and the image pass adds nothing but
      the class. */
  function MarkdownToHtml(cls: CharClasses, pyg: Pygments, render: string -> string, md: string): (html: string)
    requires ValidClasses(cls)
    ensures StripEduClass(html) == render(FencePass(cls, pyg, md))
  {
    var rendered := render(FencePass(cls, pyg, md));
    ImagePassUndone(rendered);
    ImagePass(rendered)
  }

  /** Markdown in which no fenced block matches reaches the renderer
      untouched, and rendered HTML without a tag opening `<img` leaves it
      untouched. */
  lemma PlainMarkdown(cls: CharClasses, pyg: Pygments, render: string -> string, md: string)
    requires ValidClasses(cls)
    requires forall i :: 0 <= i < |md| ==> MatchFence(cls, md[i..]).None?
    requires forall k :: !OccursAt(render(md), ImgOpen, k)
    ensures MarkdownToHtml(cls, pyg, render, md) == render(md)
  {
    FencePassWithoutMatch(cls, pyg, md);
    ImagePassWithoutTags(render(md));
  }

  /** A document made of text, one fenced block and more text, where no
      other match starts, hands the renderer the highlighted block in place
      of the fenced one. */
  lemma MarkdownWithBlock(cls: CharClasses, pyg: Pygments, render: string -> string,
                          u: string, lang: string, body: string, v: string)
    requires ValidClasses(cls) && cls.isSpace('\n') && !cls.isWord('\n')
    requires AllSat(cls.isWord, lang)
    requires '`' !in body && body != [] && !cls.isSpace(body[0]) && !cls.isSpace(body[|body| - 1])
    requires forall i :: 0 <= i < |u| ==>
               MatchFence(cls, (u + (Fence + lang + "\n" + body + "\n" + Fence + v))[i..]).None?
    requires forall i :: 0 <= i < |v| ==> MatchFence(cls, v[i..]).None?
    ensures '\\' !in lang
    ensures StripEduClass(MarkdownToHtml(cls, pyg, render, u + (Fence + lang + "\n" + body + "\n" + Fence + v)))
            == render(u + (HighlightCode(pyg, body, lang) + v))
  {
    FencePassBlock(cls, pyg, u, lang, body, v);
    FencePassWithoutMatch(cls, pyg, v);
  }
}
