/** `st_write` of streamtex/write.py: its positional arguments become a
    container style and an inner HTML string, an optional table-of-contents
    level registers the text and numbers it, and the result is wrapped in a
    tag with an optional `id` and an optional link. */
module Write {
  import opened Text
  import opened Results
  import opened Styles
  import opened Toc
  import opened Links

  // ---------------------------------------------------------------------
  // Arguments

  /** A positional argument: a style, a text, a `(style, text)` pair, or a
      `(style, text, link)` triple. */
  datatype Arg =
    | StyleArg(style: Style)
    | TextArg(text: string)
    | Pair(style: Style, text: string)
    | Triple(style: Style, text: string, link: string)

  /** A styled span around a text. */
  function Span(css: string, text: string): string
  {
    "<span style=\"" + css + "\">" + text + "</span>"
  }

  /** The HTML of one content argument: a style or text prints as itself
      (a style through the theme); a pair becomes a span; a triple becomes a
      span wrapped in its link, without the preview class. */
  function ItemHtml(a: Arg, theme: Theme): string
  {
    match a
    case StyleArg(s) => Render(s, theme)
    case TextArg(t) => t
    case Pair(s, t) => ContainLink(Span(Render(s, theme), t), "", false, false)
    case Triple(s, t, l) => ContainLink(Span(Render(s, theme), t), l, false, false)
  }

  /** The content arguments' HTML, concatenated in order. */
  function ItemsHtml(args: seq<Arg>, theme: Theme): string
    decreases |args|
  {
    if args == [] then "" else ItemHtml(args[0], theme) + ItemsHtml(args[1..], theme)
  }

  lemma {:induction false} ItemsHtmlAppend(a: seq<Arg>, b: seq<Arg>, theme: Theme)
    ensures ItemsHtml(a + b, theme) == ItemsHtml(a, theme) + ItemsHtml(b, theme)
    decreases |a|
  {
    if a == [] {
      assert a + b == b;
    } else {
      assert (a + b)[0] == a[0];
      assert (a + b)[1..] == a[1..] + b;
      ItemsHtmlAppend(a[1..], b, theme);
    }
  }

  /** `_parse_args(*args, style=style)`: a leading style is the container
      and is not content; otherwise the `style` keyword is the container
      (`none` when it is `None`), and every argument is content. */
  function ParseArgs(args: seq<Arg>, style: Option<Style>, theme: Theme): (r: (Style, string))
    ensures |args| > 0 && args[0].StyleArg? ==>
      r.0 == args[0].style && r.1 == ItemsHtml(args[1..], theme)
    ensures !(|args| > 0 && args[0].StyleArg?) ==>
      r.0 == style.GetOr(NoneStyle) && r.1 == ItemsHtml(args, theme)
  {
    if |args| > 0 && args[0].StyleArg? then (args[0].style, ItemsHtml(args[1..], theme))
    else (style.GetOr(NoneStyle), ItemsHtml(args, theme))
  }

  // ---------------------------------------------------------------------
  // Visible text

  /** What a reader sees of the content: the texts, and a style argument's
      CSS printed as text. */
  function Visible(args: seq<Arg>, theme: Theme): string
    decreases |args|
  {
    if args == [] then ""
    else
      var a := args[0];
      (if a.StyleArg? then Render(a.style, theme) else a.text) + Visible(args[1..], theme)
  }

  /** Arguments whose texts hold no `<` and whose span styles and links fit
      inside one tag. */
  predicate PlainArg(a: Arg, theme: Theme)
  {
    match a
    case StyleArg(s) => '<' !in Render(s, theme)
    case TextArg(t) => '<' !in t
    case Pair(s, t) => '<' !in t && '>' !in Render(s, theme) && '\n' !in Render(s, theme)
    case Triple(s, t, l) =>
      '<' !in t && '>' !in Render(s, theme) && '\n' !in Render(s, theme) && '>' !in l && '\n' !in l
  }

  /** A closing tag is deleted whole. */
  lemma StripClosing(name: string, rest: string)
    requires '>' !in name && '\n' !in name
    ensures StripHtml("</" + name + ">" + rest) == StripHtml(rest)
  {
    assert "</" + name + ">" + rest == "<" + ("/" + name) + ">" + rest;
    StripTag("/" + name, rest);
  }

  /** A span shows its text. */
  lemma StripSpan(css: string, text: string, rest: string)
    requires '<' !in text && '>' !in css && '\n' !in css
    ensures StripHtml(Span(css, text) + rest) == text + StripHtml(rest)
  {
    var body := "span style=\"" + css + "\"";
    SpanThen(css, text, rest);
    SpanOpeningOneLine(css);
    StripTag(body, text + ("</" + "span" + ">" + rest));
    StripPlain(text, "</" + "span" + ">" + rest);
    StripClosing("span", rest);
  }

  lemma SpanThen(css: string, text: string, rest: string)
    ensures Span(css, text) + rest == "<" + ("span style=\"" + css + "\"") + ">" + (text + ("</" + "span" + ">" + rest))
  {
  }

  lemma SpanOpeningOneLine(css: string)
    requires '>' !in css && '\n' !in css
    ensures var body := "span style=\"" + css + "\""; '>' !in body && '\n' !in body
  {
    assert '>' !in "span style=\"" && '\n' !in "span style=\"";
  }

  /** A link around a span shows the span's text. */
  lemma StripLinkedSpan(css: string, text: string, link: string, rest: string)
    requires '<' !in text && '>' !in css && '\n' !in css
    requires '>' !in link && '\n' !in link
    ensures StripHtml(ContainLink(Span(css, text), link, false, false) + rest) == text + StripHtml(rest)
  {
    if link == "" {
      StripSpan(css, text, rest);
    } else {
      StripLinkOpening(Span(css, text), link, false, false, rest);
      StripSpan(css, text, "</a>" + rest);
      StripLinkClosing(rest);
    }
  }

  lemma StripItem(a: Arg, theme: Theme, rest: string)
    requires PlainArg(a, theme)
    ensures StripHtml(ItemHtml(a, theme) + rest)
         == (if a.StyleArg? then Render(a.style, theme) else a.text) + StripHtml(rest)
  {
    match a
    case StyleArg(s) => StripPlain(Render(s, theme), rest);
    case TextArg(t) => StripPlain(t, rest);
    case Pair(s, t) => StripLinkedSpan(Render(s, theme), t, "", rest);
    case Triple(s, t, l) => StripLinkedSpan(Render(s, theme), t, l, rest);
  }

  /** With plain arguments, removing the tags of the written HTML leaves
      exactly the visible text, which is what the table of contents labels
      a written text by. */
  lemma {:induction false} VisibleText(args: seq<Arg>, theme: Theme)
    requires forall k :: 0 <= k < |args| ==> PlainArg(args[k], theme)
    ensures StripHtml(ItemsHtml(args, theme)) == Visible(args, theme)
    decreases |args|
  {
    if args != [] {
      VisibleText(args[1..], theme);
      StripItem(args[0], theme, ItemsHtml(args[1..], theme));
    }
  }

  /** The content arguments: all of them but a leading style, which
      `_parse_args` takes as the container. */
  function Content(args: seq<Arg>): seq<Arg>
  {
    if |args| > 0 && args[0].StyleArg? then args[1..] else args
  }

  /** The visible text of plain content is kept whatever follows it. */
  lemma {:induction false} VisibleThen(args: seq<Arg>, theme: Theme, rest: string)
    requires forall k :: 0 <= k < |args| ==> PlainArg(args[k], theme)
    ensures StripHtml(ItemsHtml(args, theme) + rest) == Visible(args, theme) + StripHtml(rest)
    decreases |args|
  {
    if args == [] {
      assert ItemsHtml(args, theme) + rest == rest;
    } else {
      var head, tail := ItemHtml(args[0], theme), ItemsHtml(args[1..], theme);
      assert ItemsHtml(args, theme) == head + tail;
      VisibleThen(args[1..], theme, rest);
      AppendAssoc(head, tail, rest);
      StripItem(args[0], theme, tail + rest);
      var shown := if args[0].StyleArg? then Render(args[0].style, theme) else args[0].text;
      assert Visible(args, theme) == shown + Visible(args[1..], theme);
      AppendAssoc(shown, Visible(args[1..], theme), StripHtml(rest));
    }
  }

  /** A style appended to the arguments shows its CSS at the end. */
  lemma {:induction false} VisibleSnocStyle(args: seq<Arg>, style: Style, theme: Theme)
    ensures Visible(args + [StyleArg(style)], theme) == Visible(args, theme) + Render(style, theme)
    decreases |args|
  {
    var all := args + [StyleArg(style)];
    if args == [] {
      assert all[1..] == [];
      assert Visible(all, theme) == Render(style, theme) + "";
    } else {
      assert all[0] == args[0];
      assert all[1..] == args[1..] + [StyleArg(style)];
      VisibleSnocStyle(args[1..], style, theme);
      var shown := if args[0].StyleArg? then Render(args[0].style, theme) else args[0].text;
      assert Visible(all, theme) == shown + Visible(all[1..], theme);
      assert Visible(args, theme) == shown + Visible(args[1..], theme);
      AppendAssoc(shown, Visible(args[1..], theme), Render(style, theme));
    }
  }

  // ---------------------------------------------------------------------
  // Table-of-contents label

  /** The longest label taken from the text itself. */
  const LabelLength := 73

  /** The label `_handle_toc` derives from the text: its tags removed, and
      when longer than 73 characters, its first 73 followed by `..`. */
  function TocLabel(text: string): (r: string)
    ensures var clean := StripHtml(text);
      && (|clean| <= LabelLength ==> r == clean)
      && (|clean| > LabelLength ==>
            |r| == LabelLength + 2 && r[..LabelLength] == clean[..LabelLength] && r[LabelLength..] == "..")
  {
    var clean := StripHtml(text);
    if |clean| > LabelLength then clean[..LabelLength] + ".." else clean
  }

  lemma {:induction false} TagEndPrefix(t: string, n: nat)
    requires n <= |t| && TagEnd(t).None?
    ensures TagEnd(t[..n]).None?
    decreases n
  {
    if n > 0 && t[0] != '\n' {
      assert t[..n][1..] == t[1..][..n - 1];
      TagEndPrefix(t[1..], n - 1);
    }
  }

  lemma {:induction false} TagEndAppend(t: string, u: string)
    requires TagEnd(t).None? && '>' !in u
    ensures TagEnd(t + u).None?
    decreases |t|
  {
    if t == [] {
      assert t + u == u;
      TagEndOfNoClose(u);
    } else if t[0] != '\n' {
      assert (t + u)[1..] == t[1..] + u;
      TagEndAppend(t[1..], u);
    }
  }

  lemma {:induction false} TagEndOfNoClose(u: string)
    requires '>' !in u
    ensures TagEnd(u).None?
    decreases |u|
  {
    if u != [] && u[0] != '\n' {
      TagEndOfNoClose(u[1..]);
    }
  }

  lemma {:induction false} TagFreePrefix(s: string, n: nat)
    requires n <= |s| && TagFree(s)
    ensures TagFree(s[..n])
    decreases n
  {
    if n > 0 {
      assert s[..n][1..] == s[1..][..n - 1];
      TagFreePrefix(s[1..], n - 1);
      if s[0] == '<' {
        TagEndPrefix(s[1..], n - 1);
      }
    }
  }

  lemma {:induction false} TagFreeAppend(s: string, u: string)
    requires TagFree(s) && TagFree(u) && '>' !in u
    ensures TagFree(s + u)
    decreases |s|
  {
    if s == [] {
      assert s + u == u;
    } else {
      assert (s + u)[1..] == s[1..] + u;
      TagFreeAppend(s[1..], u);
      if s[0] == '<' {
        TagEndAppend(s[1..], u);
      }
    }
  }

  /** A derived label derives itself: taking the label of a label changes
      nothing, truncated or not. */
  lemma TocLabelIdempotent(text: string)
    ensures TocLabel(TocLabel(text)) == TocLabel(text)
  {
    var clean := StripHtml(text);
    StripIsTagFree(text);
    if |clean| > LabelLength {
      var tocLabel := clean[..LabelLength] + "..";
      TagFreePrefix(clean, LabelLength);
      assert TagFree("..");
      TagFreeAppend(clean[..LabelLength], "..");
      StripTagFree(tocLabel);
      assert tocLabel[..LabelLength] == clean[..LabelLength];
    } else {
      StripTagFree(clean);
    }
  }

  // ---------------------------------------------------------------------
  // Registration and the element id

  /** A table-of-contents level is given when it is present and not empty. */
  predicate HasLevel(tocLvl: Option<string>)
  {
    tocLvl.Some? && tocLvl.value != ""
  }

  /** What `_handle_toc` returns: the text, prefixed with its section number
      when it was registered, and the anchor (empty when not registered). */
  datatype Handled = Handled(text: string, anchor: string, toc: TocGlobal)

  /** The heading a text is registered under: the given label, or the label
      derived from the text when the given one is empty. */
  function Heading(text: string, tocLabel: string): string
  {
    if tocLabel == "" then TocLabel(text) else tocLabel
  }

  /** What `_handle_toc` puts in front of the text: the section number the
      registry hands out, which is empty without a level, without a
      registry, or when titles are not numbered. */
  function SectionPrefix(text: string, tocLvl: Option<string>, tocLabel: string, g: TocGlobal): (r: string)
    requires HasLevel(tocLvl) ==> ValidLevelSpec(tocLvl.value)
    ensures '<' !in r && '>' !in r && '\n' !in r
  {
    if HasLevel(tocLvl) && g.registry.Some? then
      var out := Register(g.registry.value, Heading(text, tocLabel), tocLvl.value);
      SectionNumberPlain(out.registry.numbers);
      out.prefix
    else ""
  }

  /** `_handle_toc`: without a level nothing happens; with one, the text is
      registered under the given label (or its derived label) and gets the
      registry's section number in front. Registering before the registry
      exists fails. */
  function HandleToc(text: string, tocLvl: Option<string>, tocLabel: string, g: TocGlobal): (r: Result<Handled, TocError>)
    requires HasLevel(tocLvl) ==> ValidLevelSpec(tocLvl.value)
    ensures !HasLevel(tocLvl) ==> r == Success(Handled(text, "", g))
    ensures HasLevel(tocLvl) ==> (r.Failure? <==> g.registry.None?)
    ensures HasLevel(tocLvl) && r.Success? ==>
      var out := Register(g.registry.value, Heading(text, tocLabel), tocLvl.value);
      && r.value.anchor == out.anchor
      && r.value.text == out.prefix + text
      && r.value.toc == TocGlobal(Some(out.registry))
  {
    if !HasLevel(tocLvl) then Success(Handled(text, "", g))
    else
      match RegisterTocEntry(g, Heading(text, tocLabel), tocLvl.value)
      case Failure(e) => Failure(e)
      case Success((g', out)) => Success(Handled(out.prefix + text, out.anchor, g'))
  }

  /** A registered text always gets an anchor: the anchor of a numbered
      title is never empty, since the section number is not. */
  lemma RegisteredAnchorNonEmpty(text: string, tocLvl: Option<string>, tocLabel: string, g: TocGlobal)
    requires HasLevel(tocLvl) ==> ValidLevelSpec(tocLvl.value)
    ensures var r := HandleToc(text, tocLvl, tocLabel, g);
      HasLevel(tocLvl) && r.Success? ==> r.value.anchor != ""
  {
    var r := HandleToc(text, tocLvl, tocLabel, g);
    if HasLevel(tocLvl) && r.Success? {
      var out := Register(g.registry.value, Heading(text, tocLabel), tocLvl.value);
      assert |SectionNumber(out.registry.numbers)| >= 1;
    }
  }

  /** The `id` attribute: written only for a non-empty anchor. */
  function IdAttribute(anchor: string): (r: string)
    ensures r == "" <==> anchor == ""
    ensures anchor != "" ==> r == " id='" + anchor + "'"
  {
    if anchor == "" then "" else " id='" + anchor + "'"
  }

  // ---------------------------------------------------------------------
  // st_write

  /** What `st_write` produces: the HTML it displays, the anchor of its
      text, and the registry afterwards. */
  datatype Written = Written(html: string, anchor: string, toc: TocGlobal)

  /** The opening tag, with the id and the container style. */
  function OpenTag(tag: string, anchor: string, css: string): string
  {
    "<" + tag + IdAttribute(anchor) + " style=\"" + css + "\">"
  }

  function CloseTag(tag: string): string
  {
    "</" + tag + ">"
  }

  /** The tag around the text, with its id and container style. */
  function Tagged(tag: string, anchor: string, container: Style, text: string, theme: Theme): string
  {
    OpenTag(tag, anchor, Render(container, theme)) + text + CloseTag(tag)
  }

  /** A tag element starts with its opening and ends with its closing. */
  lemma TaggedEnds(tag: string, anchor: string, container: Style, text: string, theme: Theme)
    ensures var t := Tagged(tag, anchor, container, text, theme);
      StartsWith(t, OpenTag(tag, anchor, Render(container, theme))) && EndsWith(t, CloseTag(tag))
  {
    var open := OpenTag(tag, anchor, Render(container, theme));
    ConcatEnds(open, text + CloseTag(tag));
    AppendAssoc(open, text, CloseTag(tag));
    ConcatEnds(open + text, CloseTag(tag));
  }

  /** The written HTML opens with the tag's opening, behind the link's
      opening when there is a link, and closes the same way. */
  lemma WrittenEnds(tag: string, anchor: string, container: Style, text: string, theme: Theme,
                    link: string, noLinkDecor: bool, hover: bool)
    ensures var html := ContainLink(Tagged(tag, anchor, container, text, theme), link, noLinkDecor, hover);
      var open := OpenTag(tag, anchor, Render(container, theme));
      && (link == "" ==> StartsWith(html, open) && EndsWith(html, CloseTag(tag)))
      && (link != "" ==>
            StartsWith(html, "<a" + LinkAttrs(link, noLinkDecor, hover) + ">" + open)
            && EndsWith(html, CloseTag(tag) + "</a>"))
  {
    var t := Tagged(tag, anchor, container, text, theme);
    TaggedEnds(tag, anchor, container, text, theme);
    if link != "" {
      LinkFrames(t, link, noLinkDecor, hover, OpenTag(tag, anchor, Render(container, theme)), CloseTag(tag));
    }
  }

  /** The part of `st_write` after `_parse_args`: register the text, wrap it
      in the tag, and wrap that in the link. The anchor is non-empty exactly
      when a level was given and the text registered; without a level the
      registry is untouched. The HTML is the tag, or the anchor element
      when there is a link; the tag's opening carries the `id` attribute of
      the anchor (none for an empty one) and the container's CSS. */
  function WriteParsed(container: Style, text: string, tag: string, link: string, noLinkDecor: bool, hover: bool,
                       tocLvl: Option<string>, tocLabel: string, theme: Theme, g: TocGlobal): (r: Result<Written, TocError>)
    requires HasLevel(tocLvl) ==> ValidLevelSpec(tocLvl.value)
    ensures r.Failure? <==> HasLevel(tocLvl) && g.registry.None?
    ensures r.Success? ==> (r.value.anchor != "" <==> HasLevel(tocLvl))
    ensures r.Success? && !HasLevel(tocLvl) ==> r.value.toc == g
    ensures r.Success? && link == "" ==>
      && StartsWith(r.value.html, OpenTag(tag, r.value.anchor, Render(container, theme)))
      && EndsWith(r.value.html, CloseTag(tag))
    ensures r.Success? && link != "" ==>
      && StartsWith(r.value.html, "<a" + LinkAttrs(link, noLinkDecor, hover) + ">" + OpenTag(tag, r.value.anchor, Render(container, theme)))
      && EndsWith(r.value.html, CloseTag(tag) + "</a>")
  {
    var handled :- HandleToc(text, tocLvl, tocLabel, g);
    RegisteredAnchorNonEmpty(text, tocLvl, tocLabel, g);
    var html := Tagged(tag, handled.anchor, container, handled.text, theme);
    WrittenEnds(tag, handled.anchor, container, handled.text, theme, link, noLinkDecor, hover);
    Success(Written(ContainLink(html, link, noLinkDecor, hover), handled.anchor, handled.toc))
  }

  /** `st_write` as written: `_parse_args(*args, style)` passes the `style`
      keyword as one more positional argument, so it is content rather than
      the container (see `StyleKeywordAsWritten`). */
  function StWrite(args: seq<Arg>, style: Style, tag: string, link: string, noLinkDecor: bool, hover: bool,
                   tocLvl: Option<string>, tocLabel: string, theme: Theme, g: TocGlobal): (r: Result<Written, TocError>)
    requires HasLevel(tocLvl) ==> ValidLevelSpec(tocLvl.value)
    ensures r.Failure? <==> HasLevel(tocLvl) && g.registry.None?
    ensures r.Success? ==> (r.value.anchor != "" <==> HasLevel(tocLvl))
    ensures r.Success? && !HasLevel(tocLvl) ==> r.value.toc == g
    ensures r.Success? && link == "" ==>
      && StartsWith(r.value.html, OpenTag(tag, r.value.anchor, Render(ParseArgsAsWritten(args, style, theme).0, theme)))
      && EndsWith(r.value.html, CloseTag(tag))
    ensures r.Success? && link != "" ==>
      && StartsWith(r.value.html, "<a" + LinkAttrs(link, noLinkDecor, hover) + ">" + OpenTag(tag, r.value.anchor, Render(ParseArgsAsWritten(args, style, theme).0, theme)))
      && EndsWith(r.value.html, CloseTag(tag) + "</a>")
  {
    var (container, text) := ParseArgsAsWritten(args, style, theme);
    WriteParsed(container, text, tag, link, noLinkDecor, hover, tocLvl, tocLabel, theme, g)
  }

  /** `st_write` with the `style` keyword passed as the keyword
      `_parse_args` expects, so that it styles the container. */
  function StWriteCorrected(args: seq<Arg>, style: Style, tag: string, link: string, noLinkDecor: bool, hover: bool,
                            tocLvl: Option<string>, tocLabel: string, theme: Theme, g: TocGlobal): (r: Result<Written, TocError>)
    requires HasLevel(tocLvl) ==> ValidLevelSpec(tocLvl.value)
    ensures r.Failure? <==> HasLevel(tocLvl) && g.registry.None?
    ensures r.Success? ==> (r.value.anchor != "" <==> HasLevel(tocLvl))
    ensures r.Success? && !HasLevel(tocLvl) ==> r.value.toc == g
    ensures r.Success? && link == "" ==>
      && StartsWith(r.value.html, OpenTag(tag, r.value.anchor, Render(ParseArgs(args, Some(style), theme).0, theme)))
      && EndsWith(r.value.html, CloseTag(tag))
    ensures r.Success? && link != "" ==>
      && StartsWith(r.value.html, "<a" + LinkAttrs(link, noLinkDecor, hover) + ">" + OpenTag(tag, r.value.anchor, Render(ParseArgs(args, Some(style), theme).0, theme)))
      && EndsWith(r.value.html, CloseTag(tag) + "</a>")
  {
    var (container, text) := ParseArgs(args, Some(style), theme);
    WriteParsed(container, text, tag, link, noLinkDecor, hover, tocLvl, tocLabel, theme, g)
  }

  // ---------------------------------------------------------------------
  // What a reader sees of the written HTML

  /** The opening tag's inside holds no `>` or line break when its parts
      hold none, so stripping deletes it whole. */
  lemma StripOpenTag(tag: string, anchor: string, css: string, rest: string)
    requires OneLine(tag) && OneLine(anchor) && OneLine(css)
    ensures StripHtml(OpenTag(tag, anchor, css) + rest) == StripHtml(rest)
  {
    var id := IdAttribute(anchor);
    var body := tag + id + " style=\"" + css + "\"";
    assert OneLine(" id='") && OneLine("'") && OneLine(" style=\"") && OneLine("\"");
    if anchor != "" {
      OneLineAppend(" id='", anchor);
      OneLineAppend(" id='" + anchor, "'");
    }
    OneLineAppend(tag, id);
    OneLineAppend(tag + id, " style=\"");
    OneLineAppend(tag + id + " style=\"", css);
    OneLineAppend(tag + id + " style=\"" + css, "\"");
    assert OpenTag(tag, anchor, css) == "<" + body + ">";
    StripTag(body, rest);
  }

  /** Stripping the tags of a tagged text leaves the plain prefix and the
      content's visible text, whether or not a link's closing tag follows. */
  lemma TaggedVisible(tag: string, anchor: string, container: Style, prefix: string, content: seq<Arg>,
                      theme: Theme, rest: string)
    requires OneLine(tag) && OneLine(anchor) && OneLine(Render(container, theme)) && '<' !in prefix
    requires forall k :: 0 <= k < |content| ==> PlainArg(content[k], theme)
    requires rest == "" || rest == "</a>"
    ensures StripHtml(Tagged(tag, anchor, container, prefix + ItemsHtml(content, theme), theme) + rest)
         == prefix + Visible(content, theme)
  {
    var text := ItemsHtml(content, theme);
    var open := OpenTag(tag, anchor, Render(container, theme));
    var after := CloseTag(tag) + rest;
    TaggedThen(open, prefix, text, CloseTag(tag), rest);
    assert Tagged(tag, anchor, container, prefix + text, theme) + rest == open + (prefix + (text + after));
    StripOpenTag(tag, anchor, Render(container, theme), prefix + (text + after));
    StripPlain(prefix, text + after);
    VisibleThen(content, theme, after);
    CloseThenRest(tag, rest);
    var shown := Visible(content, theme);
    assert StripHtml(text + after) == shown + "";
    assert shown + "" == shown;
  }

  lemma TaggedThen(open: string, prefix: string, text: string, closing: string, rest: string)
    ensures open + (prefix + text) + closing + rest == open + (prefix + (text + (closing + rest)))
  {
  }

  /** A closing tag, and a link's closing tag after it, show nothing. */
  lemma CloseThenRest(tag: string, rest: string)
    requires OneLine(tag)
    requires rest == "" || rest == "</a>"
    ensures StripHtml(CloseTag(tag) + rest) == ""
  {
    assert CloseTag(tag) + rest == "</" + tag + ">" + rest;
    StripClosing(tag, rest);
    if rest == "" {
      StripNothing();
    } else {
      StripLinkClosingAlone();
    }
  }

  /** What a reader sees of `st_write`'s HTML once its parts are parsed: the
      section number it was given, then the visible text of the content,
      for plain content and a one-line tag, container style, link and
      heading. */
  lemma WriteParsedVisible(container: Style, content: seq<Arg>, tag: string, link: string, noLinkDecor: bool,
                           hover: bool, tocLvl: Option<string>, tocLabel: string, theme: Theme, g: TocGlobal)
    requires HasLevel(tocLvl) ==> ValidLevelSpec(tocLvl.value)
    requires forall k :: 0 <= k < |content| ==> PlainArg(content[k], theme)
    requires OneLine(tag) && OneLine(link) && OneLine(Render(container, theme))
    requires HasLevel(tocLvl) ==> OneLine(Heading(ItemsHtml(content, theme), tocLabel))
    ensures var text := ItemsHtml(content, theme);
      var r := WriteParsed(container, text, tag, link, noLinkDecor, hover, tocLvl, tocLabel, theme, g);
      r.Success? ==> StripHtml(r.value.html) == SectionPrefix(text, tocLvl, tocLabel, g) + Visible(content, theme)
  {
    var text := ItemsHtml(content, theme);
    var r := WriteParsed(container, text, tag, link, noLinkDecor, hover, tocLvl, tocLabel, theme, g);
    if r.Success? {
      var h := HandleToc(text, tocLvl, tocLabel, g).value;
      HandledParts(text, tocLvl, tocLabel, g);
      LinkedVisible(tag, h.anchor, container, SectionPrefix(text, tocLvl, tocLabel, g), content, theme,
                    link, noLinkDecor, hover);
    }
  }

  /** A registered text keeps a one-line heading's anchor on one line, and
      gets exactly the section prefix in front. */
  lemma HandledParts(text: string, tocLvl: Option<string>, tocLabel: string, g: TocGlobal)
    requires HasLevel(tocLvl) ==> ValidLevelSpec(tocLvl.value)
    requires HasLevel(tocLvl) ==> OneLine(Heading(text, tocLabel))
    ensures var r := HandleToc(text, tocLvl, tocLabel, g);
      r.Success? ==> OneLine(r.value.anchor) && r.value.text == SectionPrefix(text, tocLvl, tocLabel, g) + text
  {
    if HasLevel(tocLvl) && g.registry.Some? {
      var out := Register(g.registry.value, Heading(text, tocLabel), tocLvl.value);
      SectionNumberPlain(out.registry.numbers);
      OneLineAppend(SectionNumber(out.registry.numbers), Heading(text, tocLabel));
      KeyAnchorOneLine(SectionNumber(out.registry.numbers) + Heading(text, tocLabel));
    }
  }

  /** The tagged text inside its link shows the same as without it. */
  lemma LinkedVisible(tag: string, anchor: string, container: Style, prefix: string, content: seq<Arg>,
                      theme: Theme, link: string, noLinkDecor: bool, hover: bool)
    requires OneLine(tag) && OneLine(anchor) && OneLine(Render(container, theme)) && '<' !in prefix
    requires forall k :: 0 <= k < |content| ==> PlainArg(content[k], theme)
    requires OneLine(link)
    ensures StripHtml(ContainLink(Tagged(tag, anchor, container, prefix + ItemsHtml(content, theme), theme),
                                  link, noLinkDecor, hover))
         == prefix + Visible(content, theme)
  {
    TaggedAlone(tag, anchor, container, prefix, content, theme);
    TaggedVisible(tag, anchor, container, prefix, content, theme, "</a>");
    LinkedShows(Tagged(tag, anchor, container, prefix + ItemsHtml(content, theme), theme), link, noLinkDecor, hover);
  }

  /** Content that shows the same with and without a link's closing tag
      after it shows the same inside the link. */
  lemma LinkedShows(html: string, link: string, noLinkDecor: bool, hover: bool)
    requires OneLine(link)
    requires StripHtml(html + "</a>") == StripHtml(html)
    ensures StripHtml(ContainLink(html, link, noLinkDecor, hover)) == StripHtml(html)
  {
    if link != "" {
      StripLinkOpeningAlone(html, link, noLinkDecor, hover);
    }
  }

  lemma TaggedAlone(tag: string, anchor: string, container: Style, prefix: string, content: seq<Arg>, theme: Theme)
    requires OneLine(tag) && OneLine(anchor) && OneLine(Render(container, theme)) && '<' !in prefix
    requires forall k :: 0 <= k < |content| ==> PlainArg(content[k], theme)
    ensures StripHtml(Tagged(tag, anchor, container, prefix + ItemsHtml(content, theme), theme))
         == prefix + Visible(content, theme)
  {
    var html := Tagged(tag, anchor, container, prefix + ItemsHtml(content, theme), theme);
    assert html + "" == html;
    TaggedVisible(tag, anchor, container, prefix, content, theme, "");
  }

  /** As written, a reader of `st_write`'s HTML sees the section number,
      the content arguments, and then the `style` keyword's CSS as text;
      with no argument at all the keyword styles the container and nothing
      but the section number shows. */
  lemma StWriteVisible(args: seq<Arg>, style: Style, tag: string, link: string, noLinkDecor: bool, hover: bool,
                       tocLvl: Option<string>, tocLabel: string, theme: Theme, g: TocGlobal)
    requires HasLevel(tocLvl) ==> ValidLevelSpec(tocLvl.value)
    requires forall k :: 0 <= k < |args| ==> PlainArg(args[k], theme)
    requires '<' !in Render(style, theme)
    requires OneLine(tag) && OneLine(link) && OneLine(Render(ParseArgsAsWritten(args, style, theme).0, theme))
    requires HasLevel(tocLvl) ==> OneLine(Heading(ParseArgsAsWritten(args, style, theme).1, tocLabel))
    ensures var r := StWrite(args, style, tag, link, noLinkDecor, hover, tocLvl, tocLabel, theme, g);
      var prefix := SectionPrefix(ParseArgsAsWritten(args, style, theme).1, tocLvl, tocLabel, g);
      && (r.Success? && args != [] ==>
            StripHtml(r.value.html) == prefix + Visible(Content(args), theme) + Render(style, theme))
      && (r.Success? && args == [] ==> StripHtml(r.value.html) == prefix)
  {
    var content := Content(args + [StyleArg(style)]);
    WrittenContent(args, style, theme);
    var (container, text) := ParseArgsAsWritten(args, style, theme);
    WriteParsedVisible(container, content, tag, link, noLinkDecor, hover, tocLvl, tocLabel, theme, g);
    var r := StWrite(args, style, tag, link, noLinkDecor, hover, tocLvl, tocLabel, theme, g);
    assert r == WriteParsed(container, text, tag, link, noLinkDecor, hover, tocLvl, tocLabel, theme, g);
    if args != [] {
      ContentOfSnoc(args, style);
      VisibleSnocStyle(Content(args), style, theme);
      AppendAssoc(SectionPrefix(text, tocLvl, tocLabel, g), Visible(Content(args), theme), Render(style, theme));
    }
  }

  /** As written, the content is the arguments and the style, less a
      leading container style; it is plain when they are. */
  lemma WrittenContent(args: seq<Arg>, style: Style, theme: Theme)
    requires forall k :: 0 <= k < |args| ==> PlainArg(args[k], theme)
    requires '<' !in Render(style, theme)
    ensures var content := Content(args + [StyleArg(style)]);
      && (forall k :: 0 <= k < |content| ==> PlainArg(content[k], theme))
      && ParseArgsAsWritten(args, style, theme).1 == ItemsHtml(content, theme)
  {
    var all := args + [StyleArg(style)];
    assert forall k :: 0 <= k < |all| ==> PlainArg(all[k], theme);
  }

  /** As written, the style keyword is the last content argument. */
  lemma ContentOfSnoc(args: seq<Arg>, style: Style)
    requires args != []
    ensures Content(args + [StyleArg(style)]) == Content(args) + [StyleArg(style)]
  {
    var all := args + [StyleArg(style)];
    assert all[0] == args[0];
    if args[0].StyleArg? {
      assert all[1..] == args[1..] + [StyleArg(style)];
    }
  }

  /** With the keyword passed as the keyword, a reader sees the section
      number and the content arguments, and nothing of the style. */
  lemma StWriteCorrectedVisible(args: seq<Arg>, style: Style, tag: string, link: string, noLinkDecor: bool,
                                hover: bool, tocLvl: Option<string>, tocLabel: string, theme: Theme, g: TocGlobal)
    requires HasLevel(tocLvl) ==> ValidLevelSpec(tocLvl.value)
    requires forall k :: 0 <= k < |args| ==> PlainArg(args[k], theme)
    requires OneLine(tag) && OneLine(link) && OneLine(Render(ParseArgs(args, Some(style), theme).0, theme))
    requires HasLevel(tocLvl) ==> OneLine(Heading(ParseArgs(args, Some(style), theme).1, tocLabel))
    ensures var r := StWriteCorrected(args, style, tag, link, noLinkDecor, hover, tocLvl, tocLabel, theme, g);
      r.Success? ==>
        StripHtml(r.value.html)
          == SectionPrefix(ParseArgs(args, Some(style), theme).1, tocLvl, tocLabel, g) + Visible(Content(args), theme)
  {
    var content := Content(args);
    assert forall k :: 0 <= k < |content| ==> PlainArg(content[k], theme);
    var (container, text) := ParseArgs(args, Some(style), theme);
    assert text == ItemsHtml(content, theme);
    WriteParsedVisible(container, content, tag, link, noLinkDecor, hover, tocLvl, tocLabel, theme, g);
  }

  // ---------------------------------------------------------------------
  // The `style` keyword as `st_write` passes it

  /** `st_write` as written calls `_parse_args(*args, style)`: the style
      becomes one more positional argument, and the keyword keeps its
      default. */
  function ParseArgsAsWritten(args: seq<Arg>, style: Style, theme: Theme): (Style, string)
  {
    ParseArgs(args + [StyleArg(style)], None, theme)
  }

  /** As written, unless the arguments start with a style, the `style`
      keyword never styles the container and its CSS is printed after the
      content instead; with a leading style the keyword's CSS is still
      printed. Only without any argument does it reach the container. */
  lemma StyleKeywordAsWritten(args: seq<Arg>, style: Style, theme: Theme)
    ensures args == [] ==> ParseArgsAsWritten(args, style, theme) == (style, "")
    ensures args != [] && !args[0].StyleArg? ==>
      ParseArgsAsWritten(args, style, theme) == (NoneStyle, ItemsHtml(args, theme) + Render(style, theme))
    ensures args != [] && args[0].StyleArg? ==>
      ParseArgsAsWritten(args, style, theme)
        == (args[0].style, ItemsHtml(args[1..], theme) + Render(style, theme))
  {
    var all := args + [StyleArg(style)];
    if args == [] {
      assert all == [StyleArg(style)];
      assert all[1..] == [];
    } else {
      assert all[0] == args[0];
      if args[0].StyleArg? {
        assert all[1..] == args[1..] + [StyleArg(style)];
        ItemsSnocStyle(args[1..], style, theme);
      } else {
        ItemsSnocStyle(args, style, theme);
      }
    }
  }

  /** A style argument appended to the content prints its CSS at the end. */
  lemma ItemsSnocStyle(args: seq<Arg>, style: Style, theme: Theme)
    ensures ItemsHtml(args + [StyleArg(style)], theme) == ItemsHtml(args, theme) + Render(style, theme)
  {
    ItemsHtmlAppend(args, [StyleArg(style)], theme);
    assert [StyleArg(style)][1..] == [];
    assert ItemsHtml([StyleArg(style)], theme) == Render(style, theme) + "";
  }

  /** `st_write("Hello", style=red)`: the text is not red, and it reads
      `Hellocolor: red;`. */
  lemma StyleKeywordExample()
    ensures var red := Style("color: red;", "red");
      ParseArgsAsWritten([TextArg("Hello")], red, map[]) == (NoneStyle, "Hello" + "color: red;")
  {
    var red := Style("color: red;", "red");
    StyleKeywordAsWritten([TextArg("Hello")], red, map[]);
    HelloHtml(map[]);
    assert Render(red, map[]) == "color: red;";
  }

  /** Passing the keyword as the keyword: the container is the leading
      style if there is one, the `style` keyword otherwise, and the content
      is exactly the remaining arguments. */
  lemma StyleKeywordCorrected(args: seq<Arg>, style: Style, theme: Theme)
    ensures !(args != [] && args[0].StyleArg?) ==> ParseArgs(args, Some(style), theme) == (style, ItemsHtml(args, theme))
    ensures args != [] && args[0].StyleArg? ==>
      ParseArgs(args, Some(style), theme) == (args[0].style, ItemsHtml(args[1..], theme))
    ensures ParseArgs([TextArg("Hello")], Some(Style("color: red;", "red")), map[])
         == (Style("color: red;", "red"), "Hello")
  {
    HelloHtml(map[]);
  }

  lemma HelloHtml(theme: Theme)
    ensures ItemsHtml([TextArg("Hello")], theme) == "Hello"
  {
    assert [TextArg("Hello")][1..] == [];
    assert ItemsHtml([TextArg("Hello")], theme) == "Hello" + "";
  }
}
