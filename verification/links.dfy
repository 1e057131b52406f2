/** The link and text helpers of streamtex/utils.py: wrapping content in an
    anchor, removing HTML tags, and classifying paths by prefix and
    extension. */
module Links {
  import opened Text
  import opened Results
  import opened Toc

  predicate StartsWith(s: string, prefix: string)
  {
    |prefix| <= |s| && s[..|prefix|] == prefix
  }

  predicate EndsWith(s: string, suffix: string)
  {
    |suffix| <= |s| && s[|s| - |suffix|..] == suffix
  }

  lemma ConcatEnds(x: string, y: string)
    ensures StartsWith(x + y, x) && EndsWith(x + y, y)
  {
    assert (x + y)[..|x|] == x;
    assert (x + y)[|x|..] == y;
  }

  // ---------------------------------------------------------------------
  // contain_link

  /** A link is internal when, stripped, it starts with `#`. */
  predicate IsInternal(link: string)
  {
    StartsWith(Strip(link), "#")
  }

  const PreviewClass := " class=\"streamtex-link\""
  const PlainStyle := " style=\"text-decoration: " + "none; color: inherit;\""

  /** `<a` + attributes + `>` around the content. */
  function Anchor(attrs: string, content: string): string
  {
    "<a" + attrs + ">" + content + "</a>"
  }

  /** `contain_link`: an empty link leaves the content as it is; otherwise the
      content goes into an anchor whose `href` is the stripped link, which
      carries the preview class only for an external link with hover, and the
      undecorated style only when asked for. */
  function ContainLink(content: string, link: string, noLinkDecor: bool, hover: bool): (r: string)
    ensures link == "" ==> r == content
    ensures link != "" ==>
      exists cls, style ::
        && (cls == PreviewClass <==> hover && !IsInternal(link)) && (cls == "" || cls == PreviewClass)
        && (style == PlainStyle <==> noLinkDecor) && (style == "" || style == PlainStyle)
        && r == Anchor(" href=\"" + Strip(link) + "\"" + cls + style, content)
  {
    if link == "" then content else Anchor(LinkAttrs(link, noLinkDecor, hover), content)
  }

  /** The attributes of the anchor `contain_link` writes for a non-empty link. */
  function LinkAttrs(link: string, noLinkDecor: bool, hover: bool): string
  {
    var cls := if hover && !IsInternal(link) then PreviewClass else "";
    var style := if noLinkDecor then PlainStyle else "";
    " href=\"" + Strip(link) + "\"" + cls + style
  }

  /** A non-empty link puts its anchor's opening in front of the content
      and its closing behind it. */
  lemma LinkFrames(content: string, link: string, noLinkDecor: bool, hover: bool, head: string, tail: string)
    requires link != "" && StartsWith(content, head) && EndsWith(content, tail)
    ensures var r := ContainLink(content, link, noLinkDecor, hover);
      StartsWith(r, "<a" + LinkAttrs(link, noLinkDecor, hover) + ">" + head) && EndsWith(r, tail + "</a>")
  {
    var open := "<a" + LinkAttrs(link, noLinkDecor, hover) + ">";
    assert ContainLink(content, link, noLinkDecor, hover) == open + content + "</a>";
    FramedEnds(open, content, "</a>", head, tail);
  }

  /** Text framed by an opening and a closing starts with the opening and
      the text's own start, and ends with the text's own end and the closing. */
  lemma FramedEnds(open: string, content: string, close: string, head: string, tail: string)
    requires StartsWith(content, head) && EndsWith(content, tail)
    ensures StartsWith(open + content + close, open + head) && EndsWith(open + content + close, tail + close)
  {
    var r := open + content + close;
    assert r[..|open + head|] == open + content[..|head|];
    assert r[|r| - |tail + close|..] == content[|content| - |tail|..] + close;
  }

  /** The link target `_contain_link` writes: an internal link becomes `#`
      followed by the anchor of its stripped text after the `#`; any other
      link is kept exactly as given, unstripped. */
  function LegacyHref(link: string): (r: string)
    ensures IsInternal(link) ==> StartsWith(r, "#")
    ensures !IsInternal(link) ==> r == link
  {
    if IsInternal(link) then "#" + KeyAnchor(Strip(link)[1..]) else link
  }

  /** The attributes `_contain_link` writes: the target, the link style
      (undecorated or not) with relative positioning, and the preview. */
  function LegacyAttrs(href: string, noLinkDecor: bool, shown: string): string
  {
    " href=\"" + href + "\" style=\"" + (if noLinkDecor then "text-decoration: none;" else "")
      + "position:relative;\" data-preview=\"" + shown + "\""
  }

  /** `_contain_link` with the preview text supplied by the caller (fetching
      it is network access): an internal link never gets a preview, and the
      preview of an external link is written only with hover. */
  function LegacyContainLink(content: string, link: string, noLinkDecor: bool, hover: bool,
                             preview: string): (r: string)
    ensures link == "" ==> r == content
    ensures link != "" && (IsInternal(link) || !hover) ==>
      r == Anchor(LegacyAttrs(LegacyHref(link), noLinkDecor, ""), content)
    ensures link != "" && !IsInternal(link) && hover ==>
      r == Anchor(LegacyAttrs(link, noLinkDecor, preview), content)
  {
    if link == "" then content
    else
      var shown := if hover && !IsInternal(link) then preview else "";
      Anchor(LegacyAttrs(LegacyHref(link), noLinkDecor, shown), content)
  }

  /** An internal link spelled as a heading's text reaches the anchor the
      registry derives from that text, and a link to an anchor the registry
      produced reaches that same anchor. */
  lemma LegacyHrefOfHeading(text: string)
    requires Stripped(text)
    ensures LegacyHref("#" + text) == "#" + KeyAnchor(text)
    ensures LegacyHref("#" + KeyAnchor(text)) == "#" + KeyAnchor(text)
  {
    HashHref(text);
    var a := KeyAnchor(text);
    if a != [] {
      var c := text[|text| - 1];
      assert a[|a| - 1] == (if c == '.' || c == ' ' then '-' else LowerChar(c));
    }
    HashHref(a);
    KeyAnchorIdempotent(text);
  }

  /** `#` and a text not ending in whitespace is an internal link to the
      anchor of the text. */
  lemma HashHref(t: string)
    requires t == "" || !IsSpace(t[|t| - 1])
    ensures LegacyHref("#" + t) == "#" + KeyAnchor(t)
  {
    HashStripped(t);
    assert Strip("#" + t)[1..] == t;
  }

  lemma HashStripped(t: string)
    requires t == "" || !IsSpace(t[|t| - 1])
    ensures Strip("#" + t) == "#" + t
    ensures IsInternal("#" + t)
  {
    var s := "#" + t;
    assert Stripped(s) by {
      assert s[0] == '#' && s[|s| - 1] == (if t == "" then '#' else t[|t| - 1]);
    }
    StripOfStripped(s);
    StartsWithHash(t);
  }

  lemma StartsWithHash(t: string)
    ensures StartsWith("#" + t, "#")
  {
    assert ("#" + t)[..1] == "#";
  }

  // ---------------------------------------------------------------------
  // strip_html

  /** Where the tag opened just before `t` closes: the first `>` of `t`,
      provided no line break comes before it (the `.` of `<.*?>` does not
      match a line break). */
  function TagEnd(t: string): (r: Option<nat>)
    ensures r.Some? ==> r.value < |t| && t[r.value] == '>'
    ensures r.Some? ==> forall j :: 0 <= j < r.value ==> t[j] != '>' && t[j] != '\n'
  {
    if t == [] then None
    else if t[0] == '>' then Some(0)
    else if t[0] == '\n' then None
    else
      match TagEnd(t[1..])
      case None => None
      case Some(k) => Some(k + 1)
  }

  /** A tag is left open only when its text has no `>`, or has a line break
      before its first `>`. */
  lemma {:induction false} TagEndNone(t: string, j: nat)
    requires TagEnd(t).None? && j < |t| && t[j] == '>'
    ensures exists i :: 0 <= i < j && t[i] == '\n'
    decreases |t|
  {
    if t[0] != '\n' {
      TagEndNone(t[1..], j - 1);
      var i :| 0 <= i < j - 1 && t[1..][i] == '\n';
      assert t[i + 1] == '\n';
    }
  }

  /** `strip_html`: scanning left to right, each `<` that opens a tag closed
      on the same line is deleted with the whole tag; any other character,
      including a `<` that is never closed, is kept. */
  function StripHtml(s: string): (r: string)
    ensures |r| <= |s|
    ensures multiset(r) <= multiset(s)
    ensures '<' !in s ==> r == s
    decreases |s|
  {
    if s == [] then []
    else if s[0] == '<' && TagEnd(s[1..]).Some? then
      var rest := s[TagEnd(s[1..]).value + 2..];
      assert s == s[..TagEnd(s[1..]).value + 2] + rest;
      StripHtml(rest)
    else
      assert s == [s[0]] + s[1..];
      [s[0]] + StripHtml(s[1..])
  }

  /** No `<` of `s` opens a tag closed on its line. */
  predicate TagFree(s: string)
    decreases |s|
  {
    s == [] || ((s[0] == '<' ==> TagEnd(s[1..]).None?) && TagFree(s[1..]))
  }

  lemma {:induction false} StripTagFree(s: string)
    requires TagFree(s)
    ensures StripHtml(s) == s
    decreases |s|
  {
    if s != [] {
      StripTagFree(s[1..]);
    }
  }

  /** Stripping cannot create a tag after an unclosed `<`: the line break
      that stopped it, or the end of the text, is still there. */
  lemma {:induction false} StripKeepsUnclosed(t: string)
    requires TagEnd(t).None?
    ensures TagEnd(StripHtml(t)).None?
    decreases |t|
  {
    if t != [] && t[0] != '\n' {
      StripKeepsUnclosed(t[1..]);
      var rest := StripHtml(t[1..]);
      assert StripHtml(t) == [t[0]] + rest;
      assert ([t[0]] + rest)[1..] == rest;
    } else if t != [] {
      assert StripHtml(t) == ['\n'] + StripHtml(t[1..]);
    }
  }

  /** What `strip_html` leaves has no tag left in it. */
  lemma {:induction false} StripIsTagFree(s: string)
    ensures TagFree(StripHtml(s))
    decreases |s|
  {
    if s != [] {
      if s[0] == '<' && TagEnd(s[1..]).Some? {
        StripIsTagFree(s[TagEnd(s[1..]).value + 2..]);
      } else {
        StripIsTagFree(s[1..]);
        var rest := StripHtml(s[1..]);
        assert ([s[0]] + rest)[1..] == rest;
        if s[0] == '<' {
          StripKeepsUnclosed(s[1..]);
        }
      }
    }
  }

  /** Stripping tags twice removes nothing more. */
  lemma StripHtmlIdempotent(s: string)
    ensures StripHtml(StripHtml(s)) == StripHtml(s)
  {
    StripIsTagFree(s);
    StripTagFree(StripHtml(s));
  }

  lemma {:induction false} TagEndAt(body: string, rest: string)
    requires '>' !in body && '\n' !in body
    ensures TagEnd(body + ">" + rest) == Some(|body|)
    decreases |body|
  {
    if body != [] {
      TagEndAt(body[1..], rest);
      assert (body + ">" + rest)[1..] == body[1..] + ">" + rest;
    }
  }

  /** A one-line tag is deleted whole. */
  lemma StripTag(body: string, rest: string)
    requires '>' !in body && '\n' !in body
    ensures StripHtml("<" + body + ">" + rest) == StripHtml(rest)
  {
    var s := "<" + body + ">" + rest;
    TagEndAt(body, rest);
    assert s[1..] == body + ">" + rest;
    assert s[|body| + 2..] == rest;
  }

  /** Text without `<` passes through. */
  lemma {:induction false} StripPlain(x: string, rest: string)
    requires '<' !in x
    ensures StripHtml(x + rest) == x + StripHtml(rest)
    decreases |x|
  {
    if x != [] {
      TailOfAppend(x, rest);
      StripPlainChar(x + rest);
      StripPlain(x[1..], rest);
      HeadOnTail(x, StripHtml(rest));
    } else {
      assert x + rest == rest;
    }
  }

  /** A first character other than `<` is kept. */
  lemma StripPlainChar(s: string)
    requires s != [] && s[0] != '<'
    ensures StripHtml(s) == [s[0]] + StripHtml(s[1..])
  {
  }

  /** The attributes `contain_link` writes hold no `>` and no line break
      when the link holds none. */
  lemma AttrsOneLine(clean: string, cls: string, style: string)
    requires '>' !in clean && '\n' !in clean
    requires cls == "" || cls == PreviewClass
    requires style == "" || style == PlainStyle
    ensures var body := "a" + (" href=\"" + clean + "\"" + cls + style);
      '>' !in body && '\n' !in body
  {
    ConstantsOneLine();
    var open, quote := " href=\"", "\"";
    assert OneLine("a") && OneLine(open) && OneLine(quote);
    OneLineAppend(open, clean);
    OneLineAppend(open + clean, quote);
    OneLineAppend(open + clean + quote, cls);
    OneLineAppend(open + clean + quote + cls, style);
    OneLineAppend("a", open + clean + quote + cls + style);
  }

  /** Text without `>` or a line break. */
  predicate OneLine(s: string)
  {
    '>' !in s && '\n' !in s
  }

  lemma OneLineAppend(a: string, b: string)
    requires OneLine(a) && OneLine(b)
    ensures OneLine(a + b)
  {
  }

  lemma ConstantsOneLine()
    ensures OneLine(PreviewClass) && OneLine(PlainStyle)
  {
    PreviewOneLine();
    var decl, value := " style=\"text-decoration: ", "none; color: inherit;\"";
    assert OneLine(decl);
    assert OneLine(value);
    OneLineAppend(decl, value);
  }

  lemma PreviewOneLine()
    ensures OneLine(PreviewClass)
  {
  }

  /** The opening tag of the anchor `contain_link` writes is deleted whole,
      for a link without `>` or line breaks. */
  lemma StripLinkOpening(content: string, link: string, noLinkDecor: bool, hover: bool, rest: string)
    requires link != "" && OneLine(link)
    ensures StripHtml(ContainLink(content, link, noLinkDecor, hover) + rest) == StripHtml(content + ("</a>" + rest))
  {
    var cls := if hover && !IsInternal(link) then PreviewClass else "";
    var style := if noLinkDecor then PlainStyle else "";
    var attrs := " href=\"" + Strip(link) + "\"" + cls + style;
    assert ContainLink(content, link, noLinkDecor, hover) == Anchor(attrs, content);
    StripKeepsOut(link, '>');
    StripKeepsOut(link, '\n');
    AttrsOneLine(Strip(link), cls, style);
    AnchorThen(attrs, content, rest);
    StripTag("a" + attrs, content + ("</a>" + rest));
  }

  lemma StripLinkOpeningAlone(content: string, link: string, noLinkDecor: bool, hover: bool)
    requires link != "" && OneLine(link)
    ensures StripHtml(ContainLink(content, link, noLinkDecor, hover)) == StripHtml(content + "</a>")
  {
    StripLinkOpening(content, link, noLinkDecor, hover, []);
    AppendNothing(ContainLink(content, link, noLinkDecor, hover));
    AppendNothing("</a>");
  }

  lemma AnchorThen(attrs: string, content: string, rest: string)
    ensures Anchor(attrs, content) + rest == "<" + ("a" + attrs) + ">" + (content + ("</a>" + rest))
  {
  }

  /** The closing tag of an anchor is deleted whole. */
  lemma StripLinkClosing(rest: string)
    ensures StripHtml("</a>" + rest) == StripHtml(rest)
  {
    assert "</a>" + rest == "<" + "/a" + ">" + rest;
    StripTag("/a", rest);
  }

  lemma StripNothing()
    ensures StripHtml("") == ""
  {
  }

  lemma StripLinkClosingAlone()
    ensures StripHtml("</a>") == ""
  {
    assert "</a>" == "</a>" + "";
    StripLinkClosing("");
    StripNothing();
  }

  /** The visible text of an anchor is its content: for content without
      tags and a link without `>` or line breaks, stripping the tags of the
      wrapped content gives the content back. */
  lemma VisibleLinkText(content: string, link: string, noLinkDecor: bool, hover: bool)
    requires '<' !in content
    requires '>' !in link && '\n' !in link
    ensures StripHtml(ContainLink(content, link, noLinkDecor, hover)) == content
  {
    assert content + "" == content;
    StripPlain(content, "");
    assert StripHtml("") == "";
    if link != "" {
      assert ContainLink(content, link, noLinkDecor, hover) + "" == ContainLink(content, link, noLinkDecor, hover);
      StripLinkOpening(content, link, noLinkDecor, hover, "");
      StripPlain(content, "</a>" + "");
      StripLinkClosing("");
    }
  }

  // ---------------------------------------------------------------------
  // Path classification

  /** `__is_url`: the path starts with `http://`, `https://` or `www.`. */
  predicate IsUrl(path: string)
  {
    StartsWith(path, "http://") || StartsWith(path, "https://") || StartsWith(path, "www.")
  }

  /** `__is_relative_path`: the path starts with `.`, `..`, `/` or `\`. */
  predicate IsRelativePath(path: string)
  {
    StartsWith(path, ".") || StartsWith(path, "..") || StartsWith(path, "/") || StartsWith(path, "\\")
  }

  /** The prefix test comes down to the first character, and no URL is a
      relative path. */
  lemma RelativeByFirstChar(path: string)
    ensures IsRelativePath(path) <==> |path| > 0 && path[0] in {'.', '/', '\\'}
    ensures IsUrl(path) ==> !IsRelativePath(path)
  {
    if |path| > 0 {
      assert path[..1] == [path[0]];
    }
    if IsUrl(path) {
      assert path[0] == (if StartsWith(path, "www.") then path[..4][0] else path[..7][0]);
    }
  }

  /** The lower-cased text after the last dot, or the whole lower-cased
      path when it has no dot. */
  function Extension(path: string): (r: string)
    ensures '.' !in r
  {
    var fields := Split(LowerAscii(path), '.');
    fields[|fields| - 1]
  }

  /** `__get_mime_type`: the extension picks PNG, JPEG or GIF; anything else
      is unsupported. */
  function MimeType(path: string): (r: Option<string>)
    ensures r.Some? <==> Extension(path) in {"png", "jpg", "jpeg", "gif"}
    ensures r == Some("image/png") <==> Extension(path) == "png"
    ensures r == Some("image/jpeg") <==> Extension(path) in {"jpg", "jpeg"}
    ensures r == Some("image/gif") <==> Extension(path) == "gif"
  {
    var ext := Extension(path);
    if ext == "png" then Some("image/png")
    else if ext == "jpg" || ext == "jpeg" then Some("image/jpeg")
    else if ext == "gif" then Some("image/gif")
    else None
  }

  lemma LowerAsciiAppend(a: string, b: string)
    ensures LowerAscii(a + b) == LowerAscii(a) + LowerAscii(b)
  {
    assert forall i :: 0 <= i < |a + b| ==> LowerAscii(a + b)[i] == (LowerAscii(a) + LowerAscii(b))[i];
  }

  lemma LowerKeepsDotFree(ext: string)
    requires '.' !in ext
    ensures '.' !in LowerAscii(ext)
  {
    var le := LowerAscii(ext);
    forall i | 0 <= i < |le| ensures le[i] != '.' {
      assert ext[i] != '.';
    }
  }

  /** The extension of `stem.ext` is `ext`, lower-cased, whatever the stem. */
  lemma ExtensionOfName(stem: string, ext: string)
    requires '.' !in ext
    ensures Extension(stem + "." + ext) == LowerAscii(ext)
  {
    LowerAsciiAppend(stem + ".", ext);
    LowerAsciiAppend(stem, ".");
    assert LowerAscii(".") == ".";
    LowerKeepsDotFree(ext);
    SplitAround(LowerAscii(stem), '.', LowerAscii(ext));
    assert LowerAscii(stem + "." + ext) == LowerAscii(stem) + "." + LowerAscii(ext);
  }

  /** A dot-free path is its own extension, lower-cased. */
  lemma ExtensionOfDotFree(ext: string)
    requires '.' !in ext
    ensures Extension(ext) == LowerAscii(ext)
  {
    LowerKeepsDotFree(ext);
  }

  /** Only the extension decides: a file name's type is that of its last
      dot-free suffix, in any letter case. */
  lemma MimeOfExtension(stem: string, ext: string)
    requires '.' !in ext
    ensures MimeType(stem + "." + ext) == MimeType(ext)
    ensures MimeType(UpperAscii(ext)) == MimeType(ext)
  {
    ExtensionOfName(stem, ext);
    ExtensionOfDotFree(ext);
    UpperKeepsDotFree(ext);
    ExtensionOfDotFree(UpperAscii(ext));
    LowerOfUpper(ext);
  }

  lemma UpperKeepsDotFree(ext: string)
    requires '.' !in ext
    ensures '.' !in UpperAscii(ext)
  {
    var up := UpperAscii(ext);
    forall i | 0 <= i < |up| ensures up[i] != '.' {
      assert ext[i] != '.';
    }
  }

  lemma LowerOfUpper(s: string)
    ensures LowerAscii(UpperAscii(s)) == LowerAscii(s)
  {
    assert forall i :: 0 <= i < |s| ==> LowerAscii(UpperAscii(s))[i] == LowerAscii(s)[i];
  }
}
