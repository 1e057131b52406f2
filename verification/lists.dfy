/** Lists: the bullet a list puts before its items and the style of each
    item, in the current controller (streamtex/list.py) and the previous one
    (streamtex/list_old.py), and the HTML list of `st_list` in
    streamtex_package/src/streamtex/__init__.py. */
module Lists {
  import opened Text
  import opened Results
  import opened Css
  import opened Styles

  /** `ListTypes.ordered` (`<ol>`) or `ListTypes.unordered` (`<ul>`). */
  datatype ListType = Ordered | Unordered

  function Tag(t: ListType): string
  {
    if t == Ordered then "ol" else "ul"
  }

  // ---------------------------------------------------------------------
  // Nesting levels

  /** One list opened by the controller and the lists opened inside its
      items; only the nesting matters for the bullets. */
  datatype ListTree = ListTree(listType: ListType, style: Style, children: seq<ListTree>)

  /** The bullets of a list and of every list nested in it, in the order the
      lists are opened, starting from the level counter `level` (0 outside
      any list). Each list raises the counter by one for its own content and
      restores it on exit, so the second of two sibling lists is at the same
      level as the first. */
  function Bullets(tree: ListTree, level: nat, theme: Theme): seq<string>
    decreases tree, 1
  {
    [Bullet(tree.listType, tree.style, level + 1, theme)] + ChildBullets(tree.children, level + 1, theme)
  }

  function ChildBullets(trees: seq<ListTree>, level: nat, theme: Theme): seq<string>
    decreases trees, 0
  {
    if trees == [] then []
    else Bullets(trees[0], level, theme) + ChildBullets(trees[1..], level, theme)
  }

  /** Two sibling lists are opened at the same level, whatever the first
      one nests: the counter is restored after each. */
  lemma SiblingsShareLevel(a: ListTree, b: ListTree, level: nat, theme: Theme)
    ensures ChildBullets([a, b], level, theme)
         == Bullets(a, level, theme) + [Bullet(b.listType, b.style, level + 1, theme)]
            + ChildBullets(b.children, level + 1, theme)
  {
    assert [a, b][1..] == [b];
    assert [b][1..] == [];
    var second := Bullets(b, level, theme);
    assert ChildBullets([b], level, theme) == second + [];
    assert second + [] == second;
    assert ChildBullets([a, b], level, theme) == Bullets(a, level, theme) + second;
    ThenHeadTail(ChildBullets([a, b], level, theme), Bullets(a, level, theme), second,
      Bullet(b.listType, b.style, level + 1, theme), ChildBullets(b.children, level + 1, theme));
  }

  // ---------------------------------------------------------------------
  // Bullets

  /** `\w` of Python's regular expressions, for ASCII: letters, digits and
      the underscore. */
  predicate IsWordChar(c: char)
  {
    IsAsciiLetter(c) || IsDigit(c) || c == '_'
  }

  /** A character of a counter style name: `[\w-]`. */
  predicate IsCounterChar(c: char)
  {
    IsWordChar(c) || c == '-'
  }

  /** Number of leading characters satisfying `p`. */
  function Span(s: string, p: char -> bool): (k: nat)
    ensures k <= |s|
    ensures forall i :: 0 <= i < k ==> p(s[i])
    ensures k < |s| ==> !p(s[k])
  {
    if s != [] && p(s[0]) then 1 + Span(s[1..], p) else 0
  }

  const Property: string := "list-style-type"

  /** `list-style-type\s*:\s*([\w-]+)` matched at the start of `s`: the
      captured counter style. */
  function CounterStyleAt(s: string): (r: Option<string>)
    ensures r.Some? ==> r.value != [] && forall i :: 0 <= i < |r.value| ==> IsCounterChar(r.value[i])
  {
    if |s| < |Property| || s[..|Property|] != Property then None
    else ColonValue(s[|Property|..])
  }

  /** `\s*:\s*([\w-]+)`: spaces, a colon, then the value. */
  function ColonValue(a: string): (r: Option<string>)
    ensures r.Some? ==> r.value != [] && forall i :: 0 <= i < |r.value| ==> IsCounterChar(r.value[i])
  {
    var b := a[Span(a, IsSpace)..];
    if b == [] || b[0] != ':' then None else CounterName(b[1..])
  }

  /** `\s*([\w-]+)`: spaces, then the longest run of name characters, of
      which there must be one. */
  function CounterName(c0: string): (r: Option<string>)
    ensures r.Some? ==> r.value != [] && forall i :: 0 <= i < |r.value| ==> IsCounterChar(r.value[i])
  {
    var c := c0[Span(c0, IsSpace)..];
    var n := Span(c, IsCounterChar);
    if n == 0 then None else Some(c[..n])
  }

  /** `re.search` of a pattern whose match at the start of a text is
      `matchAt`: the match at the leftmost position that has one. */
  function Search(matchAt: string -> Option<string>, s: string): Option<string>
    decreases |s|
  {
    if matchAt(s).Some? then matchAt(s)
    else if s == [] then None
    else Search(matchAt, s[1..])
  }

  /** `re.search` of the counter-style pattern. */
  function SearchCounterStyle(s: string): Option<string>
  {
    Search(CounterStyleAt, s)
  }

  /** The search finds a match when there is one, and then the leftmost. */
  lemma {:induction false} SearchFirst(matchAt: string -> Option<string>, s: string)
    ensures var r := Search(matchAt, s);
      r.Some? <==> exists p :: 0 <= p <= |s| && matchAt(s[p..]).Some?
    ensures var r := Search(matchAt, s);
      r.Some? ==> exists p :: (0 <= p <= |s| && matchAt(s[p..]) == r
        && forall q :: 0 <= q < p ==> matchAt(s[q..]).None?)
    decreases |s|
  {
    assert s[0..] == s;
    if matchAt(s).None? && s != [] {
      SearchFirst(matchAt, s[1..]);
      forall p | 1 <= p <= |s|
        ensures s[p..] == s[1..][p - 1..]
      {
      }
      if Search(matchAt, s).Some? {
        var p :| 0 <= p <= |s[1..]| && matchAt(s[1..][p..]) == Search(matchAt, s)
          && forall q :: 0 <= q < p ==> matchAt(s[1..][q..]).None?;
        assert s[1..][p..] == s[p + 1..];
        forall q | 0 <= q < p + 1
          ensures matchAt(s[q..]).None?
        {
          if q > 0 {
            assert s[q..] == s[1..][q - 1..];
          }
        }
      } else {
        forall p | 0 <= p <= |s|
          ensures matchAt(s[p..]).None?
        {
          if p > 0 {
            assert s[p..] == s[1..][p - 1..];
          }
        }
      }
    }
  }

  /** The counter style found is the leftmost match, and there is one
      exactly when some position matches. */
  lemma SearchLeftmost(s: string)
    ensures var r := SearchCounterStyle(s);
      r.Some? <==> exists p :: 0 <= p <= |s| && CounterStyleAt(s[p..]).Some?
    ensures var r := SearchCounterStyle(s);
      r.Some? ==> exists p :: (0 <= p <= |s| && CounterStyleAt(s[p..]) == r
        && forall q :: 0 <= q < p ==> CounterStyleAt(s[q..]).None?)
  {
    SearchFirst(CounterStyleAt, s);
  }

  /** A style that declares `list-style-type: name` first gives `name` as
      the counter style. */
  lemma CounterStyleOfDeclaration(name: string, rest: string)
    requires name != [] && forall i :: 0 <= i < |name| ==> IsCounterChar(name[i])
    requires rest == [] || !IsCounterChar(rest[0])
    ensures SearchCounterStyle(Property + ": " + name + rest) == Some(name)
  {
    DeclarationMatches(name, rest);
  }

  lemma DeclarationMatches(name: string, rest: string)
    requires name != [] && forall i :: 0 <= i < |name| ==> IsCounterChar(name[i])
    requires rest == [] || !IsCounterChar(rest[0])
    ensures CounterStyleAt(Property + ": " + name + rest) == Some(name)
  {
    var tail := name + rest;
    var s := Property + (": " + tail);
    assert s == Property + ": " + name + rest;
    assert s[..|Property|] == Property && s[|Property|..] == ": " + tail;
    ColonThenName(tail);
    NameMatches(name, rest);
  }

  lemma ColonThenName(tail: string)
    ensures ColonValue(": " + tail) == CounterName([' '] + tail)
  {
    var a := ": " + tail;
    assert Span(a, IsSpace) == 0;
    assert a[0..] == a && a[1..] == [' '] + tail;
  }

  lemma NameMatches(name: string, rest: string)
    requires name != [] && forall i :: 0 <= i < |name| ==> IsCounterChar(name[i])
    requires rest == [] || !IsCounterChar(rest[0])
    ensures CounterName([' '] + (name + rest)) == Some(name)
  {
    var tail := name + rest;
    SpanOfSpace(tail);
    assert ([' '] + tail)[1..] == tail;
    SpanOfCounter(name, rest);
    assert tail[..|name|] == name;
  }

  lemma SpanOfSpace(tail: string)
    requires tail != [] && !IsSpace(tail[0])
    ensures Span([' '] + tail, IsSpace) == 1
  {
    assert ([' '] + tail)[1..] == tail;
  }

  lemma {:induction false} SpanOfCounter(name: string, rest: string)
    requires forall i :: 0 <= i < |name| ==> IsCounterChar(name[i])
    requires rest == [] || !IsCounterChar(rest[0])
    ensures Span(name + rest, IsCounterChar) == |name|
    decreases |name|
  {
    if name == [] {
      assert name + rest == rest;
    } else {
      assert (name + rest)[1..] == name[1..] + rest;
      SpanOfCounter(name[1..], rest);
    }
  }

  /** The CSS `content` of the bullet in list.py: an ordered list counts with
      the counter style its rendered style declares (`decimal` when it
      declares none); otherwise a list style with symbols uses the symbol for
      its level, cycling; otherwise a disc, a circle at level 2 and a square
      from level 3 on. */
  function Bullet(listType: ListType, style: Style, level: int, theme: Theme): string
  {
    if listType == Ordered then OrderedBullet(SearchCounterStyle(Render(style, theme)).GetOr("decimal"))
    else UnorderedBullet(style, level)
  }

  /** The start of every ordered bullet. */
  const CounterHead: string := "counter(streamtex-counter"

  /** `counter(streamtex-counter, <counterStyle>) '.'`. */
  function OrderedBullet(counterStyle: string): string
  {
    CounterHead + ", " + counterStyle + ") '.'"
  }

  /** The bullet of an unordered list, the same in both controllers. */
  function UnorderedBullet(style: Style, level: int): string
  {
    if style.ListStyle? && style.symbols != [] then
      "'" + style.symbols[(level - 1) % |style.symbols|] + "'"
    else if level == 2 then "'○'"
    else if level >= 3 then "'■'"
    else "'•'"
  }

  /** The symbol for level `n` is the one `ListStyle.lvl(n)` selects. */
  lemma UnorderedBulletMatchesLvl(style: Style, level: int)
    requires style.ListStyle? && style.symbols != []
    ensures Lvl(style.symbols, level) == Some(SymbolCss(
      UnorderedBullet(style, level)[1..|UnorderedBullet(style, level)| - 1]))
  {
    var s := style.symbols[(level - 1) % |style.symbols|];
    var b := "'" + s + "'";
    assert b[1..|b| - 1] == s;
  }

  /** A list style's bullets repeat every `|symbols|` levels. */
  lemma BulletPeriodic(style: Style, level: int)
    requires style.ListStyle? && style.symbols != []
    ensures UnorderedBullet(style, level + |style.symbols|) == UnorderedBullet(style, level)
  {
    var n := |style.symbols|;
    ModShift(level - 1, n);
    assert level + n - 1 == (level - 1) + n;
  }

  /** `ListStyles.ordered_lowercase`: `list-style-type: lower-alpha;`. */
  const OrderedLowercase: Style := Style(Property + ": " + "lower-alpha" + ";", "ordered_lowercase")

  /** An ordered list in that style counts with lower-case letters. */
  lemma LowerAlphaBullet(theme: Theme)
    requires "ordered_lowercase" !in theme
    ensures Bullet(Ordered, OrderedLowercase, 1, theme) == OrderedBullet("lower-alpha")
  {
    CounterStyleOfDeclaration("lower-alpha", ";");
  }

  /** The bullet of list_old.py: ordered lists count in the default style;
      the others are as in list.py. */
  function OldBullet(listType: ListType, style: Style, level: int): string
  {
    if listType == Ordered then CounterHead + ") '.'" else UnorderedBullet(style, level)
  }

  /** The two controllers differ only on ordered lists. */
  lemma OldBulletAgrees(style: Style, level: int, theme: Theme)
    ensures OldBullet(Unordered, style, level) == Bullet(Unordered, style, level, theme)
    ensures OldBullet(Ordered, style, level) != Bullet(Ordered, style, level, theme)
  {
    OrderedBulletNamesStyle(SearchCounterStyle(Render(style, theme)).GetOr("decimal"));
  }

  /** Every ordered bullet names a counter style; the older one names none. */
  lemma OrderedBulletNamesStyle(x: string)
    ensures CounterHead + ") '.'" != OrderedBullet(x)
  {
    var a := CounterHead + ") '.'";
    var b := CounterHead + (", " + x + ") '.'");
    assert OrderedBullet(x) == b;
    assert a[|CounterHead|] == ')' && b[|CounterHead|] == ',';
  }

  // ---------------------------------------------------------------------
  // Items

  /** `item(style)`: the controller's item style, extended by the item's own
      style when that one is given and truthy. */
  function ItemStyle(liStyle: Style, style: Option<Style>, theme: Theme): (r: Style)
    ensures style.None? || !Truthy(style.value, theme) ==> r == liStyle
    ensures style.Some? && Truthy(style.value, theme) ==>
      Props(r.css) == Props(Render(liStyle, theme)) + Props(Render(style.value, theme))
  {
    if style.Some? && Truthy(style.value, theme) then Plus(liStyle, Styled(style.value), theme) else liStyle
  }

  /** The counter declaration of an item: list.py counts only the items of
      ordered lists, list_old.py counts every item. */
  function CounterIncrement(listType: ListType): (r: string)
    ensures r != "" <==> listType == Ordered
  {
    if listType == Ordered then "counter-increment: streamtex-counter;" else ""
  }

  /** The counter declaration list_old.py gives every item. */
  const OldCounterIncrement: string := "counter-increment: streamtex-counter;"

  /** The two controllers agree on the counter of an ordered item; list.py
      stops counting the items of other lists, which list_old.py counts. */
  lemma OldCounterAgrees(listType: ListType)
    ensures CounterIncrement(listType) == OldCounterIncrement <==> listType == Ordered
  {
  }

  // ---------------------------------------------------------------------
  // The HTML list of st_list

  /** An entry of `block_list`: text, or a nested list. */
  datatype Item = Text(text: string) | Sub(items: seq<Item>)

  /** `l_style.lvl(level) + l_style` for a list style, the style itself
      otherwise, rendered. */
  function ListCss(style: Style, level: int, theme: Theme): string
    requires style.ListStyle? ==> style.symbols != []
  {
    if style.ListStyle? then Render(RPlus(Lvl(style.symbols, level).value, style, theme), theme)
    else Render(style, theme)
  }

  /** A list style's CSS at level `n` and `n + |symbols|` is the same. */
  lemma ListCssPeriodic(style: Style, level: int, theme: Theme)
    requires style.ListStyle? && style.symbols != []
    ensures ListCss(style, level + |style.symbols|, theme) == ListCss(style, level, theme)
  {
    LvlPeriodic(style.symbols, level);
    var a := Lvl(style.symbols, level + |style.symbols|).value;
    var b := Lvl(style.symbols, level).value;
    assert a == b;
  }

  function OpenTag(tag: string, listCss: string, count: nat, stickToText: bool): string
  {
    "<" + tag + " style=\"" + listCss + " display: inline-block; text-align: left; "
      + (if stickToText && count != 1 then "list-style-position: inside; padding-left: 0;" else "") + "\">"
  }

  /** The opening of item `i`: every text item after the first closes the
      previous `<li>`. */
  function LiOpen(i: nat, liCss: string): string
  {
    (if i == 0 then "" else "</li>") + "<li style=\"" + liCss + " \">"
  }

  /** `st_list(list_type, l_style, li_style, block_list, level, stickToText)`.
      A nested list is rendered at the next level and always with
      `stickToText`. */
  function ListHtml(t: ListType, lStyle: Style, liStyle: Style, items: seq<Item>, level: int,
                    stickToText: bool, theme: Theme): string
    requires lStyle.ListStyle? ==> lStyle.symbols != []
    decreases items, 1
  {
    OpenTag(Tag(t), ListCss(lStyle, level, theme), |items|, stickToText)
      + ItemsHtml(t, lStyle, liStyle, items, 0, level, theme)
      + "</li></" + Tag(t) + ">"
  }

  function ItemsHtml(t: ListType, lStyle: Style, liStyle: Style, items: seq<Item>, i: nat, level: int,
                     theme: Theme): string
    requires lStyle.ListStyle? ==> lStyle.symbols != []
    decreases items, 0, |items| - i
  {
    if i >= |items| then ""
    else
      var here := match items[i]
        case Sub(xs) => ListHtml(t, lStyle, liStyle, xs, level + 1, true, theme)
        case Text(s) => LiOpen(i, Render(liStyle, theme)) + s;
      here + ItemsHtml(t, lStyle, liStyle, items, i + 1, level, theme)
  }

  datatype ListError = NoSymbols

  /** The whole call: a list style without symbols makes `lvl` divide by
      zero before anything is written. */
  function StList(t: ListType, lStyle: Style, liStyle: Style, items: seq<Item>, level: int,
                  stickToText: bool, theme: Theme): (r: Result<string, ListError>)
    ensures r.Failure? <==> lStyle.ListStyle? && lStyle.symbols == []
    ensures r.Success? ==> r.value == ListHtml(t, lStyle, liStyle, items, level, stickToText, theme)
  {
    if lStyle.ListStyle? && lStyle.symbols == [] then Failure(NoSymbols)
    else Success(ListHtml(t, lStyle, liStyle, items, level, stickToText, theme))
  }

  predicate AllText(items: seq<Item>)
  {
    forall i :: 0 <= i < |items| ==> items[i].Text?
  }

  /** The `<li>` elements of texts, as a reference: each text behind its
      opening tag, the elements separated by `</li>`. */
  function TextItems(texts: seq<string>, liCss: string): (r: seq<string>)
    ensures |r| == |texts|
    ensures forall i :: 0 <= i < |r| ==> r[i] == "<li style=\"" + liCss + " \">" + texts[i]
  {
    seq(|texts|, i requires 0 <= i < |texts| => "<li style=\"" + liCss + " \">" + texts[i])
  }

  function Texts(items: seq<Item>): (r: seq<string>)
    requires AllText(items)
    ensures |r| == |items|
    ensures forall i :: 0 <= i < |r| ==> r[i] == items[i].text
  {
    seq(|items|, i requires 0 <= i < |items| => items[i].text)
  }

  /** A list of texts only writes its `<li>` elements joined by `</li>`. */
  lemma FlatListItems(t: ListType, lStyle: Style, liStyle: Style, items: seq<Item>, level: int, theme: Theme)
    requires lStyle.ListStyle? ==> lStyle.symbols != []
    requires AllText(items) && items != []
    ensures ItemsHtml(t, lStyle, liStyle, items, 0, level, theme)
         == JoinWith(TextItems(Texts(items), Render(liStyle, theme)), "</li>")
  {
    ItemsAreTexts(t, lStyle, liStyle, items, 0, level, theme);
    FlatTexts(Texts(items), Render(liStyle, theme));
  }

  /** The items from `i` on when each is a text: opening tags and texts. */
  function TextsFrom(texts: seq<string>, css: string, i: nat): string
    decreases |texts| - i
  {
    if i >= |texts| then "" else LiOpen(i, css) + texts[i] + TextsFrom(texts, css, i + 1)
  }

  lemma {:induction false} ItemsAreTexts(t: ListType, lStyle: Style, liStyle: Style, items: seq<Item>, i: nat,
                                         level: int, theme: Theme)
    requires lStyle.ListStyle? ==> lStyle.symbols != []
    requires AllText(items) && i <= |items|
    ensures ItemsHtml(t, lStyle, liStyle, items, i, level, theme) == TextsFrom(Texts(items), Render(liStyle, theme), i)
    decreases |items| - i
  {
    if i < |items| {
      ItemsAreTexts(t, lStyle, liStyle, items, i + 1, level, theme);
      TextItemUnfolds(t, lStyle, liStyle, items, i, level, theme);
    }
  }

  /** The text of a text item follows its opening tag. */
  lemma TextItemUnfolds(t: ListType, lStyle: Style, liStyle: Style, items: seq<Item>, i: nat, level: int, theme: Theme)
    requires lStyle.ListStyle? ==> lStyle.symbols != []
    requires i < |items| && items[i].Text?
    ensures ItemsHtml(t, lStyle, liStyle, items, i, level, theme)
         == LiOpen(i, Render(liStyle, theme)) + items[i].text + ItemsHtml(t, lStyle, liStyle, items, i + 1, level, theme)
  {
  }

  /** Texts behind their opening tags are their `<li>` elements joined by
      `</li>`. */
  lemma FlatTexts(texts: seq<string>, css: string)
    requires texts != []
    ensures TextsFrom(texts, css, 0) == JoinWith(TextItems(texts, css), "</li>")
  {
    var li := TextItems(texts, css);
    TextsFromLater(texts, css, 1);
    assert TextsFrom(texts, css, 0) == li[0] + TextsFrom(texts, css, 1);
    JoinTail(li);
  }

  /** From the second text on, each contributes `</li>` and its element. */
  lemma {:induction false} TextsFromLater(texts: seq<string>, css: string, i: nat)
    requires 1 <= i <= |texts|
    ensures TextsFrom(texts, css, i) == Concat(Prefixed("</li>", TextItems(texts, css)[i..]))
    decreases |texts| - i
  {
    var li := TextItems(texts, css);
    if i < |texts| {
      TextsFromLater(texts, css, i + 1);
      LaterTextItem(i, css, texts[i], TextsFrom(texts, css, i + 1));
      ConcatPrefixedStep("</li>", li, i);
    } else {
      ConcatPrefixedEnd("</li>", li);
    }
  }

  lemma ConcatPrefixedEnd(sep: string, xs: seq<string>)
    ensures Concat(Prefixed(sep, xs[|xs|..])) == ""
  {
    assert xs[|xs|..] == [];
    assert Prefixed(sep, []) == [];
  }

  lemma LaterTextItem(i: nat, css: string, text: string, rest: string)
    requires i >= 1
    ensures LiOpen(i, css) + text + rest == "</li>" + ("<li style=\"" + css + " \">" + text) + rest
  {
  }

  lemma ConcatPrefixedStep(sep: string, xs: seq<string>, i: nat)
    requires i < |xs|
    ensures Concat(Prefixed(sep, xs[i..])) == sep + xs[i] + Concat(Prefixed(sep, xs[i + 1..]))
  {
    var p := Prefixed(sep, xs[i..]);
    assert p[0] == sep + xs[i];
    assert p[1..] == Prefixed(sep, xs[i + 1..]);
  }

  /** Each string behind `sep`. */
  function Prefixed(sep: string, xs: seq<string>): (r: seq<string>)
    ensures |r| == |xs|
    ensures forall i :: 0 <= i < |r| ==> r[i] == sep + xs[i]
  {
    seq(|xs|, i requires 0 <= i < |xs| => sep + xs[i])
  }

  function Concat(xs: seq<string>): string
  {
    if xs == [] then "" else xs[0] + Concat(xs[1..])
  }

  lemma {:induction false} JoinTail(xs: seq<string>)
    requires xs != []
    ensures JoinWith(xs, "</li>") == xs[0] + Concat(Prefixed("</li>", xs[1..]))
    decreases |xs|
  {
    if |xs| == 1 {
      assert xs[1..] == [];
    } else {
      JoinTail(xs[1..]);
      var p := Prefixed("</li>", xs[1..]);
      assert p == ["</li>" + xs[1]] + Prefixed("</li>", xs[2..]);
      assert xs[1..][1..] == xs[2..];
    }
  }
}
