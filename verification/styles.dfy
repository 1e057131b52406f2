/** The style algebra of streamtex_package/src/streamtex/styles.py: a `Style`
    is raw CSS plus an id that a theme may override; `ListStyle` adds bullet
    symbols. The global `theme` dictionary is an explicit map parameter. */
module Styles {
  import opened Text
  import opened Css
  import opened Results

  /** Theme overrides: style id to the CSS that replaces the raw CSS. */
  type Theme = map<string, string>

  /** A plain style, or a list style that also carries bullet symbols. */
  datatype Style =
    | Style(css: string, id: string)
    | ListStyle(css: string, id: string, symbols: seq<string>)

  /** `StreamTeX_Styles.none`: empty CSS under the id `none`. */
  const NoneStyle: Style := Style("", "none")

  /** The symbol a `ListStyle` gets when none are given: the three characters
      U+201A U+00F3 U+00E8, which is how the UTF-8 bytes of a black circle
      read when decoded as Mac Roman. */
  const DefaultSymbol: string := "\U{201A}\U{F3}\U{E8}"

  /** `str(style)`: the theme's CSS for the id when the theme has one,
      otherwise the raw CSS. */
  function Render(s: Style, theme: Theme): string
  {
    if s.id in theme then theme[s.id] else s.css
  }

  /** `bool(style)`: the rendered CSS has a non-whitespace character. */
  predicate Truthy(s: Style, theme: Theme)
  {
    Strip(Render(s, theme)) != ""
  }

  /** A style is falsy exactly when its rendered CSS is whitespace only. */
  lemma TruthyIffNotBlank(s: Style, theme: Theme)
    ensures Truthy(s, theme) <==> !IsBlank(Render(s, theme))
  {
  }

  /** `none` is falsy unless a theme gives the id `none` some CSS. */
  lemma NoneFalsy(theme: Theme)
    requires "none" !in theme
    ensures !Truthy(NoneStyle, theme)
  {
    assert IsBlank(Render(NoneStyle, theme));
  }

  /** The right operand of `+` and `-`: another style or a raw CSS string. */
  datatype Operand = Styled(style: Style) | Raw(text: string)

  /** A raw string used as part of an id: spaces and semicolons removed. */
  function CleanId(t: string): (r: string)
    ensures ' ' !in r && ';' !in r
  {
    RemoveChars(t, {' ', ';'})
  }

  /** The CSS an operand contributes: a style's rendered CSS, or the string. */
  function OperandCss(b: Operand, theme: Theme): string
  {
    match b
    case Styled(s) => Render(s, theme)
    case Raw(t) => t
  }

  /** The id an operand contributes. */
  function OperandId(b: Operand): string
  {
    match b
    case Styled(s) => s.id
    case Raw(t) => CleanId(t)
  }

  /** The symbols a right operand adds to a list style: only a list style has any. */
  function OperandSymbols(b: Operand): seq<string>
  {
    if b.Styled? && b.style.ListStyle? then b.style.symbols else []
  }

  /** A style of the same kind as `a` (keeping its symbols) with new CSS and id. */
  function Rebuild(a: Style, css: string, id: string, symbols: seq<string>): (r: Style)
    ensures r.ListStyle? <==> a.ListStyle?
    ensures r.css == css && r.id == id
    ensures r.ListStyle? ==> r.symbols == symbols
  {
    if a.ListStyle? then ListStyle(css, id, symbols) else Style(css, id)
  }

  /** `a + b`. The CSS joins the rendered operands with `add_css`; the ids are
      joined by a space and stripped. A list style on the left keeps its kind
      and appends the symbols of a list style on the right. A plain style on
      the left stays plain even when the right is a list style, because
      `ListStyle.__radd__` declines non-string operands and Python falls back
      to `Style.__add__`. */
  function Plus(a: Style, b: Operand, theme: Theme): (r: Style)
    ensures Props(r.css) == Props(Render(a, theme)) + Props(OperandCss(b, theme))
    ensures OperandCss(b, theme) == "" ==> r.css == Render(a, theme)
    ensures r.ListStyle? <==> a.ListStyle?
    ensures r.ListStyle? ==> r.symbols == a.symbols + OperandSymbols(b)
    ensures r.id == Strip(a.id + " " + OperandId(b))
  {
    var symbols := if a.ListStyle? then a.symbols + OperandSymbols(b) else [];
    var css := AddCss(Render(a, theme), OperandCss(b, theme));
    Rebuild(a, css, Strip(a.id + " " + OperandId(b)), symbols)
  }

  /** `t + a` for a string `t`: the string's CSS comes first and its cleaned
      text leads the id; the kind and symbols of `a` are kept. */
  function RPlus(t: string, a: Style, theme: Theme): (r: Style)
    ensures Props(r.css) == Props(t) + Props(Render(a, theme))
    ensures t == "" ==> r.css == Render(a, theme)
    ensures r.ListStyle? <==> a.ListStyle?
    ensures r.ListStyle? ==> r.symbols == a.symbols
    ensures r.id == Strip(CleanId(t) + " " + a.id)
  {
    Rebuild(a, AddCss(t, Render(a, theme)), Strip(CleanId(t) + " " + a.id),
      if a.ListStyle? then a.symbols else [])
  }

  /** The position of the first occurrence of `y`. */
  function FirstIndex(xs: seq<string>, y: string): (i: nat)
    requires y in xs
    ensures i < |xs| && xs[i] == y && y !in xs[..i]
  {
    if xs[0] == y then 0 else 1 + FirstIndex(xs[1..], y)
  }

  /** Python's `list.remove(y)` guarded by `y in xs`: the first occurrence of
      `y` is dropped, and the other symbols keep their order. */
  function RemoveFirst(xs: seq<string>, y: string): (r: seq<string>)
    ensures y in xs ==> r == xs[..FirstIndex(xs, y)] + xs[FirstIndex(xs, y) + 1..]
    ensures y !in xs ==> r == xs
  {
    if xs == [] then []
    else if xs[0] == y then
      assert xs[..0] == [];
      xs[1..]
    else
      var rest := RemoveFirst(xs[1..], y);
      RemoveLater(xs, y, rest);
      [xs[0]] + rest
  }

  /** Removing a present symbol takes exactly one of it away. */
  lemma RemoveFirstCount(xs: seq<string>, y: string)
    ensures y in xs ==> multiset(RemoveFirst(xs, y)) == multiset(xs) - multiset{y}
    ensures y !in xs ==> multiset(RemoveFirst(xs, y)) == multiset(xs) - multiset{y}
  {
    if y in xs {
      RemovePresentCount(xs, y);
    } else {
      assert multiset(xs)[y] == 0;
    }
  }

  lemma RemovePresentCount(xs: seq<string>, y: string)
    requires y in xs
    ensures multiset(RemoveFirst(xs, y)) == multiset(xs) - multiset{y}
  {
    var i := FirstIndex(xs, y);
    var before, after := xs[..i], xs[i + 1..];
    assert xs == before + [y] + after;
    assert multiset(xs) == multiset(before) + multiset{y} + multiset(after);
    assert multiset(RemoveFirst(xs, y)) == multiset(before) + multiset(after);
    TakeOne(multiset(before), y, multiset(after));
  }

  lemma TakeOne(b: multiset<string>, y: string, a: multiset<string>)
    ensures b + multiset{y} + a - multiset{y} == b + a
  {
  }

  /** Removing a later first occurrence keeps the head in front. */
  lemma RemoveLater(xs: seq<string>, y: string, rest: seq<string>)
    requires xs != [] && xs[0] != y
    requires y in xs[1..] ==> rest == xs[1..][..FirstIndex(xs[1..], y)] + xs[1..][FirstIndex(xs[1..], y) + 1..]
    ensures y in xs ==> [xs[0]] + rest == xs[..FirstIndex(xs, y)] + xs[FirstIndex(xs, y) + 1..]
  {
    if y in xs {
      assert y in xs[1..] by {
        assert xs[FirstIndex(xs, y)] == y;
        assert xs[1..][FirstIndex(xs, y) - 1] == y;
      }
      var k := FirstIndex(xs[1..], y);
      assert FirstIndex(xs, y) == k + 1;
      assert xs[..k + 1] == [xs[0]] + xs[1..][..k];
      assert xs[k + 2..] == xs[1..][k + 1..];
    }
  }

  /** The symbol subtraction of `ListStyle.__sub__`: one occurrence removed per
      right-hand symbol that is still present, in the right-hand order. The
      result is the multiset difference. */
  function RemoveEach(xs: seq<string>, ys: seq<string>): (r: seq<string>)
    ensures multiset(r) == multiset(xs) - multiset(ys)
    decreases |ys|
  {
    if ys == [] then xs
    else
      var next := RemoveFirst(xs, ys[0]);
      var r := RemoveEach(next, ys[1..]);
      RemoveFirstCount(xs, ys[0]);
      HeadBudget(ys);
      DifferenceSteps(multiset(xs), ys[0], multiset(ys[1..]));
      r
  }

  lemma DifferenceSteps(a: multiset<string>, y: string, rest: multiset<string>)
    ensures a - multiset{y} - rest == a - (rest + multiset{y})
  {
  }

  /** An independent description of the symbol subtraction: scanning left
      to right, an occurrence is dropped while the budget `m` still holds
      its symbol, and kept otherwise. So each symbol loses its first
      occurrences, as many as the budget names, and the survivors keep their
      order. */
  function DropFirsts(xs: seq<string>, m: multiset<string>): (r: seq<string>)
    ensures multiset(r) == multiset(xs) - m
    decreases |xs|
  {
    if xs == [] then []
    else if m[xs[0]] > 0 then
      var r := DropFirsts(xs[1..], m - multiset{xs[0]});
      assert xs == [xs[0]] + xs[1..];
      r
    else
      var r := DropFirsts(xs[1..], m);
      assert xs == [xs[0]] + xs[1..];
      [xs[0]] + r
  }

  lemma {:induction false} DropNothing(xs: seq<string>)
    ensures DropFirsts(xs, multiset{}) == xs
    decreases |xs|
  {
    if xs != [] {
      DropNothing(xs[1..]);
    }
  }

  /** Removing the first `y` and then dropping by `m` is dropping by `m`
      plus one `y`. */
  lemma {:induction false} DropAfterRemove(xs: seq<string>, y: string, m: multiset<string>)
    ensures DropFirsts(RemoveFirst(xs, y), m) == DropFirsts(xs, m + multiset{y})
    decreases |xs|
  {
    if xs != [] && xs[0] != y {
      var x := xs[0];
      var rest := RemoveFirst(xs[1..], y);
      assert RemoveFirst(xs, y) == [x] + rest;
      assert ([x] + rest)[0] == x && ([x] + rest)[1..] == rest;
      if m[x] > 0 {
        DropAfterRemove(xs[1..], y, m - multiset{x});
        SwapBudget(m, x, y);
      } else {
        DropAfterRemove(xs[1..], y, m);
      }
    } else if xs != [] {
      BudgetBack(m, y);
    }
  }

  lemma SwapBudget(m: multiset<string>, x: string, y: string)
    requires m[x] > 0 && x != y
    ensures m - multiset{x} + multiset{y} == m + multiset{y} - multiset{x}
  {
  }

  lemma BudgetBack(m: multiset<string>, y: string)
    ensures m + multiset{y} - multiset{y} == m
  {
  }

  lemma HeadBudget(ys: seq<string>)
    requires ys != []
    ensures multiset(ys[1..]) + multiset{ys[0]} == multiset(ys)
  {
    assert ys == [ys[0]] + ys[1..];
  }

  /** The symbol subtraction agrees with its independent description. */
  lemma {:induction false} RemoveEachDrops(xs: seq<string>, ys: seq<string>)
    ensures RemoveEach(xs, ys) == DropFirsts(xs, multiset(ys))
    decreases |ys|
  {
    if ys == [] {
      DropNothing(xs);
    } else {
      RemoveEachDrops(RemoveFirst(xs, ys[0]), ys[1..]);
      DropAfterRemove(xs, ys[0], multiset(ys[1..]));
      HeadBudget(ys);
    }
  }

  /** `a - b`. The CSS is `remove_css` of the rendered operands; the ids are
      joined by `-` and stripped. Two list styles also subtract symbols,
      each right-hand symbol taking away the first occurrence still there;
      a list style minus anything else keeps its symbols. */
  function Minus(a: Style, b: Operand, theme: Theme): (r: Style)
    ensures Props(r.css) == Kept(Props(Render(a, theme)), Names(OperandCss(b, theme)))
    ensures r.ListStyle? <==> a.ListStyle?
    ensures r.ListStyle? ==> r.symbols == DropFirsts(a.symbols, multiset(OperandSymbols(b)))
    ensures r.ListStyle? ==> multiset(r.symbols) == multiset(a.symbols) - multiset(OperandSymbols(b))
    ensures r.id == Strip(a.id + "-" + OperandId(b))
  {
    RemoveEachDrops(if a.ListStyle? then a.symbols else [], OperandSymbols(b));
    var symbols := if a.ListStyle? then RemoveEach(a.symbols, OperandSymbols(b)) else [];
    Rebuild(a, RemoveCss(Render(a, theme), OperandCss(b, theme)), Strip(a.id + "-" + OperandId(b)), symbols)
  }

  /** `t - a` for a string `t`: `a`'s declarations are removed from `t`; the
      kind and symbols of `a` are kept. */
  function RMinus(t: string, a: Style, theme: Theme): (r: Style)
    ensures Props(r.css) == Kept(Props(t), Names(Render(a, theme)))
    ensures r.ListStyle? <==> a.ListStyle?
    ensures r.ListStyle? ==> r.symbols == a.symbols
    ensures r.id == Strip(CleanId(t) + "-" + a.id)
  {
    Rebuild(a, RemoveCss(t, Render(a, theme)), Strip(CleanId(t) + "-" + a.id),
      if a.ListStyle? then a.symbols else [])
  }

  /** For non-empty ids without surrounding whitespace the stripping is
      invisible: `+` joins the left id and the operand's id with a space,
      `-` with a dash. */
  lemma IdsJoin(a: Style, b: Operand, theme: Theme)
    requires a.id != "" && Stripped(a.id)
    requires OperandId(b) != "" && Stripped(OperandId(b))
    ensures Plus(a, b, theme).id == a.id + " " + OperandId(b)
    ensures Minus(a, b, theme).id == a.id + "-" + OperandId(b)
  {
    JoinStripped(a.id, " ", OperandId(b));
    JoinStripped(a.id, "-", OperandId(b));
  }

  /** With the string on the left, its cleaned text comes first in the id. */
  lemma ReflectedIdsJoin(t: string, a: Style, theme: Theme)
    requires CleanId(t) != "" && Stripped(CleanId(t))
    requires a.id != "" && Stripped(a.id)
    ensures RPlus(t, a, theme).id == CleanId(t) + " " + a.id
    ensures RMinus(t, a, theme).id == CleanId(t) + "-" + a.id
  {
    JoinStripped(CleanId(t), " ", a.id);
    JoinStripped(CleanId(t), "-", a.id);
  }

  /** After `a - b`, no surviving declaration is named by `b`. */
  lemma MinusRemovesNamed(a: Style, b: Operand, theme: Theme, p: string)
    requires p in Props(Minus(a, b, theme).css)
    requires PropName(p).Some?
    ensures PropName(p).value !in Names(OperandCss(b, theme))
    ensures p in Props(Render(a, theme))
  {
    KeptMembers(Props(Render(a, theme)), Names(OperandCss(b, theme)), p);
  }

  /** Subtracting the same operand twice removes nothing more, provided the
      intermediate id has no theme override. */
  lemma MinusIdempotent(a: Style, b: Operand, theme: Theme)
    requires Minus(a, b, theme).id !in theme
    ensures Props(Minus(Minus(a, b, theme), b, theme).css) == Props(Minus(a, b, theme).css)
  {
    KeptIdempotent(Props(Render(a, theme)), Names(OperandCss(b, theme)));
  }

  /** Chains of `+` group freely as far as the CSS goes, provided the
      intermediate ids have no theme override. */
  lemma PlusAssociative(a: Style, b: Style, c: Style, theme: Theme)
    requires Plus(a, Styled(b), theme).id !in theme
    requires Plus(b, Styled(c), theme).id !in theme
    ensures Plus(Plus(a, Styled(b), theme), Styled(c), theme).css
         == Plus(a, Styled(Plus(b, Styled(c), theme)), theme).css
  {
    AddCssAssociative(Render(a, theme), Render(b, theme), Render(c, theme));
  }

  /** Adding `none` (when the theme leaves it alone) keeps the rendered CSS. */
  lemma PlusNone(a: Style, theme: Theme)
    requires "none" !in theme
    ensures Plus(a, Styled(NoneStyle), theme).css == Render(a, theme)
  {
  }

  /** `ListStyle(css, id, symbols)`: a missing symbol list becomes the
      one-element default. */
  function MakeListStyle(css: string, id: string, symbols: Option<seq<string>>): (r: Style)
    ensures r.ListStyle? && r.css == css && r.id == id
    ensures symbols.None? ==> r.symbols == [DefaultSymbol]
    ensures symbols.Some? ==> r.symbols == symbols.value
  {
    ListStyle(css, id, if symbols.Some? then symbols.value else [DefaultSymbol])
  }

  /** `Style.create` / `ListStyle.create`: the raw CSS (not the rendered one)
      and the kind and symbols under a new id. */
  function Recreate(s: Style, id: string): (r: Style)
    ensures r.css == s.css && r.id == id
    ensures r.ListStyle? <==> s.ListStyle?
    ensures r.ListStyle? ==> r.symbols == s.symbols
  {
    s.(id := id)
  }

  /** The `list-style-type` declaration for one bullet symbol. */
  function SymbolCss(symbol: string): string
  {
    "list-style-type: '" + symbol + "';"
  }

  /** `ListStyle.lvl(n)`: the symbol for nesting level `n`, cycling with
      Python's floor modulo (so levels below 1 wrap around too). An empty
      symbol list divides by zero, modelled as no result. */
  function Lvl(symbols: seq<string>, n: int): (r: Option<string>)
    ensures r.Some? <==> |symbols| > 0
    ensures r.Some? ==> exists k :: 0 <= k < |symbols| && r.value == SymbolCss(symbols[k])
  {
    if |symbols| == 0 then None else Some(SymbolCss(symbols[(n - 1) % |symbols|]))
  }

  /** Levels 1 .. |symbols| use the symbols in order. */
  lemma LvlInRange(symbols: seq<string>, n: int)
    requires 1 <= n <= |symbols|
    ensures Lvl(symbols, n) == Some(SymbolCss(symbols[n - 1]))
  {
  }

  /** Level `n` and level `n + |symbols|` use the same symbol. */
  lemma LvlPeriodic(symbols: seq<string>, n: int)
    requires |symbols| > 0
    ensures Lvl(symbols, n + |symbols|) == Lvl(symbols, n)
  {
    ModShift(n - 1, |symbols|);
    assert n + |symbols| - 1 == (n - 1) + |symbols|;
  }

  /** Adding the modulus does not change a floor remainder. */
  lemma ModShift(x: int, m: int)
    requires m > 0
    ensures (x + m) % m == x % m
  {
    var q, r := x / m, x % m;
    assert x == q * m + r;
    assert x + m == (q + 1) * m + r;
    ModUnique(x + m, m, q + 1, r);
  }

  lemma ModUnique(a: int, m: int, q: int, r: int)
    requires m > 0 && 0 <= r < m && a == q * m + r
    ensures a % m == r
  {
    var q', r' := a / m, a % m;
    assert (q - q') * m == r' - r;
    if q > q' {
      MulAtLeast(q - q', m);
    } else if q < q' {
      MulAtLeast(q' - q, m);
    }
  }

  lemma MulAtLeast(k: int, m: int)
    requires k >= 1 && m > 0
    ensures k * m >= m
  {
  }
}
