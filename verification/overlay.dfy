/** The positioning styles of streamtex/overlay.py: an overlay is a relatively
    positioned container, and each layer inside it is absolutely positioned
    by up to four offsets. */
module Overlay {
  import opened Text
  import opened Css
  import opened Styles

  /** An offset argument: an integer number of pixels, a CSS length given as
      text, or `None`. */
  datatype Offset = Px(n: int) | Verbatim(text: string) | Absent

  /** `_fmt`: integers become `<n>px`, text is used as given. */
  function Fmt(o: Offset): (r: string)
    requires !o.Absent?
    ensures o.Px? ==> r == IntToString(o.n) + "px"
    ensures o.Verbatim? ==> r == o.text
  {
    if o.Px? then IntToString(o.n) + "px" else o.text
  }

  /** The declaration of a given side: its name, a colon, the offset. */
  function Decl(name: string, o: Offset): string
    requires !o.Absent?
  {
    name + ": " + Fmt(o)
  }

  /** The text a side appends to the position CSS. */
  function SideCss(name: string, o: Offset): string
  {
    if o.Absent? then "" else " " + Decl(name, o) + ";"
  }

  /** The position CSS of `layer`: absolute positioning above the base
      layer, then top, left, right and bottom, each only when given. */
  function PositionCss(top: Offset, left: Offset, right: Offset, bottom: Offset): string
  {
    "position: absolute; z-index: 10;"
      + SideCss("top", top) + SideCss("left", left) + SideCss("right", right) + SideCss("bottom", bottom)
  }

  /** The declaration a side contributes, if any. */
  function SideDecl(name: string, o: Offset): (r: seq<string>)
    ensures |r| <= 1
  {
    if o.Absent? then [] else [Decl(name, o)]
  }

  /** The declarations the position CSS makes, in order. */
  function PositionDecls(top: Offset, left: Offset, right: Offset, bottom: Offset): (r: seq<string>)
    ensures 2 <= |r| <= 6
    ensures r[0] == "position: absolute" && r[1] == "z-index: 10"
  {
    ["position: absolute", "z-index: 10"]
      + SideDecl("top", top) + SideDecl("left", left) + SideDecl("right", right) + SideDecl("bottom", bottom)
  }

  /** `layer(style, ...)`: the rendered style, a space, the position CSS. */
  function LayerStyle(style: Style, theme: Theme, top: Offset, left: Offset, right: Offset,
                      bottom: Offset): (r: string)
    ensures r == Render(style, theme) + " " + PositionCss(top, left, right, bottom)
  {
    Render(style, theme) + " " + PositionCss(top, left, right, bottom)
  }

  /** The declaration the overlay container adds. */
  const Relative := "position: relative"

  /** `st_overlay(style)`: the rendered style followed by relative
      positioning, which the layers' absolute offsets refer to. */
  function OverlayStyle(style: Style, theme: Theme): (r: string)
    ensures r == Render(style, theme) + " " + Relative + ";"
  {
    Render(style, theme) + " " + Relative + ";"
  }

  // ---------------------------------------------------------------------
  // Reading the CSS back

  /** An offset whose text reads back unchanged inside a declaration. */
  predicate CleanOffset(o: Offset)
  {
    o.Verbatim? ==> o.text != "" && Stripped(o.text) && ';' !in o.text
  }

  lemma JoinSnoc(ds: seq<string>, d: string, sep: string)
    requires |ds| >= 1
    ensures JoinWith(ds + [d], sep) == JoinWith(ds, sep) + sep + d
    decreases |ds|
  {
    if |ds| > 1 {
      JoinSnoc(ds[1..], d, sep);
      assert (ds + [d])[1..] == ds[1..] + [d];
    } else {
      assert ds + [d] == [ds[0], d];
    }
  }

  /** Adding a side's declaration to the joined declarations adds it to the
      CSS text in the way the source appends it. */
  lemma SideStep(ds: seq<string>, name: string, o: Offset)
    requires |ds| >= 1
    ensures JoinWith(ds, Separator) + ";" + SideCss(name, o) == JoinWith(ds + SideDecl(name, o), Separator) + ";"
  {
    var j := JoinWith(ds, Separator);
    if !o.Absent? {
      var d := Decl(name, o);
      JoinSnoc(ds, d, Separator);
      Reassociate(j, d);
    } else {
      assert ds + [] == ds;
      assert SideCss(name, o) == "";
    }
  }

  lemma Reassociate(j: string, d: string)
    ensures j + ";" + (" " + d + ";") == j + Separator + d + ";"
  {
  }

  /** The position CSS is its declarations joined by `"; "`, with a closing
      `;`. */
  lemma PositionCssJoined(top: Offset, left: Offset, right: Offset, bottom: Offset)
    ensures PositionCss(top, left, right, bottom) == JoinWith(PositionDecls(top, left, right, bottom), Separator) + ";"
  {
    var base := ["position: absolute", "z-index: 10"];
    assert JoinWith(base, Separator) + ";" == "position: absolute; z-index: 10;";
    SideStep(base, "top", top);
    var d1 := base + SideDecl("top", top);
    SideStep(d1, "left", left);
    var d2 := d1 + SideDecl("left", left);
    SideStep(d2, "right", right);
    var d3 := d2 + SideDecl("right", right);
    SideStep(d3, "bottom", bottom);
  }

  /** A trailing `;` adds no declaration. */
  lemma PropsTrailing(a: string)
    ensures Props(a + ";") == Props(a)
  {
    SplitAround(a, ';', "");
    assert a + ";" == a + [';'] + "";
    EmptyField();
    DeclarationsAppend(Split(a, ';'), [""]);
  }

  /** The empty text is one empty field, which declares nothing. */
  lemma EmptyField()
    ensures Split("", ';') == [""]
    ensures Declarations([""]) == []
  {
    assert [""][1..] == [];
    assert Strip("") == "" by {
      assert IsBlank("");
    }
  }

  lemma SideClean(name: string, o: Offset)
    requires CleanOffset(o)
    requires name != "" && Stripped(name) && ';' !in name
    ensures forall k :: 0 <= k < |SideDecl(name, o)| ==>
      SideDecl(name, o)[k] != "" && Stripped(SideDecl(name, o)[k]) && ';' !in SideDecl(name, o)[k]
  {
    if !o.Absent? {
      var f := Fmt(o);
      var d := Decl(name, o);
      assert d[0] == name[0];
      if o.Px? {
        assert f[|f| - 1] == 'x';
        assert ';' !in IntToString(o.n) by {
          if o.n < 0 {
            assert IntToString(o.n)[1..] == NatToString(-o.n);
          }
        }
      }
      assert d[|d| - 1] == f[|f| - 1];
    }
  }

  /** Declarations that read back as themselves. */
  predicate AllClean(ds: seq<string>)
  {
    forall k :: 0 <= k < |ds| ==> ds[k] != "" && Stripped(ds[k]) && ';' !in ds[k]
  }

  lemma AppendClean(a: seq<string>, b: seq<string>)
    requires AllClean(a) && AllClean(b)
    ensures AllClean(a + b)
  {
    forall k | 0 <= k < |a + b|
      ensures (a + b)[k] != "" && Stripped((a + b)[k]) && ';' !in (a + b)[k]
    {
      if k >= |a| {
        assert (a + b)[k] == b[k - |a|];
      }
    }
  }

  lemma BaseClean()
    ensures AllClean(["position: absolute", "z-index: 10"])
  {
    var p, z := "position: absolute", "z-index: 10";
    assert p[0] == 'p' && p[|p| - 1] == 'e' && ';' !in p;
    assert z[0] == 'z' && z[|z| - 1] == '0' && ';' !in z;
  }

  lemma DeclsClean(top: Offset, left: Offset, right: Offset, bottom: Offset)
    requires CleanOffset(top) && CleanOffset(left) && CleanOffset(right) && CleanOffset(bottom)
    ensures AllClean(PositionDecls(top, left, right, bottom))
  {
    BaseClean();
    SideClean("top", top);
    SideClean("left", left);
    SideClean("right", right);
    SideClean("bottom", bottom);
    var d0 := ["position: absolute", "z-index: 10"];
    var d1 := d0 + SideDecl("top", top);
    var d2 := d1 + SideDecl("left", left);
    var d3 := d2 + SideDecl("right", right);
    AppendClean(d0, SideDecl("top", top));
    AppendClean(d1, SideDecl("left", left));
    AppendClean(d2, SideDecl("right", right));
    AppendClean(d3, SideDecl("bottom", bottom));
  }

  /** Read back as declarations, the position CSS gives `position`,
      `z-index` and then exactly the given sides, in the order top, left,
      right, bottom, each with its formatted offset. */
  lemma PositionCssReadsBack(top: Offset, left: Offset, right: Offset, bottom: Offset)
    requires CleanOffset(top) && CleanOffset(left) && CleanOffset(right) && CleanOffset(bottom)
    ensures Props(PositionCss(top, left, right, bottom)) == PositionDecls(top, left, right, bottom)
  {
    var ds := PositionDecls(top, left, right, bottom);
    PositionCssJoined(top, left, right, bottom);
    PropsTrailing(JoinWith(ds, Separator));
    DeclsClean(top, left, right, bottom);
    PropsOfJoin(ds);
  }

  /** A style text closed by `;` (or empty), a space and more CSS read back
      as the declarations of the one followed by those of the other. */
  lemma SpaceAfterClosed(t: string, pos: string)
    requires t == "" || t[|t| - 1] == ';'
    ensures Props(t + " " + pos) == Props(t) + Props(pos)
  {
    if t == "" {
      assert t + " " + pos == " " + pos;
      PropsAfterSpace(pos);
      PropsEmpty();
    } else {
      var head := t[..|t| - 1];
      assert t == head + ";";
      assert t + " " + pos == head + Separator + pos;
      PropsJoin(head, pos);
      PropsTrailing(head);
    }
  }

  /** When the style's rendering is empty or ends its last declaration with
      `;`, the layer's declarations are the style's followed by the
      positioning ones, so the positioning comes last and takes precedence. */
  lemma LayerStyleReadsBack(style: Style, theme: Theme, top: Offset, left: Offset, right: Offset, bottom: Offset)
    requires CleanOffset(top) && CleanOffset(left) && CleanOffset(right) && CleanOffset(bottom)
    requires var t := Render(style, theme); t == "" || t[|t| - 1] == ';'
    ensures Props(LayerStyle(style, theme, top, left, right, bottom))
         == Props(Render(style, theme)) + PositionDecls(top, left, right, bottom)
  {
    PositionCssReadsBack(top, left, right, bottom);
    SpaceAfterClosed(Render(style, theme), PositionCss(top, left, right, bottom));
  }

  /** Under the same condition, the overlay container's declarations are the
      style's followed by relative positioning, which therefore takes
      precedence over any `position` the style sets. */
  lemma OverlayStyleReadsBack(style: Style, theme: Theme)
    requires var t := Render(style, theme); t == "" || t[|t| - 1] == ';'
    ensures Props(OverlayStyle(style, theme)) == Props(Render(style, theme)) + [Relative]
  {
    var t := Render(style, theme);
    AppendAssoc(t + " ", Relative, ";");
    SpaceAfterClosed(t, Relative + ";");
    RelativeClean();
    OneDeclaration(Relative);
  }

  lemma RelativeClean()
    ensures Relative != "" && Stripped(Relative) && ';' !in Relative
  {
    assert Relative[0] == 'p' && Relative[|Relative| - 1] == 'e';
  }

  /** One clean declaration closed by `;` reads back as itself. */
  lemma OneDeclaration(d: string)
    requires d != "" && Stripped(d) && ';' !in d
    ensures Props(d + ";") == [d]
  {
    PropsOfJoin([d]);
    assert JoinWith([d], Separator) == d;
    PropsTrailing(d);
  }
}
