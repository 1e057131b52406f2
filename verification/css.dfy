/** Inline CSS declaration strings (`prop: value; prop: value`) and the two
    string-level operations of the style algebra, `add_css` and `remove_css`
    (streamtex_package/src/streamtex/styles.py). */
module Css {
  import opened Text
  import opened Results

  /** The separator `add_css` and `remove_css` put between declarations. */
  const Separator := "; "

  /** The stripped, non-empty pieces of `fields`, in order. */
  function Declarations(fields: seq<string>): (r: seq<string>)
    ensures forall k :: 0 <= k < |r| ==> r[k] != "" && Stripped(r[k])
  {
    if fields == [] then [] else Piece(fields[0]) + Declarations(fields[1..])
  }

  /** The declaration one field contributes: none when it is blank. */
  function Piece(field: string): (r: seq<string>)
    ensures |r| <= 1
    ensures forall k :: 0 <= k < |r| ==> r[k] != "" && Stripped(r[k])
  {
    if Strip(field) != "" then [Strip(field)] else []
  }

  /** The declarations of a CSS string as `remove_css` reads them: split on
      `;`, stripped, empty pieces dropped. */
  function Props(css: string): (r: seq<string>)
    ensures forall k :: 0 <= k < |r| ==> r[k] != "" && Stripped(r[k])
  {
    Declarations(Split(css, ';'))
  }

  /** No declaration holds the separator. */
  lemma PropsNoSeparator(css: string)
    ensures forall k :: 0 <= k < |Props(css)| ==> ';' !in Props(css)[k]
  {
    DeclarationsNoSeparator(Split(css, ';'));
  }

  lemma {:induction false} DeclarationsNoSeparator(fields: seq<string>)
    requires forall k :: 0 <= k < |fields| ==> ';' !in fields[k]
    ensures forall k :: 0 <= k < |Declarations(fields)| ==> ';' !in Declarations(fields)[k]
    decreases |fields|
  {
    if fields != [] {
      StripKeepsOut(fields[0], ';');
      DeclarationsNoSeparator(fields[1..]);
    }
  }

  lemma {:induction false} DeclarationsAppend(a: seq<string>, b: seq<string>)
    ensures Declarations(a + b) == Declarations(a) + Declarations(b)
    decreases |a|
  {
    if a == [] {
      assert a + b == b;
    } else {
      assert (a + b)[0] == a[0];
      assert (a + b)[1..] == a[1..] + b;
      DeclarationsAppend(a[1..], b);
      assert Declarations(a + b) == Piece(a[0]) + Declarations(a[1..] + b);
    }
  }

  /** A character other than the separator in front of the text only
      lengthens the first field. */
  lemma SplitCons(x: char, s: string, c: char)
    requires x != c
    ensures Split([x] + s, c) == [[x] + Split(s, c)[0]] + Split(s, c)[1..]
  {
    var t := [x] + s;
    if c in s {
      var i := IndexOf(s, c);
      assert t[i + 1] == c;
      assert t[..i + 1] == [x] + s[..i];
      IndexOfUnique(t, c, i + 1);
      assert t[i + 2..] == s[i + 1..];
    }
  }

  /** The declarations after `"; "` are those of the text that follows it. */
  lemma PropsAfterSpace(b: string)
    ensures Declarations(Split(" " + b, ';')) == Props(b)
  {
    var fs := Split(b, ';');
    SplitCons(' ', b, ';');
    StripLeadingSpace(' ', fs[0]);
    assert [' '] + fs[0] == " " + fs[0];
    var gs := Split(" " + b, ';');
    assert gs == [" " + fs[0]] + fs[1..];
    assert gs[1..] == fs[1..];
  }

  /** Joining two CSS strings with `"; "` concatenates their declaration lists. */
  lemma PropsJoin(a: string, b: string)
    ensures Props(a + Separator + b) == Props(a) + Props(b)
  {
    assert a + Separator + b == a + [';'] + (" " + b);
    SplitAround(a, ';', " " + b);
    DeclarationsAppend(Split(a, ';'), Split(" " + b, ';'));
    PropsAfterSpace(b);
  }

  /** `add_css`: an empty side is the identity, otherwise the two strings are
      joined by `"; "`; either way the declarations of the result are those of
      `a` followed by those of `b`. */
  function AddCss(a: string, b: string): (r: string)
    ensures Props(r) == Props(a) + Props(b)
    ensures a == "" ==> r == b
    ensures b == "" ==> r == a
  {
    if a != "" && b != "" then
      PropsJoin(a, b);
      a + Separator + b
    else if a != "" then
      PropsEmpty();
      a
    else
      PropsEmpty();
      b
  }

  lemma PropsEmpty()
    ensures Props("") == []
  {
    assert Split("", ';') == [""];
    assert Strip("") == "";
    assert [""][1..] == [];
  }

  /** `add_css` is associative, so chains of `+` need no parentheses. */
  lemma AddCssAssociative(a: string, b: string, c: string)
    ensures AddCss(AddCss(a, b), c) == AddCss(a, AddCss(b, c))
  {
    if a != "" && b != "" && c != "" {
      assert (a + Separator + b) + Separator + c == a + Separator + (b + Separator + c);
    }
  }

  /** The property name of a declaration, as `re.match(r'^([^:]+):', p)`
      finds it: the stripped text before the first colon, provided that text
      is not empty. Colon-less (malformed) declarations have no name. */
  function PropName(p: string): Option<string>
  {
    if ':' in p && IndexOf(p, ':') > 0 then Some(Strip(p[..IndexOf(p, ':')])) else None
  }

  /** The property names declared by a CSS string. */
  function Names(css: string): set<string>
  {
    set q | q in Props(css) && PropName(q).Some? :: PropName(q).value
  }

  /** A declaration survives subtraction when it has no name or its name is
      not among `names`. */
  predicate Retained(p: string, names: set<string>)
  {
    PropName(p).None? || PropName(p).value !in names
  }

  /** The declarations of `ps` that survive subtraction of `names`, in order. */
  function Kept(ps: seq<string>, names: set<string>): (r: seq<string>)
    ensures |r| <= |ps|
  {
    if ps == [] then [] else KeepOne(ps[0], names) + Kept(ps[1..], names)
  }

  function KeepOne(p: string, names: set<string>): (r: seq<string>)
    ensures r == [] || r == [p]
  {
    if Retained(p, names) then [p] else []
  }

  lemma {:induction false} KeptAppend(a: seq<string>, b: seq<string>, names: set<string>)
    ensures Kept(a + b, names) == Kept(a, names) + Kept(b, names)
    decreases |a|
  {
    if a == [] {
      assert a + b == b;
    } else {
      assert (a + b)[0] == a[0];
      assert (a + b)[1..] == a[1..] + b;
      KeptAppend(a[1..], b, names);
    }
  }

  /** A declaration is kept exactly when it is one of `ps` and survives. */
  lemma {:induction false} KeptMembers(ps: seq<string>, names: set<string>, p: string)
    ensures p in Kept(ps, names) <==> p in ps && Retained(p, names)
    decreases |ps|
  {
    if ps != [] {
      KeptMembers(ps[1..], names, p);
      KeptStep(ps, names);
      InHeadOrTail(p, ps);
    }
  }

  lemma KeptStep(ps: seq<string>, names: set<string>)
    requires ps != []
    ensures Kept(ps, names) == KeepOne(ps[0], names) + Kept(ps[1..], names)
  {
  }

  lemma {:induction false} KeptIdempotent(ps: seq<string>, names: set<string>)
    ensures Kept(Kept(ps, names), names) == Kept(ps, names)
    decreases |ps|
  {
    if ps != [] {
      KeptIdempotent(ps[1..], names);
      var one := KeepOne(ps[0], names);
      KeptAppend(one, Kept(ps[1..], names), names);
      if one != [] {
        assert one[1..] == [];
      }
      assert Kept(one, names) == one;
    }
  }

  /** Reading back a list of clean declarations joined by `"; "` gives the list. */
  lemma {:induction false} PropsOfJoin(ps: seq<string>)
    requires forall k :: 0 <= k < |ps| ==> ps[k] != "" && Stripped(ps[k]) && ';' !in ps[k]
    ensures Props(JoinWith(ps, Separator)) == ps
    decreases |ps|
  {
    if |ps| == 0 {
      PropsEmpty();
    } else if |ps| == 1 {
      PropsOfOne(ps[0]);
      assert ps == [ps[0]];
    } else {
      PropsOfJoin(ps[1..]);
      PropsOfJoinStep(ps);
    }
  }

  lemma PropsOfJoinStep(ps: seq<string>)
    requires |ps| >= 2
    requires ps[0] != "" && Stripped(ps[0]) && ';' !in ps[0]
    requires Props(JoinWith(ps[1..], Separator)) == ps[1..]
    ensures Props(JoinWith(ps, Separator)) == ps
  {
    var rest := JoinWith(ps[1..], Separator);
    assert JoinWith(ps, Separator) == ps[0] + Separator + rest;
    PropsJoin(ps[0], rest);
    PropsOfOne(ps[0]);
    HeadThenTail(Props(JoinWith(ps, Separator)), Props(ps[0]), Props(rest), ps);
  }

  /** One clean declaration reads back as itself. */
  lemma PropsOfOne(p: string)
    requires p != "" && Stripped(p) && ';' !in p
    ensures Props(p) == [p]
  {
    StripOfStripped(p);
    assert Split(p, ';') == [p];
    assert Declarations([p]) == Piece(p) + Declarations([]);
  }

  /** `remove_css`: the declarations of `a`, in order, except those whose
      property name `b` declares; colon-less declarations always stay. The
      survivors are joined by `"; "`, so reading the result back gives
      exactly the survivors. */
  function RemoveCss(a: string, b: string): (r: string)
    ensures Props(r) == Kept(Props(a), Names(b))
  {
    var kept := Kept(Props(a), Names(b));
    PropsNoSeparator(a);
    KeptClean(Props(a), Names(b));
    PropsOfJoin(kept);
    JoinWith(kept, Separator)
  }

  /** Surviving declarations are still clean: non-empty, stripped, colon-free
      of `;`. */
  lemma KeptClean(ps: seq<string>, names: set<string>)
    requires forall k :: 0 <= k < |ps| ==> ps[k] != "" && Stripped(ps[k]) && ';' !in ps[k]
    ensures forall k :: 0 <= k < |Kept(ps, names)| ==>
      var q := Kept(ps, names)[k]; q != "" && Stripped(q) && ';' !in q
  {
    forall k | 0 <= k < |Kept(ps, names)|
      ensures var q := Kept(ps, names)[k]; q != "" && Stripped(q) && ';' !in q
    {
      KeptMembers(ps, names, Kept(ps, names)[k]);
    }
  }

  /** A declaration of `a` survives `remove_css(a, b)` exactly when it has no
      property name or `b` does not declare its name. */
  lemma RemoveCssMembers(a: string, b: string, p: string)
    ensures p in Props(RemoveCss(a, b)) <==> p in Props(a) && Retained(p, Names(b))
  {
    KeptMembers(Props(a), Names(b), p);
  }

  /** Subtracting the same declarations twice changes nothing more. */
  lemma RemoveCssIdempotent(a: string, b: string)
    ensures RemoveCss(RemoveCss(a, b), b) == RemoveCss(a, b)
  {
    KeptIdempotent(Props(a), Names(b));
  }

  /** Subtracting a string that declares nothing only normalises `a`. */
  lemma RemoveNothing(a: string, b: string)
    requires Names(b) == {}
    ensures Props(RemoveCss(a, b)) == Props(a)
  {
    KeptNothing(Props(a));
  }

  lemma {:induction false} KeptNothing(ps: seq<string>)
    ensures Kept(ps, {}) == ps
    decreases |ps|
  {
    if ps != [] {
      KeptNothing(ps[1..]);
      assert ps == [ps[0]] + ps[1..];
    }
  }
}
