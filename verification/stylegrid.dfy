/** `StyleGrid` of streamtex_package/src/streamtex/styles.py: a matrix of
    styles, combined cell by cell over the bounding rectangle, and created
    from spreadsheet-style cell lists such as `"A1:C3,B5"`. */
module StyleGrids {
  import opened Text
  import opened Results
  import opened Styles

  /** Rows of styles; rows may differ in length. */
  type Grid = seq<seq<Style>>

  function Max(a: int, b: int): int
  {
    if a >= b then a else b
  }

  /** The column count of `_get_dimensions` and of `st_table`: the length of
      the longest row, 0 for a grid without rows. */
  function Width<T>(g: seq<seq<T>>): (w: nat)
    ensures forall i :: 0 <= i < |g| ==> |g[i]| <= w
    ensures |g| == 0 ==> w == 0
    ensures |g| > 0 ==> exists i :: 0 <= i < |g| && |g[i]| == w
  {
    if |g| == 0 then 0
    else
      var rest := Width(g[1..]);
      if |g[0]| >= rest then |g[0]|
      else
        assert exists i :: 0 <= i < |g[1..]| && |g[1..][i]| == rest;
        rest
  }

  /** Every one of the `rows` rows has exactly `cols` cells. */
  predicate Rectangular(g: Grid, rows: nat, cols: nat)
  {
    |g| == rows && forall i :: 0 <= i < |g| ==> |g[i]| == cols
  }

  /** The style at row `i`, column `j`, if the grid has that cell. */
  function Lookup(g: Grid, i: int, j: int): Option<Style>
  {
    if 0 <= i < |g| && 0 <= j < |g[i]| then Some(g[i][j]) else None
  }

  /** The style at a position, `none` where the grid has no cell. */
  function CellAt(g: Grid, i: int, j: int): Style
  {
    Lookup(g, i, j).GetOr(NoneStyle)
  }

  /** A `rows` by `cols` grid of `none`. */
  function Blank(rows: nat, cols: nat): (g: Grid)
    ensures Rectangular(g, rows, cols)
    ensures forall i, j :: 0 <= i < rows && 0 <= j < cols ==> g[i][j] == NoneStyle
  {
    seq(rows, _ => seq(cols, _ => NoneStyle))
  }

  /** The cell operation `_combine_with` receives: `+` and `-` compose the
      styles, `*` overrides. */
  type CellOp = (Style, Style) -> Style

  /** The cell operation of `grid + other`. */
  function AddOp(theme: Theme): CellOp
  {
    (x, y) => Plus(x, Styled(y), theme)
  }

  /** The cell operation of `grid - other`. */
  function SubOp(theme: Theme): CellOp
  {
    (x, y) => Minus(x, Styled(y), theme)
  }

  /** The cell operation of `grid * other`: the right cell when it is truthy,
      the left one otherwise. */
  function MulOp(theme: Theme): CellOp
  {
    (x, y) => if Truthy(y, theme) then y else x
  }

  /** First phase of `_combine_with`: the cells of `a` written over `g`. */
  function Paste(g: Grid, a: Grid): (r: Grid)
    ensures |r| == |g| && forall i :: 0 <= i < |g| ==> |r[i]| == |g[i]|
    ensures forall i, j :: 0 <= i < |r| && 0 <= j < |r[i]| ==>
      r[i][j] == (if Lookup(a, i, j).Some? then a[i][j] else g[i][j])
  {
    seq(|g|, i requires 0 <= i < |g| =>
      seq(|g[i]|, j requires 0 <= j < |g[i]| => if Lookup(a, i, j).Some? then a[i][j] else g[i][j]))
  }

  /** Second phase of `_combine_with`: each cell of `b` combined into `g`. */
  function Merge(g: Grid, b: Grid, f: CellOp): (r: Grid)
    ensures |r| == |g| && forall i :: 0 <= i < |g| ==> |r[i]| == |g[i]|
    ensures forall i, j :: 0 <= i < |r| && 0 <= j < |r[i]| ==>
      r[i][j] == (if Lookup(b, i, j).Some? then f(g[i][j], b[i][j]) else g[i][j])
  {
    seq(|g|, i requires 0 <= i < |g| =>
      seq(|g[i]|, j requires 0 <= j < |g[i]| =>
        if Lookup(b, i, j).Some? then f(g[i][j], b[i][j]) else g[i][j]))
  }

  /** `_combine_with`: a rectangle as tall as the taller operand and as wide
      as the wider one; a cell of `b` is combined with `a`'s cell (or `none`
      where `a` has none), and every other cell is `a`'s cell or `none`. */
  function Combine(a: Grid, b: Grid, f: CellOp): (r: Grid)
    ensures Rectangular(r, Max(|a|, |b|), Max(Width(a), Width(b)))
    ensures forall i, j :: 0 <= i < |r| && 0 <= j < |r[i]| ==>
      r[i][j] == (if Lookup(b, i, j).Some? then f(CellAt(a, i, j), b[i][j]) else CellAt(a, i, j))
  {
    var rows, cols := Max(|a|, |b|), Max(Width(a), Width(b));
    Merge(Paste(Blank(rows, cols), a), b, f)
  }

  /** A rectangular grid overridden by itself is unchanged. */
  lemma MulIdempotent(g: Grid, theme: Theme)
    requires Rectangular(g, |g|, Width(g))
    ensures Combine(g, g, MulOp(theme)) == g
  {
    PasteOverBlank(g);
    MergeSelf(g, theme);
  }

  /** Combining a rectangular grid with the empty grid gives it back,
      whatever the operator. */
  lemma CombineEmpty(g: Grid, f: CellOp)
    requires Rectangular(g, |g|, Width(g))
    ensures Combine(g, [], f) == g
  {
    assert Width<Style>([]) == 0;
    PasteOverBlank(g);
    MergeEmpty(g, f);
  }

  /** A rectangular grid pasted over a blank grid of its own shape covers it. */
  lemma PasteOverBlank(g: Grid)
    requires Rectangular(g, |g|, Width(g))
    ensures Paste(Blank(|g|, Width(g)), g) == g
  {
    BlankFits(g);
    PasteCovers(Blank(|g|, Width(g)), g);
  }

  lemma BlankFits(g: Grid)
    requires Rectangular(g, |g|, Width(g))
    ensures |Blank(|g|, Width(g))| == |g|
    ensures forall i :: 0 <= i < |g| ==> |Blank(|g|, Width(g))[i]| == |g[i]|
  {
  }

  /** A grid pasted over one of the same shape covers it. */
  lemma PasteCovers(h: Grid, g: Grid)
    requires |h| == |g| && forall i :: 0 <= i < |g| ==> |h[i]| == |g[i]|
    ensures Paste(h, g) == g
  {
    var r := Paste(h, g);
    forall i, j | 0 <= i < |g| && 0 <= j < |g[i]|
      ensures r[i][j] == g[i][j]
    {
      assert Lookup(g, i, j).Some?;
    }
    SameCells(r, g);
  }

  /** Merging nothing changes nothing. */
  lemma MergeEmpty(g: Grid, f: CellOp)
    ensures Merge(g, [], f) == g
  {
    SameCells(Merge(g, [], f), g);
  }

  /** Overriding every cell by itself changes nothing. */
  lemma MergeSelf(g: Grid, theme: Theme)
    ensures Merge(g, g, MulOp(theme)) == g
  {
    SameCells(Merge(g, g, MulOp(theme)), g);
  }

  /** One cell of a combination inside the bounding rectangle. */
  lemma CombineCell(a: Grid, b: Grid, f: CellOp, i: nat, j: nat)
    requires i < Max(|a|, |b|) && j < Max(Width(a), Width(b))
    ensures Combine(a, b, f)[i][j]
         == (if Lookup(b, i, j).Some? then f(CellAt(a, i, j), b[i][j]) else CellAt(a, i, j))
  {
  }

  /** Two grids of the same shape with the same cells are equal. */
  lemma SameCells<T>(r: seq<seq<T>>, g: seq<seq<T>>)
    requires |r| == |g| && forall i :: 0 <= i < |g| ==> |r[i]| == |g[i]|
    requires forall i, j :: 0 <= i < |g| && 0 <= j < |g[i]| ==> r[i][j] == g[i][j]
    ensures r == g
  {
    forall i | 0 <= i < |g|
      ensures r[i] == g[i]
    {
    }
  }

  /** Overriding with a grid of falsy styles keeps every cell of the left
      operand, padded with `none`. */
  lemma MulFalsyKeepsLeft(a: Grid, b: Grid, theme: Theme, i: nat, j: nat)
    requires forall x, y :: 0 <= x < |b| && 0 <= y < |b[x]| ==> !Truthy(b[x][y], theme)
    requires i < Max(|a|, |b|) && j < Max(Width(a), Width(b))
    ensures Combine(a, b, MulOp(theme))[i][j] == CellAt(a, i, j)
  {
  }

  // ---------------------------------------------------------------------
  // Cell references

  predicate AllUpper(s: string)
  {
    forall i :: 0 <= i < |s| ==> IsAsciiUpper(s[i])
  }

  /** The bijective base-26 value of upper-case letters: A = 1 .. Z = 26. */
  function LettersValue(s: string): nat
    requires AllUpper(s)
  {
    if s == [] then 0
    else LettersValue(s[..|s| - 1]) * 26 + (s[|s| - 1] as int - 'A' as int + 1)
  }

  lemma UpperIsUpper(s: string)
    requires AllAsciiLetters(s)
    ensures AllUpper(UpperAscii(s))
  {
  }

  lemma UpperOfUpper(s: string)
    requires AllUpper(s)
    ensures UpperAscii(s) == s
  {
  }

  /** `_column_letter_to_index`: letters of either case, read as a
      bijective base-26 number, minus one (A is 0, Z is 25, AA is 26). */
  function ColumnIndex(letters: string): (r: int)
    requires |letters| >= 1 && AllAsciiLetters(letters)
    ensures r >= 0
  {
    UpperIsUpper(letters);
    LettersValue(UpperAscii(letters)) - 1
  }

  /** The upper-case letter for a digit 0..25 of base 26. */
  function Letter(d: nat): (c: char)
    requires d < 26
    ensures IsAsciiUpper(c)
  {
    ('A' as int + d) as char
  }

  /** The column letters of a zero-based column index: the inverse of
      `ColumnIndex`. */
  function ColumnLetters(n: nat): (r: string)
    ensures |r| >= 1 && AllUpper(r)
    decreases n
  {
    if n < 26 then [Letter(n)] else ColumnLetters(n / 26 - 1) + [Letter(n % 26)]
  }

  lemma {:induction false} LettersValueOfColumn(n: nat)
    ensures LettersValue(ColumnLetters(n)) == n + 1
    decreases n
  {
    var r := ColumnLetters(n);
    if n >= 26 {
      LettersValueOfColumn(n / 26 - 1);
      assert r[..|r| - 1] == ColumnLetters(n / 26 - 1);
    }
  }

  /** Letters of a column index read back as that index. */
  lemma ColumnRoundTrip(n: nat)
    ensures ColumnIndex(ColumnLetters(n)) == n
  {
    UpperOfUpper(ColumnLetters(n));
    LettersValueOfColumn(n);
  }

  lemma {:induction false} LettersValuePositive(s: string)
    requires |s| >= 1 && AllUpper(s)
    ensures LettersValue(s) >= 1
  {
  }

  /** Upper-case column letters are the letters of their index. */
  lemma ColumnLettersOfIndex(s: string)
    requires |s| >= 1 && AllUpper(s)
    ensures ColumnLetters(ColumnIndex(s)) == s
  {
    ColumnIndexOfUpper(s);
    LettersOfValue(s);
  }

  lemma {:induction false} LettersOfValue(s: string)
    requires |s| >= 1 && AllUpper(s)
    ensures ColumnLetters(LettersValue(s) - 1) == s
    decreases |s|
  {
    var p, d := s[..|s| - 1], s[|s| - 1] as int - 'A' as int;
    LettersValueStep(s);
    if |s| == 1 {
      assert p == [];
      assert Letter(d) == s[0];
    } else {
      LettersValuePositive(p);
      LettersOfValue(p);
      InitThenLast(s);
      LettersClose(s, p, LettersValue(p), d, LettersValue(s) - 1);
    }
  }

  /** The last letter is the lowest base-26 digit. */
  lemma LettersValueStep(s: string)
    requires |s| >= 1 && AllUpper(s)
    ensures 0 <= s[|s| - 1] as int - 'A' as int < 26
    ensures LettersValue(s) == LettersValue(s[..|s| - 1]) * 26 + (s[|s| - 1] as int - 'A' as int + 1)
    ensures Letter(s[|s| - 1] as int - 'A' as int) == s[|s| - 1]
  {
  }

  lemma LettersClose(s: string, p: string, v: nat, d: nat, n: nat)
    requires v >= 1 && d < 26 && n == v * 26 + d
    requires ColumnLetters(v - 1) == p && s == p + [Letter(d)]
    ensures ColumnLetters(n) == s
  {
    ColumnLettersStep(v, d);
  }

  /** The letters of a value of two or more digits are the letters of its
      leading digits and then its last digit. */
  lemma ColumnLettersStep(v: nat, d: nat)
    requires v >= 1 && d < 26
    ensures ColumnLetters(v * 26 + d) == ColumnLetters(v - 1) + [Letter(d)]
  {
    DivModOfBase(v, d);
  }

  lemma DivModOfBase(v: nat, d: nat)
    requires v >= 1 && d < 26
    ensures (v * 26 + d) / 26 == v && (v * 26 + d) % 26 == d
  {
  }

  /** Column letters are case-insensitive. */
  lemma ColumnIndexIgnoresCase(s: string)
    requires |s| >= 1 && AllAsciiLetters(s)
    ensures AllAsciiLetters(LowerAscii(s)) && ColumnIndex(LowerAscii(s)) == ColumnIndex(s)
  {
    LowerKeepsLetters(s);
    UpperOfLower(s);
  }

  lemma LowerKeepsLetters(s: string)
    requires AllAsciiLetters(s)
    ensures AllAsciiLetters(LowerAscii(s))
  {
  }

  lemma {:induction false} UpperOfLower(s: string)
    ensures UpperAscii(LowerAscii(s)) == UpperAscii(s)
    decreases |s|
  {
    if s != [] {
      UpperOfLower(s[1..]);
      assert LowerAscii(s) == [LowerChar(s[0])] + LowerAscii(s[1..]);
      assert LowerAscii(s)[1..] == LowerAscii(s[1..]);
    }
  }

  lemma ColumnIndexOfUpper(s: string)
    requires |s| >= 1 && AllUpper(s)
    ensures ColumnIndex(s) == LettersValue(s) - 1
  {
    UpperOfUpper(s);
  }

  /** A zero-based (row, column) position, as `_cell_to_indices` returns it. */
  datatype CellRef = CellRef(row: int, col: nat)

  /** The `ValueError`s of cell-list parsing. */
  datatype GridError =
    | InvalidCellReference(cell: string)
    | RangeArity(token: string)

  /** The number of leading ASCII letters. */
  function LeadingLetters(s: string): (k: nat)
    ensures k <= |s| && AllAsciiLetters(s[..k])
    ensures k < |s| ==> !IsAsciiLetter(s[k])
  {
    if s != [] && IsAsciiLetter(s[0]) then
      var k := 1 + LeadingLetters(s[1..]);
      assert s[..k] == [s[0]] + s[1..][..k - 1];
      k
    else 0
  }

  /** The text `$` lets the pattern match: the cell without one final
      newline. */
  function CellBody(cell: string): (b: string)
    ensures b == cell || b + "\n" == cell
  {
    if |cell| > 0 && cell[|cell| - 1] == '\n' then cell[..|cell| - 1] else cell
  }

  /** `^([A-Za-z]+)([0-9]+)` over the whole text: its letters and digits
      when it has that shape. */
  function MatchCell(body: string): (r: Option<(string, string)>)
    ensures r.Some? ==>
      && |r.value.0| >= 1 && AllAsciiLetters(r.value.0) && |r.value.1| >= 1 && AllDigits(r.value.1)
  {
    var k := LeadingLetters(body);
    if k >= 1 && |body[k..]| >= 1 && AllDigits(body[k..]) then Some((body[..k], body[k..]))
    else None
  }

  /** A match splits the text into its letters and its digits. */
  lemma MatchSplits(body: string)
    requires MatchCell(body).Some?
    ensures body == MatchCell(body).value.0 + MatchCell(body).value.1
  {
    var k := LeadingLetters(body);
    assert body == body[..k] + body[k..];
  }

  /** `_cell_to_indices`: the cell must be letters followed by digits
      (`^([A-Za-z]+)([0-9]+)$`, where `$` also accepts one final newline);
      the row is the number minus one, so a row number of 0 gives -1. */
  function CellToIndices(cell: string): (r: Result<CellRef, GridError>)
    ensures r.Success? ==> r.value.row >= -1
    ensures cell == "" ==> r.Failure?
    ensures r.Failure? ==> r.error == InvalidCellReference(cell)
  {
    match MatchCell(CellBody(cell))
    case None => Failure(InvalidCellReference(cell))
    case Some((l, d)) => Success(CellRef(ParseDigits(d) - 1, ColumnIndex(l)))
  }

  /** Only letters then digits parse, optionally with a final newline: the
      row is the number minus one and the column comes from the letters. */
  lemma PartsOfCell(cell: string)
    ensures CellToIndices(cell).Success? ==>
      exists l, d :: CellParts(cell, l, d) && CellToIndices(cell).value == CellRef(ParseDigits(d) - 1, ColumnIndex(l))
  {
    var m := MatchCell(CellBody(cell));
    if m.Some? {
      MatchSplits(CellBody(cell));
      assert CellParts(cell, m.value.0, m.value.1);
    }
  }

  /** `cell` is the letters `l` and the digits `d`, optionally followed by
      the one newline `$` accepts. */
  predicate CellParts(cell: string, l: string, d: string)
  {
    && |l| >= 1 && AllAsciiLetters(l) && |d| >= 1 && AllDigits(d)
    && (cell == l + d || cell == l + d + "\n")
  }

  /** Every string of letters then digits parses, with or without a final
      newline: the row is the number minus one and the column comes from the
      letters. With the contract's converse, a cell parses exactly when it
      has this shape. */
  lemma CellOfParts(l: string, d: string)
    requires |l| >= 1 && AllAsciiLetters(l) && |d| >= 1 && AllDigits(d)
    ensures CellToIndices(l + d) == Success(CellRef(ParseDigits(d) - 1, ColumnIndex(l)))
    ensures CellToIndices(l + d + "\n") == Success(CellRef(ParseDigits(d) - 1, ColumnIndex(l)))
  {
    PartsSplit(l, d);
    NewlineDropped(l + d);
  }

  /** Without a final newline, letters then digits split where the digits
      start. */
  lemma PartsSplit(l: string, d: string)
    requires |l| >= 1 && AllAsciiLetters(l) && |d| >= 1 && AllDigits(d)
    ensures CellToIndices(l + d) == Success(CellRef(ParseDigits(d) - 1, ColumnIndex(l)))
    ensures (l + d)[|l + d| - 1] != '\n'
  {
    PartsShape(l, d);
    MatchParts(l, d);
    ToIndicesOfMatch(l + d, l, d);
  }

  lemma ToIndicesOfMatch(cell: string, l: string, d: string)
    requires MatchCell(CellBody(cell)) == Some((l, d))
    ensures AllDigits(d) && |l| >= 1 && AllAsciiLetters(l)
    ensures CellToIndices(cell) == Success(CellRef(ParseDigits(d) - 1, ColumnIndex(l)))
  {
  }

  lemma MatchParts(l: string, d: string)
    requires |l| >= 1 && AllAsciiLetters(l) && |d| >= 1 && AllDigits(d)
    ensures MatchCell(l + d) == Some((l, d))
  {
    var s := l + d;
    assert IsDigit(d[0]);
    LeadingLettersSplit(l, d);
    assert s[..|l|] == l && s[|l|..] == d;
  }

  /** Letters then digits: a letter first, a digit last, letters and digits
      throughout, and hence no final newline. */
  lemma PartsShape(l: string, d: string)
    requires |l| >= 1 && AllAsciiLetters(l) && |d| >= 1 && AllDigits(d)
    ensures var s := l + d;
      && |s| >= 2 && IsAsciiLetter(s[0]) && IsDigit(s[|s| - 1])
      && (forall i :: 0 <= i < |s| ==> IsAsciiLetter(s[i]) || IsDigit(s[i]))
      && CellBody(s) == s
  {
    var s := l + d;
    assert s[0] == l[0];
    assert s[|s| - 1] == d[|d| - 1];
    forall i | 0 <= i < |s| ensures IsAsciiLetter(s[i]) || IsDigit(s[i]) {
      if i >= |l| {
        assert s[i] == d[i - |l|];
      }
    }
  }

  /** A final newline is dropped before matching, so it changes no result
      that succeeds. */
  lemma NewlineDropped(s: string)
    requires |s| >= 1 && s[|s| - 1] != '\n' && CellToIndices(s).Success?
    ensures CellToIndices(s + "\n") == CellToIndices(s)
  {
    BodyOfNewline(s);
    SameBody(s, s + "\n");
  }

  lemma BodyOfNewline(s: string)
    requires |s| >= 1 && s[|s| - 1] != '\n'
    ensures CellBody(s + "\n") == CellBody(s)
  {
    var t := s + "\n";
    assert t[|t| - 1] == '\n';
    assert t[..|t| - 1] == s;
  }

  /** Only the text the pattern sees decides a successful parse. */
  lemma SameBody(a: string, b: string)
    requires CellBody(a) == CellBody(b) && CellToIndices(a).Success?
    ensures CellToIndices(b) == CellToIndices(a)
  {
  }

  /** What a cell that parses looks like: a letter first, a digit or the
      newline last, and only letters and digits before the last character. */
  lemma ParsedShape(cell: string)
    requires CellToIndices(cell).Success?
    ensures |cell| >= 2 && IsAsciiLetter(cell[0])
    ensures IsDigit(cell[|cell| - 1]) || cell[|cell| - 1] == '\n'
    ensures forall i :: 0 <= i < |cell| - 1 ==> IsAsciiLetter(cell[i]) || IsDigit(cell[i])
  {
    var body := CellBody(cell);
    var m := MatchCell(body);
    assert m.Some?;
    MatchSplits(body);
    PartsShape(m.value.0, m.value.1);
    if cell != body {
      NewlineShape(body, cell);
    }
  }

  lemma NewlineShape(body: string, cell: string)
    requires cell == body + "\n" && |body| >= 2
    requires forall i :: 0 <= i < |body| ==> IsAsciiLetter(body[i]) || IsDigit(body[i])
    ensures cell[0] == body[0] && cell[|cell| - 1] == '\n'
    ensures forall i :: 0 <= i < |cell| - 1 ==> IsAsciiLetter(cell[i]) || IsDigit(cell[i])
  {
    assert forall i :: 0 <= i < |body| ==> cell[i] == body[i];
  }

  /** The canonical name of a position, such as `B3` for row 2, column 1. */
  function CellName(row: nat, col: nat): string
  {
    ColumnLetters(col) + NatToString(row + 1)
  }

  /** Every position's name parses back to the position. */
  lemma CellNameRoundTrip(row: nat, col: nat)
    ensures CellToIndices(CellName(row, col)) == Success(CellRef(row, col))
  {
    var l, d := ColumnLetters(col), NatToString(row + 1);
    PartsSplit(l, d);
    ColumnRoundTrip(col);
  }

  /** Letters followed by text that starts with a digit: exactly the letters lead. */
  lemma {:induction false} LeadingLettersSplit(l: string, d: string)
    requires AllAsciiLetters(l) && |d| >= 1 && IsDigit(d[0])
    ensures LeadingLetters(l + d) == |l|
    decreases |l|
  {
    if l == [] {
      assert l + d == d;
      assert !IsAsciiLetter(d[0]);
    } else {
      LeadingLettersSplit(l[1..], d);
      TailOfAppend(l, d);
      assert IsAsciiLetter(l[0]);
    }
  }

  // ---------------------------------------------------------------------
  // Cell lists

  function Min(a: int, b: int): int
  {
    if a <= b then a else b
  }

  /** `x` comes strictly before `y` in row-major order. */
  predicate Before(x: CellRef, y: CellRef)
  {
    x.row < y.row || (x.row == y.row && x.col < y.col)
  }

  /** Strictly increasing in row-major order, hence without repeats. */
  predicate RowMajor(cs: seq<CellRef>)
  {
    forall i, j :: 0 <= i < j < |cs| ==> Before(cs[i], cs[j])
  }

  /** The cells of one row from column `c0` to column `c1`, left to right. */
  function ExpandRow(row: int, c0: nat, c1: nat): seq<CellRef>
    decreases c1 - c0 + 1
  {
    if c0 > c1 then [] else [CellRef(row, c0)] + ExpandRow(row, c0 + 1, c1)
  }

  /** The inner loops of `_parse_cells` for a range: rows `r0..r1`, and in
      each row columns `c0..c1`. */
  function Expand(r0: int, r1: int, c0: nat, c1: nat): seq<CellRef>
    decreases r1 - r0 + 1
  {
    if r0 > r1 then [] else ExpandRow(r0, c0, c1) + Expand(r0 + 1, r1, c0, c1)
  }

  lemma {:induction false} ExpandRowMembers(row: int, c0: nat, c1: nat, x: CellRef)
    ensures x in ExpandRow(row, c0, c1) <==> x.row == row && c0 <= x.col <= c1
    decreases c1 - c0 + 1
  {
    if c0 <= c1 {
      ExpandRowMembers(row, c0 + 1, c1, x);
    }
  }

  /** A range holds exactly the cells of its rectangle. */
  lemma {:induction false} ExpandMembers(r0: int, r1: int, c0: nat, c1: nat, x: CellRef)
    ensures x in Expand(r0, r1, c0, c1) <==> r0 <= x.row <= r1 && c0 <= x.col <= c1
    decreases r1 - r0 + 1
  {
    if r0 <= r1 {
      ExpandRowMembers(r0, c0, c1, x);
      ExpandMembers(r0 + 1, r1, c0, c1, x);
    }
  }

  lemma {:induction false} ExpandRowOrdered(row: int, c0: nat, c1: nat)
    ensures RowMajor(ExpandRow(row, c0, c1))
    decreases c1 - c0 + 1
  {
    if c0 <= c1 {
      var tail := ExpandRow(row, c0 + 1, c1);
      ExpandRowOrdered(row, c0 + 1, c1);
      forall j | 0 <= j < |tail|
        ensures Before(CellRef(row, c0), tail[j])
      {
        ExpandRowMembers(row, c0 + 1, c1, tail[j]);
        assert tail[j] in tail;
      }
      ConcatRowMajor([CellRef(row, c0)], tail);
    }
  }

  /** A range is enumerated in strictly increasing row-major order. */
  lemma {:induction false} ExpandOrdered(r0: int, r1: int, c0: nat, c1: nat)
    ensures RowMajor(Expand(r0, r1, c0, c1))
    decreases r1 - r0 + 1
  {
    if r0 <= r1 {
      var head, tail := ExpandRow(r0, c0, c1), Expand(r0 + 1, r1, c0, c1);
      ExpandRowOrdered(r0, c0, c1);
      ExpandOrdered(r0 + 1, r1, c0, c1);
      forall i, j | 0 <= i < |head| && 0 <= j < |tail|
        ensures Before(head[i], tail[j])
      {
        assert head[i] in head && tail[j] in tail;
        ExpandRowMembers(r0, c0, c1, head[i]);
        ExpandMembers(r0 + 1, r1, c0, c1, tail[j]);
      }
      ConcatRowMajor(head, tail);
    }
  }

  lemma ConcatRowMajor(a: seq<CellRef>, b: seq<CellRef>)
    requires RowMajor(a) && RowMajor(b)
    requires forall i, j :: 0 <= i < |a| && 0 <= j < |b| ==> Before(a[i], b[j])
    ensures RowMajor(a + b)
  {
    forall i, j | 0 <= i < j < |a + b|
      ensures Before((a + b)[i], (a + b)[j])
    {
      if j < |a| {
      } else if i >= |a| {
        assert (a + b)[i] == b[i - |a|] && (a + b)[j] == b[j - |a|];
      } else {
        assert (a + b)[j] == b[j - |a|];
      }
    }
  }

  lemma {:induction false} ExpandRowLength(row: int, c0: nat, c1: nat)
    requires c0 <= c1 + 1
    ensures |ExpandRow(row, c0, c1)| == c1 - c0 + 1
    decreases c1 - c0 + 1
  {
    if c0 <= c1 {
      ExpandRowLength(row, c0 + 1, c1);
    }
  }

  /** A range covers (rows spanned) times (columns spanned) cells. */
  lemma {:induction false} ExpandLength(r0: int, r1: int, c0: nat, c1: nat)
    requires r0 <= r1 + 1 && c0 <= c1 + 1
    ensures |Expand(r0, r1, c0, c1)| == (r1 - r0 + 1) * (c1 - c0 + 1)
    decreases r1 - r0 + 1
  {
    if r0 <= r1 {
      ExpandRowLength(r0, c0, c1);
      ExpandLength(r0 + 1, r1, c0, c1);
      Distribute(r1 - r0, c1 - c0 + 1);
    }
  }

  lemma Distribute(a: int, w: int)
    ensures a * w + w == (a + 1) * w
  {
  }

  /** One comma-separated token of `_parse_cells`, after stripping: a range
      `X:Y` (exactly one colon, otherwise the tuple unpacking fails), each end
      stripped and parsed, the corners normalised to min/max per axis; or a
      single cell. */
  function ParseToken(token: string): (r: Result<seq<CellRef>, GridError>)
  {
    var t := Strip(token);
    if ':' in t then ParseRangeFields(t, Split(t, ':'))
    else
      var c :- CellToIndices(t);
      Success([c])
  }

  /** A range token split at its colons. */
  function ParseRangeFields(t: string, parts: seq<string>): (r: Result<seq<CellRef>, GridError>)
  {
    if |parts| != 2 then Failure(RangeArity(t))
    else
      var s :- CellToIndices(Strip(parts[0]));
      var e :- CellToIndices(Strip(parts[1]));
      Success(Rect(s, e))
  }

  /** The cells of the rectangle with corners `s` and `e`, whichever corners
      they are. */
  function Rect(s: CellRef, e: CellRef): seq<CellRef>
  {
    Expand(Min(s.row, e.row), Max(s.row, e.row), Min(s.col, e.col), Max(s.col, e.col))
  }

  /** Two parse results in sequence: the first error, or both cell lists. */
  function Then(x: Result<seq<CellRef>, GridError>, y: Result<seq<CellRef>, GridError>)
    : (r: Result<seq<CellRef>, GridError>)
    ensures r.Success? <==> x.Success? && y.Success?
    ensures r.Success? ==> r.value == x.value + y.value
    ensures x.Failure? ==> r == x
  {
    if x.Failure? then x else if y.Failure? then y else Success(x.value + y.value)
  }

  lemma ThenAssociative(x: Result<seq<CellRef>, GridError>, y: Result<seq<CellRef>, GridError>,
                        z: Result<seq<CellRef>, GridError>)
    ensures Then(Then(x, y), z) == Then(x, Then(y, z))
  {
    if x.Success? && y.Success? && z.Success? {
      assert (x.value + y.value) + z.value == x.value + (y.value + z.value);
    }
  }

  /** The tokens in order, stopping at the first error. */
  function ParseTokens(tokens: seq<string>): (r: Result<seq<CellRef>, GridError>)
  {
    ParseEach(ParseToken, tokens)
  }

  /** `parse` applied to each token in order: the first error, or all the
      cell lists joined. */
  function ParseEach(parse: string -> Result<seq<CellRef>, GridError>, tokens: seq<string>)
    : (r: Result<seq<CellRef>, GridError>)
  {
    if tokens == [] then Success([]) else Then(parse(tokens[0]), ParseEach(parse, tokens[1..]))
  }

  /** `_parse_cells`: the cells named by a comma-separated list of cells and
      ranges, in the order written. */
  function ParseCells(cells: string): (r: Result<seq<CellRef>, GridError>)
    ensures r.Success? ==> forall k :: 0 <= k < |r.value| ==> r.value[k].row >= -1
  {
    ParseTokensRows(Split(cells, ','));
    ParseTokens(Split(cells, ','))
  }

  lemma ParseTokensRows(tokens: seq<string>)
    ensures var r := ParseTokens(tokens);
      r.Success? ==> forall k :: 0 <= k < |r.value| ==> r.value[k].row >= -1
  {
    forall t | t in tokens
      ensures var r := ParseToken(t);
        r.Success? ==> forall k :: 0 <= k < |r.value| ==> r.value[k].row >= -1
    {
      ParseTokenRows(t);
    }
    ParseEachRows(ParseToken, tokens);
  }

  lemma {:induction false} ParseEachRows(parse: string -> Result<seq<CellRef>, GridError>, tokens: seq<string>)
    requires forall t :: t in tokens ==> var r := parse(t);
      r.Success? ==> forall k :: 0 <= k < |r.value| ==> r.value[k].row >= -1
    ensures var r := ParseEach(parse, tokens);
      r.Success? ==> forall k :: 0 <= k < |r.value| ==> r.value[k].row >= -1
    decreases |tokens|
  {
    if tokens != [] {
      assert tokens[0] in tokens;
      assert forall t :: t in tokens[1..] ==> t in tokens;
      ParseEachRows(parse, tokens[1..]);
    }
  }

  lemma ParseTokenRows(token: string)
    ensures var r := ParseToken(token);
      r.Success? ==> forall k :: 0 <= k < |r.value| ==> r.value[k].row >= -1
  {
    var t := Strip(token);
    if ':' in t {
      RangeFieldsRows(t, Split(t, ':'));
    }
  }

  lemma RangeFieldsRows(t: string, parts: seq<string>)
    ensures var r := ParseRangeFields(t, parts);
      r.Success? ==> forall k :: 0 <= k < |r.value| ==> r.value[k].row >= -1
  {
    if ParseRangeFields(t, parts).Success? {
      RectRows(CellToIndices(Strip(parts[0])).value, CellToIndices(Strip(parts[1])).value);
    }
  }

  lemma RectRows(s: CellRef, e: CellRef)
    requires s.row >= -1 && e.row >= -1
    ensures forall k :: 0 <= k < |Rect(s, e)| ==> Rect(s, e)[k].row >= -1
  {
    var cells := Rect(s, e);
    forall k | 0 <= k < |cells|
      ensures cells[k].row >= -1
    {
      assert cells[k] in cells;
      ExpandMembers(Min(s.row, e.row), Max(s.row, e.row), Min(s.col, e.col), Max(s.col, e.col), cells[k]);
    }
  }

  /** A cell name is already stripped and has no comma or colon. */
  lemma CellNameClean(row: nat, col: nat)
    ensures Stripped(CellName(row, col))
    ensures ',' !in CellName(row, col) && ':' !in CellName(row, col)
  {
    var l, d := ColumnLetters(col), NatToString(row + 1);
    var s := l + d;
    assert s[0] == l[0] && s[|s| - 1] == d[|d| - 1];
    assert forall k :: 0 <= k < |s| ==> IsAsciiUpper(s[k]) || IsDigit(s[k]);
  }

  /** Text without a comma is a single token. */
  lemma ParseOneToken(s: string)
    requires ',' !in s
    ensures ParseCells(s) == ParseToken(s)
  {
    assert Split(s, ',') == [s];
    ParseEachOne(ParseToken, s);
  }

  lemma ParseEachOne(parse: string -> Result<seq<CellRef>, GridError>, t: string)
    ensures ParseEach(parse, [t]) == parse(t)
  {
    assert [t][1..] == [];
    var r := parse(t);
    if r.Success? {
      assert r.value + [] == r.value;
    }
  }

  /** A single cell name parses to its position. */
  lemma ParseCellName(row: nat, col: nat)
    ensures ParseCells(CellName(row, col)) == Success([CellRef(row, col)])
  {
    var s := CellName(row, col);
    CellNameClean(row, col);
    ParseOneToken(s);
    StripOfStripped(s);
    CellNameRoundTrip(row, col);
  }

  /** A range of two cell names covers the rectangle between them, whichever
      corners are named. */
  lemma ParseRange(r0: nat, c0: nat, r1: nat, c1: nat)
    ensures ParseCells(CellName(r0, c0) + ":" + CellName(r1, c1))
         == Success(Expand(Min(r0, r1), Max(r0, r1), Min(c0, c1), Max(c0, c1)))
  {
    var x, y := CellName(r0, c0), CellName(r1, c1);
    var s := x + ":" + y;
    CellNameClean(r0, c0);
    CellNameClean(r1, c1);
    assert s == x + [':'] + y;
    assert ',' !in s;
    ParseOneToken(s);
    RangeText(x, y, r0, c0, r1, c1);
    RangeOfNames(s, x, y, r0, c0, r1, c1);
  }

  lemma RangeText(x: string, y: string, r0: nat, c0: nat, r1: nat, c1: nat)
    requires x == CellName(r0, c0) && y == CellName(r1, c1)
    ensures var s := x + ":" + y; ':' in s && Strip(s) == s && Split(s, ':') == [x, y]
  {
    var s := x + ":" + y;
    CellNameClean(r0, c0);
    CellNameClean(r1, c1);
    ColonJoinStripped(x, y);
    StripOfStripped(s);
    assert s == x + [':'] + y;
    SplitAroundFirst(x, ':', y);
    assert Split(x, ':') == [x] && Split(y, ':') == [y];
  }

  /** Two stripped texts around a colon make a stripped text with a colon. */
  lemma ColonJoinStripped(x: string, y: string)
    requires Stripped(x) && Stripped(y)
    ensures Stripped(x + ":" + y) && ':' in x + ":" + y
  {
    var s := x + ":" + y;
    assert s[|x|] == ':';
    assert s[0] == (if x == "" then ':' else x[0]);
    assert s[|s| - 1] == (if y == "" then ':' else y[|y| - 1]);
  }

  lemma RangeOfNames(s: string, x: string, y: string, r0: nat, c0: nat, r1: nat, c1: nat)
    requires x == CellName(r0, c0) && y == CellName(r1, c1)
    requires ':' in s && Strip(s) == s && Split(s, ':') == [x, y]
    ensures ParseToken(s) == Success(Expand(Min(r0, r1), Max(r0, r1), Min(c0, c1), Max(c0, c1)))
  {
    CellNameClean(r0, c0);
    CellNameClean(r1, c1);
    StripOfStripped(x);
    StripOfStripped(y);
    CellNameRoundTrip(r0, c0);
    CellNameRoundTrip(r1, c1);
  }

  /** A comma joins two cell lists: the cells of both, left ones first, or
      the first error. */
  lemma ParseComma(x: string, y: string)
    ensures ParseCells(x + "," + y) == Then(ParseCells(x), ParseCells(y))
  {
    assert x + "," + y == x + [','] + y;
    SplitAround(x, ',', y);
    ParseTokensAppend(Split(x, ','), Split(y, ','));
  }

  lemma {:induction false} ParseTokensAppend(a: seq<string>, b: seq<string>)
    ensures ParseTokens(a + b) == Then(ParseTokens(a), ParseTokens(b))
  {
    ParseEachAppend(ParseToken, a, b);
  }

  lemma {:induction false} ParseEachAppend(parse: string -> Result<seq<CellRef>, GridError>,
                                            a: seq<string>, b: seq<string>)
    ensures ParseEach(parse, a + b) == Then(ParseEach(parse, a), ParseEach(parse, b))
    decreases |a|
  {
    if a == [] {
      assert a + b == b;
      var y := ParseEach(parse, b);
      if y.Success? {
        assert [] + y.value == y.value;
      }
    } else {
      assert (a + b)[1..] == a[1..] + b;
      assert (a + b)[0] == a[0];
      ParseEachAppend(parse, a[1..], b);
      ThenAssociative(parse(a[0]), ParseEach(parse, a[1..]), ParseEach(parse, b));
    }
  }

  // ---------------------------------------------------------------------
  // create

  /** No listed cell has row number 0 (which Python would turn into the
      index -1 and wrap to the last row). */
  predicate RowsValid(cs: seq<CellRef>)
  {
    forall k :: 0 <= k < |cs| ==> cs[k].row >= 0
  }

  /** `max(rows, default=0)`. */
  function MaxRow(cs: seq<CellRef>): (m: int)
    ensures forall k :: 0 <= k < |cs| ==> cs[k].row <= m
    ensures cs == [] ==> m == 0
    ensures RowsValid(cs) ==> m >= 0
  {
    if cs == [] then 0
    else if |cs| == 1 then cs[0].row
    else Max(cs[0].row, MaxRow(cs[1..]))
  }

  /** `max(cols, default=0)`. */
  function MaxCol(cs: seq<CellRef>): (m: nat)
    ensures forall k :: 0 <= k < |cs| ==> cs[k].col <= m
  {
    if cs == [] then 0 else Max(cs[0].col, MaxCol(cs[1..]))
  }

  /** The grid height `create` picks: at least the requested rows and one
      past the lowest listed cell. */
  function GridRows(cs: seq<CellRef>, numRows: Option<int>): nat
    requires RowsValid(cs)
  {
    Max(numRows.GetOr(0), MaxRow(cs) + 1)
  }

  /** The grid width `create` picks. */
  function GridCols(cs: seq<CellRef>, numCols: Option<int>): nat
  {
    Max(numCols.GetOr(0), MaxCol(cs) + 1)
  }

  /** One assignment `grid[row][col] = style`, skipped outside the grid. */
  function Place(g: Grid, c: CellRef, style: Style): (r: Grid)
    ensures |r| == |g| && forall i :: 0 <= i < |g| ==> |r[i]| == |g[i]|
    ensures forall i, j :: 0 <= i < |r| && 0 <= j < |r[i]| ==>
      r[i][j] == (if i == c.row && j == c.col then style else g[i][j])
  {
    if 0 <= c.row < |g| && c.col < |g[c.row]| then g[c.row := g[c.row][c.col := style]] else g
  }

  /** The filling loop of `create`: every listed cell set to `style`. */
  function Paint(g: Grid, cs: seq<CellRef>, style: Style): (r: Grid)
    decreases |cs|
    ensures |r| == |g| && forall i :: 0 <= i < |g| ==> |r[i]| == |g[i]|
    ensures forall i, j :: 0 <= i < |r| && 0 <= j < |r[i]| ==>
      r[i][j] == (if CellRef(i, j) in cs then style else g[i][j])
  {
    if cs == [] then g
    else
      assert forall x :: x in cs <==> x == cs[0] || x in cs[1..] by {
        assert cs == [cs[0]] + cs[1..];
      }
      Paint(Place(g, cs[0], style), cs[1..], style)
  }

  /** `StyleGrid.create`: a grid as large as the requested size and the
      listed cells need, whose cells hold `style` exactly where listed and
      `none` everywhere else. Parse errors are passed on. */
  function Create(cells: string, style: Style, numRows: Option<int>, numCols: Option<int>)
    : (r: Result<Grid, GridError>)
    requires ParseCells(cells).Success? ==> RowsValid(ParseCells(cells).value)
    ensures r.Success? <==> ParseCells(cells).Success?
    ensures r.Failure? ==> r.error == ParseCells(cells).error
    ensures r.Success? ==>
      var cs := ParseCells(cells).value;
      && Rectangular(r.value, GridRows(cs, numRows), GridCols(cs, numCols))
      && (forall i, j :: 0 <= i < |r.value| && 0 <= j < |r.value[i]| ==>
            r.value[i][j] == (if CellRef(i, j) in cs then style else NoneStyle))
      && (forall k :: 0 <= k < |cs| ==> Lookup(r.value, cs[k].row, cs[k].col) == Some(style))
  {
    var cs :- ParseCells(cells);
    var rows, cols := GridRows(cs, numRows), GridCols(cs, numCols);
    GridFits(cs, numRows, numCols);
    PaintedBlank(rows, cols, cs, style);
    Success(Paint(Blank(rows, cols), cs, style))
  }

  /** Every listed cell lies inside the grid `create` sizes. */
  lemma GridFits(cs: seq<CellRef>, numRows: Option<int>, numCols: Option<int>)
    requires RowsValid(cs)
    ensures forall k :: 0 <= k < |cs| ==> 0 <= cs[k].row < GridRows(cs, numRows) && cs[k].col < GridCols(cs, numCols)
  {
  }

  /** Painting listed cells inside a blank grid: the shape stays, exactly the
      listed cells hold the style, and each of them can be looked up. */
  lemma PaintedBlank(rows: nat, cols: nat, cs: seq<CellRef>, style: Style)
    requires forall k :: 0 <= k < |cs| ==> 0 <= cs[k].row < rows && cs[k].col < cols
    ensures var g := Paint(Blank(rows, cols), cs, style);
      && Rectangular(g, rows, cols)
      && (forall i, j :: 0 <= i < |g| && 0 <= j < |g[i]| ==>
            g[i][j] == (if CellRef(i, j) in cs then style else NoneStyle))
      && (forall k :: 0 <= k < |cs| ==> Lookup(g, cs[k].row, cs[k].col) == Some(style))
  {
    var g := Paint(Blank(rows, cols), cs, style);
    forall k | 0 <= k < |cs|
      ensures Lookup(g, cs[k].row, cs[k].col) == Some(style)
    {
      assert cs[k] in cs;
    }
  }
}
