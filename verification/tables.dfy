/** `st_table` and `st_grid` of streamtex/__init__.py: content and styles
    arrive as a matrix, a flat list, a single style or a `StyleGrid`, are
    brought to exactly `rows * cols` cells in row-major order, and are
    written out as an HTML table or a CSS grid. Both use each style's raw
    `css` attribute, not its theme rendering. */
module Tables {
  import opened Text
  import opened Results
  import opened Styles
  import opened StyleGrids

  // ---------------------------------------------------------------------
  // Shapes of the arguments

  /** `block_list`: a matrix of cell contents, or a flat row-major list. */
  datatype Blocks = Matrix(rows: seq<seq<string>>) | Flat(items: seq<string>)

  /** `row_styles`: one style for every row, the first column of a
      `StyleGrid`, a list with one style per row, or anything else. */
  datatype RowSource = EachRow(style: Style) | RowsOfGrid(grid: Grid) | RowList(styles: seq<Style>) | NoRowStyles

  /** `cell_styles`: one style for every cell, a `StyleGrid`, a matrix, a
      flat row-major list, or anything else. */
  datatype CellSource =
    | EachCell(style: Style)
    | CellsOfGrid(grid: Grid)
    | CellMatrix(rows: seq<seq<Style>>)
    | CellList(styles: seq<Style>)
    | NoCellStyles

  /** Inference of the dimensions needs a matrix; extending a string as if it
      were a row raises. */
  datatype TableError = RowNotAList

  // ---------------------------------------------------------------------
  // Normalisation

  /** `xs` extended with `fill` or cut, to exactly `n` elements. */
  function Fit<T>(xs: seq<T>, n: nat, fill: T): (r: seq<T>)
    ensures |r| == n
    ensures forall i :: 0 <= i < n ==> r[i] == if i < |xs| then xs[i] else fill
  {
    if |xs| >= n then xs[..n] else xs + seq(n - |xs|, _ => fill)
  }

  /** The rows of `m` one after the other. */
  function Flatten<T>(m: seq<seq<T>>): seq<T>
  {
    if m == [] then [] else m[0] + Flatten(m[1..])
  }

  /** A matrix whose rows all have `cols` elements flattens to `|m| * cols`
      elements. */
  lemma {:induction false} FlattenLength<T>(m: seq<seq<T>>, cols: nat)
    requires forall i :: 0 <= i < |m| ==> |m[i]| == cols
    ensures |Flatten(m)| == |m| * cols
    decreases |m|
  {
    if m != [] {
      FlattenLength(m[1..], cols);
      MulStep(|m|, cols);
    }
  }

  /** In a matrix whose rows all have `cols` elements, element `(i, j)` sits at
      position `i * cols + j` of the flattened list. */
  lemma {:induction false} FlattenAt<T>(m: seq<seq<T>>, cols: nat, i: nat, j: nat)
    requires forall k :: 0 <= k < |m| ==> |m[k]| == cols
    requires i < |m| && j < cols
    ensures i * cols + j < |Flatten(m)| && Flatten(m)[i * cols + j] == m[i][j]
    decreases i
  {
    FlattenLength(m[1..], cols);
    if i > 0 {
      FlattenAt(m[1..], cols, i - 1, j);
      MulStep(i, cols);
      assert m[1..][i - 1] == m[i];
    }
  }

  /** One more row adds one row's worth of cells. */
  lemma MulStep(k: nat, cols: nat)
    requires k >= 1
    ensures (k - 1) * cols + cols == k * cols
  {
  }

  /** Every row of `m` extended with empty cells to `cols`. */
  function PadRows(m: seq<seq<string>>, cols: nat): (r: seq<seq<string>>)
    ensures |r| == |m|
    ensures forall i :: 0 <= i < |m| ==> r[i] == Fit(m[i], cols, "")
  {
    seq(|m|, i requires 0 <= i < |m| => Fit(m[i], cols, ""))
  }

  /** The dimensions and the row-major contents of a table. */
  datatype Layout = Layout(rows: nat, cols: nat, content: seq<string>)

  /** The layout of `st_table`/`st_grid`: a missing dimension (zero or
      negative) makes both inferred from the matrix, whose short rows are
      padded with empty cells; otherwise the flat list is padded or cut to
      `rows * cols` cells. */
  function LayoutOf(rows: int, cols: int, blocks: Blocks): (r: Result<Layout, TableError>)
    requires rows > 0 && cols > 0 ==> blocks.Flat?
    ensures r.Success? ==> |r.value.content| == r.value.rows * r.value.cols
    ensures r.Failure? <==> (rows <= 0 || cols <= 0) && blocks.Flat? && blocks.items != []
    ensures r.Success? && rows > 0 && cols > 0 ==> r.value.rows == rows && r.value.cols == cols
    ensures r.Success? && blocks.Matrix? && (rows <= 0 || cols <= 0) ==>
      r.value.rows == |blocks.rows| && r.value.cols == Width(blocks.rows)
  {
    if rows <= 0 || cols <= 0 then
      match blocks
      case Flat(items) => if items == [] then Success(Layout(0, 0, [])) else Failure(RowNotAList)
      case Matrix(m) =>
        var w := Width(m);
        var padded := PadRows(m, w);
        FlattenLength(padded, w);
        Success(Layout(|m|, w, Flatten(padded)))
    else
      Success(Layout(rows, cols, Fit(blocks.items, rows * cols, "")))
  }

  /** Where an inferred table's contents land: cell `(i, j)` shows `m[i][j]`,
      and the cells a short row lacks are empty. */
  lemma MatrixPlacement(m: seq<seq<string>>, rows: int, cols: int, i: nat, j: nat)
    requires rows <= 0 || cols <= 0
    requires i < |m| && j < Width(m)
    ensures LayoutOf(rows, cols, Matrix(m)).Success?
    ensures var t := LayoutOf(rows, cols, Matrix(m)).value;
      i * t.cols + j < |t.content| && t.content[i * t.cols + j] == if j < |m[i]| then m[i][j] else ""
  {
    var w := Width(m);
    var p := PadRows(m, w);
    MatrixLayout(m, rows, cols);
    FlattenAt(p, w, i, j);
    assert p[i] == Fit(m[i], w, "");
  }

  /** Without both dimensions, the layout is the matrix's, padded. */
  lemma MatrixLayout(m: seq<seq<string>>, rows: int, cols: int)
    requires rows <= 0 || cols <= 0
    ensures LayoutOf(rows, cols, Matrix(m)) == Success(Layout(|m|, Width(m), Flatten(PadRows(m, Width(m)))))
  {
  }

  /** Where a table with given dimensions takes its contents: cell `(i, j)`
      shows list element `i * cols + j`, or nothing past the list's end. */
  lemma FlatPlacement(items: seq<string>, rows: nat, cols: nat, i: nat, j: nat)
    requires rows > 0 && cols > 0 && i < rows && j < cols
    ensures var t := LayoutOf(rows, cols, Flat(items)).value;
      && i * cols + j < rows * cols
      && t.content[i * cols + j] == if i * cols + j < |items| then items[i * cols + j] else ""
  {
    CellIndexInRange(rows, cols, i, j);
  }

  /** Row-major positions stay below `rows * cols`. */
  lemma CellIndexInRange(rows: nat, cols: nat, i: nat, j: nat)
    requires i < rows && j < cols
    ensures i * cols + j < rows * cols
  {
    RowEnd(rows, cols, i);
  }

  /** Row `i` of a `rows` by `cols` layout ends within the layout. */
  lemma RowEnd(rows: nat, cols: nat, i: nat)
    requires i < rows
    ensures i * cols + cols == (i + 1) * cols <= rows * cols
  {
    assert (i + 1) * cols <= rows * cols by {
      assert i + 1 <= rows;
    }
  }

  /** The style of every row, exactly `rows` of them: a grid gives the first
      cell of each of its rows (`none` for missing or empty rows), a list is
      padded with `none` or cut, anything else gives `none`. */
  function RowStyles(src: RowSource, rows: nat): (r: seq<Style>)
    ensures |r| == rows
    ensures src.EachRow? ==> forall i :: 0 <= i < rows ==> r[i] == src.style
    ensures src.RowsOfGrid? ==> forall i :: 0 <= i < rows ==>
      r[i] == (if i < |src.grid| && |src.grid[i]| > 0 then src.grid[i][0] else NoneStyle)
    ensures src.RowList? ==> forall i :: 0 <= i < rows ==>
      r[i] == (if i < |src.styles| then src.styles[i] else NoneStyle)
    ensures src.NoRowStyles? ==> forall i :: 0 <= i < rows ==> r[i] == NoneStyle
  {
    match src
    case EachRow(s) => seq(rows, _ => s)
    case RowsOfGrid(g) =>
      seq(rows, i requires 0 <= i < rows => if i < |g| && |g[i]| > 0 then g[i][0] else NoneStyle)
    case RowList(xs) => Fit(xs, rows, NoneStyle)
    case NoRowStyles => seq(rows, _ => NoneStyle)
  }

  /** A `rows` by `cols` window on a style grid, `none` outside it. */
  function Window(g: Grid, rows: nat, cols: nat): (r: Grid)
    ensures Rectangular(r, rows, cols)
    ensures forall i, j :: 0 <= i < rows && 0 <= j < cols ==> r[i][j] == CellAt(g, i, j)
  {
    seq(rows, i => seq(cols, j => CellAt(g, i, j)))
  }

  /** The style of every cell, exactly `rows * cols` of them, row-major. */
  function CellStyles(src: CellSource, rows: nat, cols: nat): (r: seq<Style>)
    ensures |r| == rows * cols
  {
    match src
    case EachCell(s) => seq(rows * cols, _ => s)
    case CellsOfGrid(g) =>
      var w := Window(g, rows, cols);
      FlattenLength(w, cols);
      Flatten(w)
    case CellMatrix(m) => Fit(Flatten(m), rows * cols, NoneStyle)
    case CellList(xs) => Fit(xs, rows * cols, NoneStyle)
    case NoCellStyles => seq(rows * cols, _ => NoneStyle)
  }

  /** Cell `(i, j)` takes its style from the same cell of a style grid (`none`
      where the grid is short), from the single style, or from position
      `i * cols + j` of a list or flattened matrix (`none` past its end). */
  lemma CellStylePlacement(src: CellSource, rows: nat, cols: nat, i: nat, j: nat)
    requires i < rows && j < cols
    ensures i * cols + j < rows * cols
    ensures var r := CellStyles(src, rows, cols); var k := i * cols + j;
      k < |r| && r[k] == match src
        case EachCell(s) => s
        case CellsOfGrid(g) => CellAt(g, i, j)
        case CellMatrix(m) => if k < |Flatten(m)| then Flatten(m)[k] else NoneStyle
        case CellList(xs) => if k < |xs| then xs[k] else NoneStyle
        case NoCellStyles => NoneStyle
  {
    CellIndexInRange(rows, cols, i, j);
    if src.CellsOfGrid? {
      FlattenAt(Window(src.grid, rows, cols), cols, i, j);
    }
  }

  /** The raw CSS of each style. */
  function CssOf(styles: seq<Style>): (r: seq<string>)
    ensures |r| == |styles|
    ensures forall i :: 0 <= i < |r| ==> r[i] == styles[i].css
  {
    seq(|styles|, i requires 0 <= i < |styles| => styles[i].css)
  }

  // ---------------------------------------------------------------------
  // st_table

  function Td(css: string, content: string): string
  {
    "<td style=\"" + css + "\">" + content + "</td>"
  }

  /** The `<td>` elements of one row, in order. */
  function CellsHtml(css: seq<string>, content: seq<string>): string
    requires |css| == |content|
  {
    if css == [] then ""
    else CellsHtml(css[..|css| - 1], content[..|css| - 1]) + Td(css[|css| - 1], content[|css| - 1])
  }

  /** A `<tr>` with its style around the given cells. */
  function Tr(rowCss: string, cells: string): string
  {
    "<tr style=\"" + rowCss + "\">" + cells + "</tr>"
  }

  function RowHtml(rowCss: string, css: seq<string>, content: seq<string>): string
    requires |css| == |content|
  {
    Tr(rowCss, CellsHtml(css, content))
  }

  /** The first `n` elements, or all of them when there are fewer. */
  function Take<T>(xs: seq<T>, n: nat): (r: seq<T>)
    ensures |r| <= n && |r| <= |xs| && r == xs[..|r|]
  {
    if n <= |xs| then xs[..n] else xs
  }

  /** All but the first `n` elements. */
  function Drop<T>(xs: seq<T>, n: nat): (r: seq<T>)
    ensures n <= |xs| ==> r == xs[n..]
  {
    if n <= |xs| then xs[n..] else []
  }

  /** The rows of a table, one per row style: each row takes the next `cols`
      cells of the row-major lists. */
  function RowsHtml(rowCss: seq<string>, cols: nat, css: seq<string>, content: seq<string>): string
    requires |css| == |content|
    decreases |rowCss|
  {
    if rowCss == [] then ""
    else
      RowHtml(rowCss[0], Take(css, cols), Take(content, cols))
        + RowsHtml(rowCss[1..], cols, Drop(css, cols), Drop(content, cols))
  }

  /** Row `y` of the table shows the cells at positions `y * cols` up to
      `y * cols + cols`, the positions `st_table` computes as `y * cols + x`. */
  lemma RowCells(cols: nat, css: seq<string>, y: nat)
    requires y * cols + cols <= |css|
    ensures Take(DropRows(css, cols, y), cols) == css[y * cols..y * cols + cols]
  {
    DropRowsSuffix(css, cols, y, y * cols);
  }

  lemma {:induction false} DropRowsSuffix<T>(xs: seq<T>, cols: nat, y: nat, start: nat)
    requires start == y * cols && start <= |xs|
    ensures DropRows(xs, cols, y) == xs[start..]
    decreases y
  {
    if y > 0 {
      MulStep(y, cols);
      assert Drop(xs, cols) == xs[cols..];
      DropRowsSuffix(xs[cols..], cols, y - 1, start - cols);
      assert xs[cols..][start - cols..] == xs[start..];
    }
  }

  /** What is left of a row-major list after `y` rows. */
  function DropRows<T>(xs: seq<T>, cols: nat, y: nat): seq<T>
    decreases y
  {
    if y == 0 then xs else DropRows(Drop(xs, cols), cols, y - 1)
  }

  /** The whole table. */
  function TableHtml(tableCss: string, t: Layout, rowCss: seq<string>, css: seq<string>): string
    requires |css| == |t.content|
  {
    Table(tableCss, RowsHtml(rowCss, t.cols, css, t.content))
  }

  /** A `<table>` with its style around the given rows. */
  function Table(tableCss: string, rows: string): string
  {
    "<table style=\"" + tableCss + "\">" + rows + "</table>"
  }

  /** `st_table`: the HTML table of the normalised layout, row styles and
      cell styles, built row by row and cell by cell. */
  method StTable(rows: int, cols: int, tableStyle: Style, rowStyles: RowSource, cellStyles: CellSource, blocks: Blocks)
    returns (r: Result<string, TableError>)
    requires rows > 0 && cols > 0 ==> blocks.Flat?
    ensures r.Failure? <==> LayoutOf(rows, cols, blocks).Failure?
    ensures r.Success? ==>
      var t := LayoutOf(rows, cols, blocks).value;
      r.value == TableHtml(tableStyle.css, t, CssOf(RowStyles(rowStyles, t.rows)),
                           CssOf(CellStyles(cellStyles, t.rows, t.cols)))
  {
    var layout := LayoutOf(rows, cols, blocks);
    if layout.Failure? {
      return Failure(layout.error);
    }
    var t := layout.value;
    var html := BuildTable(tableStyle.css, t, CssOf(RowStyles(rowStyles, t.rows)),
                           CssOf(CellStyles(cellStyles, t.rows, t.cols)));
    return Success(html);
  }

  /** The table of a normalised layout, built row by row. */
  method BuildTable(tableCss: string, t: Layout, rowCss: seq<string>, css: seq<string>) returns (html: string)
    requires |css| == |t.content|
    ensures html == TableHtml(tableCss, t, rowCss, css)
  {
    var body := "";
    var restRows, restCss, restContent := rowCss, css, t.content;
    while restRows != []
      invariant |restCss| == |restContent|
      invariant body + RowsHtml(restRows, t.cols, restCss, restContent) == RowsHtml(rowCss, t.cols, css, t.content)
      decreases |restRows|
    {
      var cells := BuildCells(Take(restCss, t.cols), Take(restContent, t.cols));
      var row := Tr(restRows[0], cells);
      ghost var later := RowsHtml(restRows[1..], t.cols, Drop(restCss, t.cols), Drop(restContent, t.cols));
      RowsStep(restRows, t.cols, restCss, restContent);
      AppendAssoc(body, row, later);
      body := body + row;
      restRows, restCss, restContent := restRows[1..], Drop(restCss, t.cols), Drop(restContent, t.cols);
    }
    html := Table(tableCss, body);
  }

  /** A table's rows are its first row followed by the others. */
  lemma RowsStep(rowCss: seq<string>, cols: nat, css: seq<string>, content: seq<string>)
    requires |css| == |content| && rowCss != []
    ensures RowsHtml(rowCss, cols, css, content)
         == Tr(rowCss[0], CellsHtml(Take(css, cols), Take(content, cols)))
          + RowsHtml(rowCss[1..], cols, Drop(css, cols), Drop(content, cols))
  {
  }

  /** The `<td>` elements of one row, appended one after the other. */
  method BuildCells(css: seq<string>, content: seq<string>) returns (cells: string)
    requires |css| == |content|
    ensures cells == CellsHtml(css, content)
  {
    cells := "";
    var x := 0;
    while x < |css|
      invariant 0 <= x <= |css|
      invariant cells == CellsHtml(css[..x], content[..x])
    {
      PrefixStep(css, x);
      PrefixStep(content, x);
      cells := cells + Td(css[x], content[x]);
      x := x + 1;
    }
    assert css[..x] == css && content[..x] == content;
  }

  // ---------------------------------------------------------------------
  // st_grid

  function CellDiv(css: string, content: string): string
  {
    "<div style=\"" + css + "\">" + content + "</div>"
  }

  /** The cell `<div>` elements, in order. */
  function DivsHtml(css: seq<string>, content: seq<string>): string
    requires |css| == |content|
  {
    if css == [] then ""
    else DivsHtml(css[..|css| - 1], content[..|css| - 1]) + CellDiv(css[|css| - 1], content[|css| - 1])
  }

  /** The container style of `st_grid`: the grid style's CSS followed by an
      equal-width column template. */
  function GridContainerCss(gridCss: string, cols: nat): string
  {
    gridCss + " display: grid; grid-template-columns: repeat(" + NatToString(cols) + ", 1fr); "
  }

  function GridHtml(gridCss: string, t: Layout, css: seq<string>): string
    requires |css| == |t.content|
  {
    "<div style=\"" + GridContainerCss(gridCss, t.cols) + "\">" + DivsHtml(css, t.content) + "</div>"
  }

  /** `st_grid`: the same normalisation of contents and cell styles as
      `st_table` (it takes no row styles), written as one `<div>` per cell
      inside a CSS grid container of `cols` columns. */
  method StGrid(rows: int, cols: int, gridStyle: Style, cellStyles: CellSource, blocks: Blocks)
    returns (r: Result<string, TableError>)
    requires rows > 0 && cols > 0 ==> blocks.Flat?
    ensures r.Failure? <==> LayoutOf(rows, cols, blocks).Failure?
    ensures r.Success? ==>
      var t := LayoutOf(rows, cols, blocks).value;
      r.value == GridHtml(gridStyle.css, t, CssOf(CellStyles(cellStyles, t.rows, t.cols)))
  {
    var layout := LayoutOf(rows, cols, blocks);
    if layout.Failure? {
      return Failure(layout.error);
    }
    var t := layout.value;
    var cells := BuildDivs(CssOf(CellStyles(cellStyles, t.rows, t.cols)), t.content);
    return Success("<div style=\"" + GridContainerCss(gridStyle.css, t.cols) + "\">" + cells + "</div>");
  }

  /** The cell `<div>` elements, appended one after the other. */
  method BuildDivs(css: seq<string>, content: seq<string>) returns (cells: string)
    requires |css| == |content|
    ensures cells == DivsHtml(css, content)
  {
    cells := "";
    var i := 0;
    while i < |css|
      invariant 0 <= i <= |css|
      invariant cells == DivsHtml(css[..i], content[..i])
    {
      PrefixStep(css, i);
      PrefixStep(content, i);
      cells := cells + CellDiv(css[i], content[i]);
      i := i + 1;
    }
    assert css[..i] == css && content[..i] == content;
  }
}
