/** The CSS-grid controller of streamtex/grid.py: the column count is given
    or inferred from a `grid-template-columns` string, and the k-th cell
    takes the k-th style of the row-major flattened style source, whatever
    the grid's own column count. */
module GridFlow {
  import opened Text
  import opened Results
  import opened Styles
  import opened StyleGrids
  import opened Tables

  /** The `cols` argument: a number of equal columns, or a template string
      such as `"auto 1fr"`. */
  datatype Columns = Count(n: int) | Template(template: string)

  /** The column count of `GridController.__init__`: an integer is taken as
      given, a template counts one column more than it has spaces. */
  function ColumnCount(cols: Columns): (r: int)
    ensures cols.Count? ==> r == cols.n
    ensures cols.Template? ==> r >= 1
    ensures cols.Template? && ' ' !in cols.template ==> r == 1
  {
    match cols
    case Count(n) => n
    case Template(t) => CountChar(t, ' ') + 1
  }

  /** The template `st_grid` writes for an integer: `n` times `1fr`,
      separated by single spaces (empty for `n <= 0`). */
  function TemplateOf(cols: Columns): string
  {
    match cols
    case Count(n) => JoinWith(seq(if n < 0 then 0 else n, _ => "1fr"), " ")
    case Template(t) => t
  }

  /** Joining `n` space-free parts with single spaces puts `n - 1` spaces. */
  lemma {:induction false} SpacesOfJoin(parts: seq<string>)
    requires |parts| >= 1
    requires forall k :: 0 <= k < |parts| ==> ' ' !in parts[k]
    ensures CountChar(JoinWith(parts, " "), ' ') == |parts| - 1
    decreases |parts|
  {
    if |parts| > 1 {
      SpacesOfJoin(parts[1..]);
      assert multiset(parts[0] + " " + JoinWith(parts[1..], " "))
          == multiset(parts[0]) + multiset(" ") + multiset(JoinWith(parts[1..], " "));
      assert multiset(parts[0])[' '] == 0;
    } else {
      assert multiset(parts[0])[' '] == 0;
    }
  }

  /** The template written for `n` columns reads back as `n` columns: the
      integer and the template form of `cols` describe the same grid. */
  lemma TemplateColumns(n: nat)
    requires n >= 1
    ensures ColumnCount(Template(TemplateOf(Count(n)))) == n
  {
    SpacesOfJoin(seq(n, _ => "1fr"));
  }

  // ---------------------------------------------------------------------
  // Style resolution

  /** `_resolve_style(idx)`: a single style serves every cell; a matrix, a
      `StyleGrid` or a flat list is read row-major by the cell's ordinal, and
      a missing entry or an unknown source gives `none`. An empty list counts
      as an (empty) matrix, which gives `none` too. */
  function ResolveFlow(styles: CellSource, idx: nat): (r: Style)
    ensures styles.EachCell? ==> r == styles.style
    ensures styles.NoCellStyles? ==> r == NoneStyle
  {
    match styles
    case EachCell(s) => s
    case CellMatrix(m) => var flat := Flatten(m); if idx < |flat| then flat[idx] else NoneStyle
    case CellsOfGrid(g) => var flat := Flatten(g); if idx < |flat| then flat[idx] else NoneStyle
    case CellList(xs) => if idx < |xs| then xs[idx] else NoneStyle
    case NoCellStyles => NoneStyle
  }

  /** In a matrix source whose rows all have `w` styles, the cell with
      ordinal `i * w + j` takes the style in row `i`, column `j`; every
      ordinal past the last style takes `none`. */
  lemma FlowMatrixPlacement(m: seq<seq<Style>>, w: nat, i: nat, j: nat, idx: nat)
    requires forall k :: 0 <= k < |m| ==> |m[k]| == w
    ensures i < |m| && j < w ==>
      ResolveFlow(CellMatrix(m), i * w + j) == m[i][j] && ResolveFlow(CellsOfGrid(m), i * w + j) == m[i][j]
    ensures idx >= |m| * w ==>
      ResolveFlow(CellMatrix(m), idx) == NoneStyle && ResolveFlow(CellsOfGrid(m), idx) == NoneStyle
  {
    FlattenLength(m, w);
    if i < |m| && j < w {
      FlattenAt(m, w, i, j);
    }
  }

  /** A flat list serves its styles in order and `none` after the last. */
  lemma FlowListPlacement(xs: seq<Style>, idx: nat)
    ensures idx < |xs| ==> ResolveFlow(CellList(xs), idx) == xs[idx]
    ensures idx >= |xs| ==> ResolveFlow(CellList(xs), idx) == NoneStyle
    ensures ResolveFlow(CellMatrix([xs]), idx) == ResolveFlow(CellList(xs), idx)
  {
    assert Flatten([xs]) == xs + Flatten<Style>([]);
  }

  // ---------------------------------------------------------------------
  // The controller

  /** `GridController`: the column count, the style source and the number of
      cells opened so far. */
  datatype FlowGrid = FlowGrid(cols: int, styles: CellSource, counter: nat)

  function NewFlowGrid(cols: Columns, styles: CellSource): (g: FlowGrid)
    ensures g.counter == 0 && g.styles == styles
    ensures g.cols == ColumnCount(cols)
  {
    FlowGrid(ColumnCount(cols), styles, 0)
  }

  /** The declarations every cell starts with, so that its background fills
      the grid cell. */
  const CellFill := "height: 100%; width: 100%; box-sizing: border-box; "

  /** `cell()`: the style of the cell with the current ordinal, prefixed with
      the fill declarations and rendered through the theme; the ordinal then
      advances by one. */
  function FlowCell(g: FlowGrid, theme: Theme): (r: (FlowGrid, string))
    ensures r.0.cols == g.cols && r.0.styles == g.styles && r.0.counter == g.counter + 1
    ensures |r.1| >= |CellFill| && r.1[..|CellFill|] == CellFill
  {
    (g.(counter := g.counter + 1), CellFill + Render(ResolveFlow(g.styles, g.counter), theme))
  }

  /** `n` cells opened one after the other: the final controller and the
      style of each cell. */
  function FlowCells(g: FlowGrid, n: nat, theme: Theme): (FlowGrid, seq<string>)
    decreases n
  {
    if n == 0 then (g, [])
    else
      var (next, style) := FlowCell(g, theme);
      var (last, rest) := FlowCells(next, n - 1, theme);
      (last, [style] + rest)
  }

  /** After `n` cells the counter has risen by exactly `n`, and the k-th of
      them (counting from 0) got the style of ordinal `counter + k`. */
  lemma {:induction false} FlowCellsRun(g: FlowGrid, n: nat, theme: Theme)
    ensures var (last, styles) := FlowCells(g, n, theme);
      && last == g.(counter := g.counter + n)
      && |styles| == n
      && forall k :: 0 <= k < n ==> styles[k] == CellFill + Render(ResolveFlow(g.styles, g.counter + k), theme)
    decreases n
  {
    if n > 0 {
      var next := FlowCell(g, theme).0;
      FlowCellsRun(next, n - 1, theme);
      FlowCellsStep(g, n, theme);
      var rest := FlowCells(next, n - 1, theme).1;
      var styles := FlowCells(g, n, theme).1;
      forall k | 0 <= k < n
        ensures styles[k] == CellFill + Render(ResolveFlow(g.styles, g.counter + k), theme)
      {
        if k > 0 {
          assert styles[k] == rest[k - 1];
        }
      }
    }
  }

  /** Opening `n` cells is opening one, then `n - 1` more. */
  lemma FlowCellsStep(g: FlowGrid, n: nat, theme: Theme)
    requires n > 0
    ensures FlowCells(g, n, theme).0 == FlowCells(FlowCell(g, theme).0, n - 1, theme).0
    ensures FlowCells(g, n, theme).1 == [FlowCell(g, theme).1] + FlowCells(FlowCell(g, theme).0, n - 1, theme).1
  {
  }
}
