/** The column-based grid controller of streamtex/grid_old.py. A grid with
    fixed dimensions pre-generates its cell positions in row-major order and
    hands them out one by one; a dynamic grid opens rows of `n` columns and
    places cells left to right in the open row. Styles are looked up by
    (row, column), except that a flat list is read by the number of cells
    placed so far. */
module GridOld {
  import opened Results
  import opened Styles
  import opened StyleGrids
  import opened Tables
  import opened GridFlow

  /** Controller state: the pre-generated positions (empty for a dynamic
      grid) and the index of the next one, the open row (its index, its
      column count, 0 when no row is open, and the next cell in it) and the
      number of cells placed. */
  datatype OldGrid = OldGrid(
    styles: CellSource,
    positions: seq<CellRef>,
    fixedPtr: nat,
    currentRow: nat,
    rowCols: nat,
    rowCellIdx: nat,
    placed: nat)

  /** The positions of a `rows` by `cols` grid, row after row. */
  function FixedPositions(rows: nat, cols: nat): seq<CellRef>
    requires cols >= 1
  {
    Expand(0, rows - 1, 0, cols - 1)
  }

  /** The pre-generated positions cover each cell of the rectangle exactly
      once, in row-major order. */
  lemma FixedPositionsShape(rows: nat, cols: nat, x: CellRef)
    requires cols >= 1
    ensures |FixedPositions(rows, cols)| == rows * cols
    ensures RowMajor(FixedPositions(rows, cols))
    ensures x in FixedPositions(rows, cols) <==> 0 <= x.row < rows && x.col < cols
  {
    ExpandLength(0, rows - 1, 0, cols - 1);
    ExpandOrdered(0, rows - 1, 0, cols - 1);
    ExpandMembers(0, rows - 1, 0, cols - 1, x);
  }

  /** `GridController(rows, cols, cell_styles)`: positions are generated only
      when both dimensions are given, one row of `st.columns(cols)` per row,
      so zero rows generate none and leave a dynamic grid. `st.columns`
      refuses zero columns, so a column count that is used is at least 1. */
  function NewOldGrid(rows: Option<nat>, cols: Option<nat>, styles: CellSource): (g: OldGrid)
    requires rows.Some? && rows.value >= 1 && cols.Some? ==> cols.value >= 1
    ensures g.fixedPtr == 0 && g.currentRow == 0 && g.rowCols == 0 && g.rowCellIdx == 0 && g.placed == 0
    ensures g.styles == styles
    ensures rows.Some? && rows.value >= 1 && cols.Some? ==> g.positions == FixedPositions(rows.value, cols.value)
    ensures rows.None? || cols.None? || rows.value == 0 ==> g.positions == []
  {
    var positions :=
      if rows.Some? && rows.value >= 1 && cols.Some? then FixedPositions(rows.value, cols.value) else [];
    OldGrid(styles, positions, 0, 0, 0, 0, 0)
  }

  /** A grid behaves as fixed exactly when positions were generated; a
      fixed grid with zero rows behaves as a dynamic one. */
  predicate Fixed(g: OldGrid)
  {
    g.positions != []
  }

  // ---------------------------------------------------------------------
  // Style resolution

  /** `_resolve_style(r, c)`: a single style serves every cell; a `StyleGrid`
      or a matrix is looked up at (r, c), `none` outside it; a flat list is
      read at the number of cells placed so far; an empty list and an
      unknown source give `none`. */
  function ResolveOld(styles: CellSource, r: int, c: nat, placed: nat): (s: Style)
    ensures styles.EachCell? ==> s == styles.style
    ensures styles.NoCellStyles? ==> s == NoneStyle
    ensures styles.CellsOfGrid? ==>
      s == (if 0 <= r < |styles.grid| && c < |styles.grid[r]| then styles.grid[r][c] else NoneStyle)
    ensures styles.CellMatrix? ==>
      s == (if 0 <= r < |styles.rows| && c < |styles.rows[r]| then styles.rows[r][c] else NoneStyle)
  {
    match styles
    case EachCell(s) => s
    case CellsOfGrid(g) => CellAt(g, r, c)
    case CellMatrix(m) => if m == [] then NoneStyle else CellAt(m, r, c)
    case CellList(xs) => if placed < |xs| then xs[placed] else NoneStyle
    case NoCellStyles => NoneStyle
  }

  // ---------------------------------------------------------------------
  // Cells and rows

  /** What `cell()` does: place a cell at (row, col) with a style; warn that
      the grid or the open row is full and place nothing; or raise because
      no row is open in a dynamic grid. */
  datatype CellOutcome =
    | Placed(row: int, col: nat, style: Style, next: OldGrid)
    | Overflowed
    | NoOpenRow

  /** `cell()`. */
  function OldCell(g: OldGrid): (r: CellOutcome)
    ensures r.NoOpenRow? <==> !Fixed(g) && g.rowCols == 0
    ensures r.Overflowed? <==>
      (Fixed(g) && g.fixedPtr >= |g.positions|) || (!Fixed(g) && g.rowCols > 0 && g.rowCellIdx >= g.rowCols)
    ensures r.Placed? ==> r.style == ResolveOld(g.styles, r.row, r.col, g.placed)
    ensures r.Placed? ==> r.next.placed == g.placed + 1 && r.next.styles == g.styles
    ensures r.Placed? && Fixed(g) ==>
      && CellRef(r.row, r.col) == g.positions[g.fixedPtr]
      && r.next == g.(fixedPtr := g.fixedPtr + 1, placed := g.placed + 1)
    ensures r.Placed? && !Fixed(g) ==>
      && r.row == g.currentRow && r.col == g.rowCellIdx < g.rowCols
      && r.next == g.(rowCellIdx := g.rowCellIdx + 1, placed := g.placed + 1)
  {
    if Fixed(g) then
      if g.fixedPtr >= |g.positions| then Overflowed
      else
        var p := g.positions[g.fixedPtr];
        Placed(p.row, p.col, ResolveOld(g.styles, p.row, p.col, g.placed),
               g.(fixedPtr := g.fixedPtr + 1, placed := g.placed + 1))
    else if g.rowCols > 0 then
      if g.rowCellIdx >= g.rowCols then Overflowed
      else
        Placed(g.currentRow, g.rowCellIdx, ResolveOld(g.styles, g.currentRow, g.rowCellIdx, g.placed),
               g.(rowCellIdx := g.rowCellIdx + 1, placed := g.placed + 1))
    else NoOpenRow
  }

  /** Why `row(n)` raises: Streamlit's `columns` refuses a column count
      below 1. */
  datatype RowError = NoColumns

  /** What `row(n)` yields to its `with` body: the controller, and whether a
      row was opened. On a fixed grid `row(n)` only shows an error and
      yields, so the body runs against the unchanged controller and its
      cells take the next fixed positions. */
  datatype RowScope = RowScope(grid: OldGrid, isOpen: bool)

  /** Entering `row(n)`: on a fixed grid nothing is opened and the
      controller stays as it was; otherwise `st.columns(n)` raises unless
      `n` is positive, and then the open row gets `n` columns and its first
      cell is next. */
  function RowEnter(g: OldGrid, n: int): (r: Result<RowScope, RowError>)
    ensures r.Failure? <==> !Fixed(g) && n < 1
    ensures r.Success? ==> (r.value.isOpen <==> !Fixed(g))
    ensures r.Success? && Fixed(g) ==> r.value.grid == g
    ensures r.Success? && !Fixed(g) ==> r.value.grid == g.(rowCols := n, rowCellIdx := 0)
  {
    if Fixed(g) then Success(RowScope(g, false))
    else if n < 1 then Failure(NoColumns)
    else Success(RowScope(g.(rowCols := n, rowCellIdx := 0), true))
  }

  /** Leaving `row(n)` normally: an opened row moves on to the next row
      index and closes its columns; on a fixed grid `row(n)` returns right
      after its body and changes nothing. */
  function RowExit(s: RowScope): (r: OldGrid)
    ensures s.isOpen ==> r == s.grid.(currentRow := s.grid.currentRow + 1, rowCols := 0)
    ensures !s.isOpen ==> r == s.grid
  {
    if s.isOpen then s.grid.(currentRow := s.grid.currentRow + 1, rowCols := 0) else s.grid
  }

  /** `n` calls of `cell()`, stopping at the first one that raises. Returns
      the final controller and the outcome of each call. */
  function OldCells(g: OldGrid, n: nat): (r: (OldGrid, seq<CellOutcome>))
    decreases n
  {
    if n == 0 then (g, [])
    else
      var o := OldCell(g);
      match o
      case NoOpenRow => (g, [o])
      case Overflowed => var (last, rest) := OldCells(g, n - 1); (last, [o] + rest)
      case Placed(_, _, _, next) => var (last, rest) := OldCells(next, n - 1); (last, [o] + rest)
  }

  /** A fixed grid fed `n` cells from its current index places them at the
      successive pre-generated positions until these run out, and warns for
      every further cell; the placed-cell counter rises only for cells
      actually placed. */
  lemma {:induction false} FixedRun(g: OldGrid, n: nat)
    requires Fixed(g)
    ensures var (last, outs) := OldCells(g, n);
      && |outs| == n
      && (forall k :: 0 <= k < n && g.fixedPtr + k < |g.positions| ==>
            outs[k].Placed? && CellRef(outs[k].row, outs[k].col) == g.positions[g.fixedPtr + k])
      && (forall k :: 0 <= k < n && g.fixedPtr + k >= |g.positions| ==> outs[k].Overflowed?)
      && last.placed - g.placed == last.fixedPtr - g.fixedPtr
      && last.fixedPtr == if g.fixedPtr + n <= |g.positions| then g.fixedPtr + n
                          else if g.fixedPtr <= |g.positions| then |g.positions| else g.fixedPtr
    decreases n
  {
    if n > 0 {
      var o := OldCell(g);
      var next := if o.Placed? then o.next else g;
      FixedRun(next, n - 1);
      var outs := OldCells(g, n).1;
      var rest := OldCells(next, n - 1).1;
      assert outs == [o] + rest;
      forall k | 0 <= k < n && g.fixedPtr + k < |g.positions|
        ensures outs[k].Placed? && CellRef(outs[k].row, outs[k].col) == g.positions[g.fixedPtr + k]
      {
        if k > 0 {
          assert outs[k] == rest[k - 1];
        }
      }
      forall k | 0 <= k < n && g.fixedPtr + k >= |g.positions|
        ensures outs[k].Overflowed?
      {
        if k > 0 {
          assert outs[k] == rest[k - 1];
        }
      }
    }
  }

  /** In an open dynamic row of `cols` columns, `n` cells from the row's
      first cell land in columns `0, 1, ...` of the current row while there
      are columns left, and overflow afterwards. */
  lemma {:induction false} DynamicRowRun(g: OldGrid, n: nat)
    requires !Fixed(g) && g.rowCols > 0
    ensures var (last, outs) := OldCells(g, n);
      && |outs| == n
      && (forall k :: 0 <= k < n && g.rowCellIdx + k < g.rowCols ==>
            outs[k].Placed? && outs[k].row == g.currentRow && outs[k].col == g.rowCellIdx + k)
      && (forall k :: 0 <= k < n && g.rowCellIdx + k >= g.rowCols ==> outs[k].Overflowed?)
      && last.currentRow == g.currentRow && last.rowCols == g.rowCols
      && last.placed - g.placed == last.rowCellIdx - g.rowCellIdx
    decreases n
  {
    if n > 0 {
      var o := OldCell(g);
      var next := if o.Placed? then o.next else g;
      DynamicRowRun(next, n - 1);
      var outs := OldCells(g, n).1;
      var rest := OldCells(next, n - 1).1;
      assert outs == [o] + rest;
      forall k | 0 <= k < n && g.rowCellIdx + k < g.rowCols
        ensures outs[k].Placed? && outs[k].row == g.currentRow && outs[k].col == g.rowCellIdx + k
      {
        if k > 0 {
          assert outs[k] == rest[k - 1];
        }
      }
      forall k | 0 <= k < n && g.rowCellIdx + k >= g.rowCols
        ensures outs[k].Overflowed?
      {
        if k > 0 {
          assert outs[k] == rest[k - 1];
        }
      }
    }
  }

  /** A dynamic grid with no open row raises on `cell()`; a completed row
      leaves it so, one row further down. */
  lemma ClosedRowRaises(s: RowScope, n: int)
    requires s.isOpen && !Fixed(s.grid)
    ensures OldCell(RowExit(s)).NoOpenRow?
    ensures RowEnter(RowExit(s), n).Success? <==> n >= 1
    ensures n >= 1 ==> RowEnter(RowExit(s), n).value.grid.currentRow == s.grid.currentRow + 1
  {
  }

  /** On a fixed grid a `row(n)` block is transparent: its `k` cells are
      the next `k` cells of the grid, and leaving it keeps the controller
      those cells left. */
  lemma FixedRowPassesThrough(g: OldGrid, n: int, k: nat)
    requires Fixed(g)
    ensures RowEnter(g, n).Success?
    ensures var inner := OldCells(RowEnter(g, n).value.grid, k);
      && inner == OldCells(g, k)
      && RowExit(RowScope(inner.0, RowEnter(g, n).value.isOpen)) == inner.0
  {
  }

  // ---------------------------------------------------------------------
  // The two controllers compared

  /** For a matrix whose rows all have as many styles as the grid has
      columns, the old lookup by (row, column) and the newer lookup by cell
      ordinal pick the same style for every cell of the rectangle. */
  lemma ResolversAgree(m: seq<seq<Style>>, cols: nat, r: nat, c: nat, placed: nat)
    requires forall k :: 0 <= k < |m| ==> |m[k]| == cols
    requires r < |m| && c < cols
    ensures ResolveOld(CellMatrix(m), r, c, placed) == ResolveFlow(CellMatrix(m), r * cols + c)
    ensures ResolveOld(CellsOfGrid(m), r, c, placed) == ResolveFlow(CellsOfGrid(m), r * cols + c)
  {
    FlowMatrixPlacement(m, cols, r, c, 0);
  }

  /** With a flat list the old controller counts placed cells exactly as the
      newer one counts opened cells. */
  lemma FlatListsAgree(xs: seq<Style>, r: nat, c: nat, placed: nat)
    ensures ResolveOld(CellList(xs), r, c, placed) == ResolveFlow(CellList(xs), placed)
  {
  }
}
