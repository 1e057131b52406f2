/** Concrete runs of the model: the numbering a typical document gets, a
    reversed range of cells, and the two grid controllers reading the same
    style matrix differently when its width is not the grid's. */
module Scenarios {
  import opened Text
  import opened Results
  import opened Styles
  import opened StyleGrids
  import opened Toc
  import opened Tables
  import opened GridFlow
  import opened GridOld

  /** The level specs of the run and their values. */
  lemma Specs()
    ensures ValidLevelSpec("1") && !IsRelative("1") && SpecValue("1") == 1
    ensures ValidLevelSpec("+1") && IsRelative("+1") && SpecValue("+1") == 1
    ensures ValidLevelSpec("-1") && IsRelative("-1") && SpecValue("-1") == -1
  {
    assert "+1"[1..] == "1" && "-1"[1..] == "1";
    assert "1"[..0] == [];
    assert ParseDigits("1") == ParseDigits([]) * 10 + DigitValue('1');
  }

  /** One registration of the run: the counters and cursor it leaves. */
  lemma Step(reg: Registry, spec: string, numbers: seq<nat>, cursor: int)
    requires ValidLevelSpec(spec)
    requires var res := ResolveLevel(reg.cursor, spec);
      NextNumbers(reg.numbers, res.level) == numbers && res.cursor == cursor
    ensures Advance(reg, spec).numbers == numbers
    ensures Advance(reg, spec).cursor == cursor
  {
  }

  /** A run is its first registration's counters followed by the rest of
      the run from there. */
  lemma RunStep(reg: Registry, specs: seq<string>)
    requires |specs| >= 1
    requires forall k :: 0 <= k < |specs| ==> ValidLevelSpec(specs[k])
    ensures NumbersRun(reg, specs)
         == [Advance(reg, specs[0]).numbers] + NumbersRun(Advance(reg, specs[0]), specs[1..])
  {
  }

  /** The last registration of the run, from the second chapter. */
  lemma RunFromSecondChapter(reg: Registry)
    requires reg.numbers == [2] && reg.cursor == 1
    ensures NumbersRun(reg, ["+1"]) == [[2, 1]]
  {
    Specs();
    Step(reg, "+1", [2, 1], 1);
    RunStep(reg, ["+1"]);
    assert ["+1"][1..] == [];
  }

  lemma RunFromSecondSection(reg: Registry)
    requires reg.numbers == [1, 2] && reg.cursor == 1
    ensures NumbersRun(reg, ["-1", "+1"]) == [[2], [2, 1]]
  {
    Specs();
    Step(reg, "-1", [2], 1);
    RunFromSecondChapter(Advance(reg, "-1"));
    RunStep(reg, ["-1", "+1"]);
    assert ["-1", "+1"][1..] == ["+1"];
  }

  lemma RunFromFirstSection(reg: Registry)
    requires reg.numbers == [1, 1] && reg.cursor == 1
    ensures NumbersRun(reg, ["+1", "-1", "+1"]) == [[1, 2], [2], [2, 1]]
  {
    Specs();
    Step(reg, "+1", [1, 2], 1);
    RunFromSecondSection(Advance(reg, "+1"));
    RunStep(reg, ["+1", "-1", "+1"]);
    assert ["+1", "-1", "+1"][1..] == ["-1", "+1"];
  }

  lemma RunFromFirstChapter(reg: Registry)
    requires reg.numbers == [1] && reg.cursor == 1
    ensures NumbersRun(reg, ["+1", "+1", "-1", "+1"]) == [[1, 1], [1, 2], [2], [2, 1]]
  {
    Specs();
    Step(reg, "+1", [1, 1], 1);
    RunFromFirstSection(Advance(reg, "+1"));
    RunStep(reg, ["+1", "+1", "-1", "+1"]);
    assert ["+1", "+1", "-1", "+1"][1..] == ["+1", "-1", "+1"];
  }

  /** Chapter, two sections, next chapter, its first section, from a fresh
      or reset registry: relative levels are taken from the cursor the last
      absolute level set. */
  lemma TocNumbering(reg: Registry)
    requires reg.numbers == [] && reg.cursor == 1
    ensures NumbersRun(reg, ["1", "+1", "+1", "-1", "+1"]) == [[1], [1, 1], [1, 2], [2], [2, 1]]
  {
    Specs();
    Step(reg, "1", [1], 1);
    RunFromFirstChapter(Advance(reg, "1"));
    RunStep(reg, ["1", "+1", "+1", "-1", "+1"]);
    assert ["1", "+1", "+1", "-1", "+1"][1..] == ["+1", "+1", "-1", "+1"];
  }

  /** `+0` after a chapter and a section stays at the cursor's level, which
      the section did not move: it is the next chapter, not a sibling of the
      section. */
  lemma PlusZeroIsChapter(reg: Registry)
    requires reg.numbers == [1, 1] && reg.cursor == 1
    ensures Register(reg, "", "+0").registry.numbers == [2]
    ensures SectionNumber(Register(reg, "", "+0").registry.numbers) == "2 "
  {
    assert "+0"[1..] == "0";
    assert "0"[..0] == [];
    assert ParseDigits("0") == ParseDigits([]) * 10 + DigitValue('0');
    assert ValidLevelSpec("+0") && IsRelative("+0") && SpecValue("+0") == 0;
    Step(reg, "+0", [2], 1);
    RegisterAdvances(reg, "", "+0");
    assert NumberStrings([2]) == [NatToString(2)] + NumberStrings([]);
    assert NatToString(2) == "2";
  }

  /** A range named from its lower-right corner covers the same four cells,
      row by row. */
  lemma ReversedRange()
    ensures ParseCells(CellName(1, 1) + ":" + CellName(0, 0))
         == Success([CellRef(0, 0), CellRef(0, 1), CellRef(1, 0), CellRef(1, 1)])
  {
    ParseRange(1, 1, 0, 0);
    assert StyleGrids.Min(1, 0) == 0 && StyleGrids.Max(1, 0) == 1;
    SquareOfTwo();
  }

  lemma SquareOfTwo()
    ensures Expand(0, 1, 0, 1) == [CellRef(0, 0), CellRef(0, 1), CellRef(1, 0), CellRef(1, 1)]
  {
    ExpandRowsOfTwo(0);
    ExpandRowsOfTwo(1);
    assert Expand(2, 1, 0, 1) == [];
    assert Expand(1, 1, 0, 1) == ExpandRow(1, 0, 1) + [];
    assert Expand(0, 1, 0, 1) == ExpandRow(0, 0, 1) + Expand(1, 1, 0, 1);
  }

  lemma ExpandRowsOfTwo(row: int)
    ensures ExpandRow(row, 0, 1) == [CellRef(row, 0), CellRef(row, 1)]
  {
    assert ExpandRow(row, 1, 1) == [CellRef(row, 1)] + ExpandRow(row, 2, 1);
  }

  /** A 2 by 3 style matrix in a two-column grid: the CSS grid gives the
      first cell of the second row the third style of the first row, while
      the older controller gives it the first style of the second row. */
  lemma ControllersDisagree(a: Style, b: Style, c: Style, d: Style, e: Style, f: Style)
    ensures ResolveFlow(CellMatrix([[a, b, c], [d, e, f]]), 1 * 2 + 0) == c
    ensures ResolveOld(CellMatrix([[a, b, c], [d, e, f]]), 1, 0, 2) == d
  {
    var m := [[a, b, c], [d, e, f]];
    FlowMatrixPlacement(m, 3, 0, 2, 0);
  }

  /** A cell that starts with a digit, has no digits, has letters after its
      digits or a space inside is not a cell reference. */
  lemma MalformedCells()
    ensures CellToIndices("1A").Failure?
    ensures CellToIndices("A").Failure?
    ensures CellToIndices("A1B").Failure?
    ensures CellToIndices("A 1").Failure?
  {
    if CellToIndices("1A").Success? {
      ParsedShape("1A");
    }
    if CellToIndices("A").Success? {
      ParsedShape("A");
    }
    if CellToIndices("A1B").Success? {
      ParsedShape("A1B");
    }
    if CellToIndices("A 1").Success? {
      ParsedShape("A 1");
    }
  }
}
