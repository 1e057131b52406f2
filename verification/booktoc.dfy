/** The package-level table of contents of streamtex/__init__.py: the global
    `StreamTeX_ToC` that `st_book` places among the blocks and clears after
    each rendering, and the numbering helpers of the HTML table-of-contents
    parser. */
module BookToc {
  import opened Text
  import opened Results
  import opened Toc

  // ---------------------------------------------------------------------
  // StreamTeX_ToC

  /** `StreamTeX_ToC`: the same registration state as the registry (entries,
      level cursor, counters, numbering switch) plus the position of the
      table of contents among the book's blocks, where `None` leaves it out. */
  datatype Book = Book(registry: Registry, tocIndex: Option<int>)

  /** The module-level `toc`: no entries, titles not numbered, table of
      contents at the end (`-1`). */
  const GlobalBook: Book := Book(NewRegistry(TocConfig(false)), Some(-1))

  /** `add_section(level, title)`. Its steps are those of `register_entry`
      with the numbering switch of the book; the position is untouched. */
  function AddSection(b: Book, level: string, title: string): (r: (Book, string, string))
    requires ValidLevelSpec(level)
    ensures r.0.tocIndex == b.tocIndex
    ensures var res := ResolveLevel(b.registry.cursor, level);
      && r.0.registry.config == b.registry.config
      && r.0.registry.cursor == res.cursor
      && r.0.registry.numbers == NextNumbers(b.registry.numbers, res.level)
    ensures var n := r.0.registry.numbers;
      && |n| == ResolveLevel(b.registry.cursor, level).level
      && r.1 == KeyAnchor(SectionNumber(n) + title)
      && r.2 == (if b.registry.config.numerateTitles then SectionNumber(n) else "")
    ensures r.0.registry.entries == b.registry.entries + [Entry(|r.0.registry.numbers|, r.2 + title, r.1)]
  {
    var out := Register(b.registry, title, level);
    assert out.registry.entries == b.registry.entries + [out.registry.entries[|b.registry.entries|]];
    (Book(out.registry, b.tocIndex), out.anchor, out.prefix)
  }

  /** Each section added to the book is numbered strictly after the
      previous one, whatever its level. */
  lemma AddSectionIncreases(b: Book, level: string, title: string)
    requires ValidLevelSpec(level)
    ensures LexLess(b.registry.numbers, AddSection(b, level, title).0.registry.numbers)
  {
    NumbersIncrease(b.registry.numbers, ResolveLevel(b.registry.cursor, level).level);
  }

  /** The position `st_book` uses: a negative or too large index puts the
      table of contents after the last of the `blocks` blocks, and `None`
      stays `None`. */
  function ClampTocIndex(index: Option<int>, blocks: nat): (r: Option<int>)
    ensures r.None? <==> index.None?
    ensures r.Some? ==> 0 <= r.value <= blocks
    ensures index.Some? && 0 <= index.value < blocks ==> r == index
    ensures index.Some? && (index.value < 0 || index.value >= blocks) ==> r == Some(blocks)
  {
    match index
    case None => None
    case Some(i) => if i < 0 || i >= blocks then Some(blocks) else Some(i)
  }

  /** Clamping a clamped position changes nothing, so rendering the same
      book twice places the table of contents at the same block. */
  lemma ClampIdempotent(index: Option<int>, blocks: nat)
    ensures ClampTocIndex(ClampTocIndex(index, blocks), blocks) == ClampTocIndex(index, blocks)
  {
  }

  /** The state `st_book` leaves behind: the clamped position is kept, and
      entries, cursor and counters are cleared for the next rendering. */
  function RenderBook(b: Book, blocks: nat): (r: Book)
    ensures r.tocIndex == ClampTocIndex(b.tocIndex, blocks)
    ensures r.registry == NewRegistry(b.registry.config)
  {
    Book(Reset(b.registry), ClampTocIndex(b.tocIndex, blocks))
  }

  /** Rendering twice leaves the same state as rendering once: sections added
      during one rendering never leak into the next one's numbering. */
  lemma RenderBookTwice(b: Book, blocks: nat, title: string)
    ensures RenderBook(RenderBook(b, blocks), blocks) == RenderBook(b, blocks)
    ensures AddSection(RenderBook(b, blocks), "1", title).0.registry.numbers == [1]
  {
    ClampIdempotent(b.tocIndex, blocks);
  }

  // ---------------------------------------------------------------------
  // Numbering of the HTML table-of-contents parser

  /** `numbering` extended with zeros to `n` counters (unchanged when it is
      already that long). */
  function PadZeros(numbering: seq<nat>, n: nat): (r: seq<nat>)
    ensures |r| == if |numbering| >= n then |numbering| else n
    ensures forall i :: 0 <= i < |r| ==> r[i] == (if i < |numbering| then numbering[i] else 0)
    decreases n - |numbering|
  {
    if |numbering| >= n then numbering else PadZeros(numbering + [0], n)
  }

  /** `adjust_level` as written: a deeper level pads the counters to
      `level - 1`, any other level truncates them to `level - 1`. */
  function AdjustLevel(level: nat, numbering: seq<nat>): (r: seq<nat>)
    requires level >= 1
    ensures |r| == level - 1
    ensures forall i :: 0 <= i < |r| ==> r[i] == (if i < |numbering| then numbering[i] else 0)
  {
    if level > |numbering| then PadZeros(numbering, level - 1) else numbering[..level - 1]
  }

  /** `update_numbering`: pad to `level - 1`; at exactly `level - 1` counters
      a new counter 1 is opened, otherwise the last counter is incremented. */
  function UpdateNumbering(level: nat, numbering: seq<nat>): (r: seq<nat>)
    requires level >= 1
    ensures |numbering| <= level - 1 ==>
      (|r| == level && r[level - 1] == 1
       && forall i :: 0 <= i < level - 1 ==> r[i] == (if i < |numbering| then numbering[i] else 0))
    ensures |numbering| > level - 1 ==>
      (|r| == |numbering| && r[..|r| - 1] == numbering[..|numbering| - 1]
       && r[|r| - 1] == numbering[|numbering| - 1] + 1)
  {
    var padded := PadZeros(numbering, level - 1);
    if |padded| == level - 1 then padded + [1]
    else padded[..|padded| - 1] + [padded[|padded| - 1] + 1]
  }

  /** One entry of the parser as written: adjust, then update. */
  function HtmlStep(numbering: seq<nat>, level: nat): seq<nat>
    requires level >= 1
  {
    UpdateNumbering(level, AdjustLevel(level, numbering))
  }

  /** As written, every entry's own counter is 1: the adjustment always
      leaves `level - 1` counters, so the update always opens a new one. */
  lemma HtmlStepEndsInOne(numbering: seq<nat>, level: nat)
    requires level >= 1
    ensures |HtmlStep(numbering, level)| == level
    ensures HtmlStep(numbering, level)[level - 1] == 1
  {
  }

  /** Consequently two consecutive entries at the same level get the same
      number: the second sibling repeats the first one's. */
  lemma HtmlSiblingsRepeat(numbering: seq<nat>, level: nat)
    requires level >= 1
    ensures HtmlStep(HtmlStep(numbering, level), level) == HtmlStep(numbering, level)
  {
    var once := HtmlStep(numbering, level);
    var twice := HtmlStep(once, level);
    assert forall i :: 0 <= i < level ==> twice[i] == once[i];
  }

  /** Concretely, the two top-level sections `toc1_a` and `toc1_b` are both
      numbered "1". */
  lemma HtmlTwoChaptersBothOne()
    ensures HtmlStep([], 1) == [1]
    ensures HtmlStep(HtmlStep([], 1), 1) == [1]
  {
    HtmlSiblingsRepeat([], 1);
  }

  /** The intended adjustment: keep the counters down to `level` itself, so
      that the update increments the entry's own counter when it exists. */
  function AdjustLevelFixed(level: nat, numbering: seq<nat>): (r: seq<nat>)
    requires level >= 1
    ensures |numbering| < level ==> |r| == level - 1
    ensures |numbering| >= level ==> r == numbering[..level]
  {
    if level > |numbering| then PadZeros(numbering, level - 1) else numbering[..level]
  }

  function HtmlStepFixed(numbering: seq<nat>, level: nat): seq<nat>
    requires level >= 1
  {
    UpdateNumbering(level, AdjustLevelFixed(level, numbering))
  }

  /** With the intended adjustment the parser numbers entries exactly as
      the registry does. */
  lemma HtmlStepFixedAgrees(numbering: seq<nat>, level: nat)
    requires level >= 1
    ensures HtmlStepFixed(numbering, level) == NextNumbers(numbering, level)
  {
    var a := HtmlStepFixed(numbering, level);
    var b := NextNumbers(numbering, level);
    assert |a| == |b|;
    assert forall i :: 0 <= i < level ==> a[i] == b[i];
  }

  /** ... and therefore two consecutive siblings get different numbers. */
  lemma HtmlSiblingsFixedDiffer(numbering: seq<nat>, level: nat)
    requires level >= 1
    ensures HtmlStepFixed(HtmlStepFixed(numbering, level), level) != HtmlStepFixed(numbering, level)
  {
    var once := HtmlStepFixed(numbering, level);
    HtmlStepFixedAgrees(numbering, level);
    HtmlStepFixedAgrees(once, level);
    NumbersIncrease(once, level);
    LexLessIrreflexive(once);
  }

  /** Level resolution of the parser: like the registry's, except that the
      cursor follows every entry, relative or not. */
  function HtmlResolve(cursor: int, spec: string): (r: Resolution)
    requires ValidLevelSpec(spec)
    ensures r.level >= 1 && r.cursor == r.level
    ensures r.level == ResolveLevel(cursor, spec).level
  {
    var v := if IsRelative(spec) then cursor + SpecValue(spec) else SpecValue(spec);
    var level := Max(v, 1);
    Resolution(level, level)
  }
}
