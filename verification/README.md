# streamtex style and outline engine, in Dafny

streamtex builds Streamlit pages from Python "blocks". Under the rendering
layer sits a small, deterministic engine, and this project models it.

- **Styles.** A `Style` is a CSS text with an id. It renders through a global
  theme map. Styles compose with `+` and `-`, and `ListStyle` adds cyclic
  bullet symbols. `StyleGrid` is a matrix of styles with elementwise algebra
  and A1-style cell ranges.
- **Table of contents.** A registry numbers headings from level specs (`1`,
  `+1`, `-1`) and derives anchors from the numbered titles. There is a
  duplicate in the package's `StreamTeX_ToC`, and an older numbering helper
  for rendered HTML.
- **Cell styles.** Tables and grids normalise a style source per cell: a
  single style, a flat list, a matrix or a `StyleGrid`. There are two grid
  controllers: the CSS-grid one and the older row/cell cursor one.
- **Lists.** The bullet of a nested list is an ordered counter, a cycled
  symbol, or a disc, circle or square. Item styles and the HTML of `st_list`
  are modelled too.
- **Text and links.** This covers `st_write`'s argument parsing and
  table-of-contents hook, link wrapping, tag stripping, MIME and URL
  classification, and the positioning CSS of overlays.

The theme is an explicit `map<string, string>` parameter (`Styles.Render`).
The global registry of `streamtex/toc.py` is an explicit `Toc.TocGlobal`
value that the operations take and return. Python exceptions become `Result`
failures.

Files, one module each:
- `results.dfy`: `Option` and `Result`.
- `text.dfy`: Python string helpers (`strip`, `split`, `join`, ASCII case, digits).
- `css.dfy`: `add_css` and `remove_css`, read back as declaration lists.
- `styles.dfy`: `Style`, `ListStyle` and the theme.
- `stylegrid.dfy`: `StyleGrid`.
- `toc.dfy`: `TOCRegistry` and its global.
- `booktoc.dfy`: the package's `StreamTeX_ToC`, the index clamp of `st_book`, and the HTML numbering helpers.
- `tables.dfy`: `st_table` and `st_grid` of the package.
- `gridflow.dfy`: `streamtex/grid.py`.
- `gridold.dfy`: `streamtex/grid_old.py`.
- `lists.dfy`: `list.py`, `list_old.py` and the package's `st_list`.
- `links.dfy`: `streamtex/utils.py`.
- `overlay.dfy`: `streamtex/overlay.py`.
- `write.dfy`: `streamtex/write.py`.
- `scenarios.dfy`: concrete runs.

## Model

| member | source | states |
|---|---|---|
| Css.AddCss | streamtex_package/src/streamtex/styles.py:12-19 | An empty side is the identity. Otherwise the declarations of the result are those of the left operand followed by those of the right. |
| Css.AddCssAssociative | streamtex_package/src/streamtex/styles.py:12-19 | Joining three CSS texts gives the same text whichever pair is joined first. |
| Css.PropsJoin | streamtex_package/src/streamtex/styles.py:19 | Joining with `"; "` concatenates the declaration lists of the two sides. |
| Css.PropsOfJoin | streamtex_package/src/streamtex/styles.py:45-48 | Clean declarations joined with `"; "` read back as exactly those declarations. |
| Css.RemoveCss | streamtex_package/src/streamtex/styles.py:21-48 | The result keeps, in order, the trimmed fragments of the left text whose property is not named on the right. Colon-less fragments are always kept. |
| Css.RemoveCssMembers | streamtex_package/src/streamtex/styles.py:21-48 | A declaration survives if and only if it was in the left text and its property is not named on the right. |
| Css.RemoveCssIdempotent | streamtex_package/src/streamtex/styles.py:21-48 | Removing the same properties twice changes nothing more. |
| Css.KeptAppend | streamtex_package/src/streamtex/styles.py:36-43 | Filtering distributes over concatenation, so the order of the kept declarations is preserved. |
| Styles.TruthyIffNotBlank | streamtex_package/src/streamtex/styles.py:115-124 | A style is falsy exactly when its theme-rendered text is blank. |
| Styles.Plus | streamtex_package/src/streamtex/styles.py:64-81 | The CSS is the rendered left followed by the rendered right. The id is the left id, a space and the operand's id (a raw string's with spaces and semicolons removed), stripped. A list style keeps its kind and concatenates the symbols of a list-style operand. |
| Styles.IdsJoin | streamtex_package/src/streamtex/styles.py:64-105 | For non-empty ids without surrounding whitespace, `+` gives exactly `left right` and `-` gives exactly `left-right`. |
| Styles.RPlus | streamtex_package/src/streamtex/styles.py:82-90 | A string on the left comes first in the CSS, and its cleaned text comes first in the id, joined by a space. The style's kind and symbols are kept. |
| Styles.ReflectedIdsJoin | streamtex_package/src/streamtex/styles.py:82-113 | With a string on the left, the ids read exactly `string style` for `+` and `string-style` for `-`. |
| Styles.Minus | streamtex_package/src/streamtex/styles.py:91-105 | The CSS drops the declarations the rendered right operand names, and the id is the two ids joined by `-`, stripped. A list style's symbols lose, for each symbol, as many first occurrences as the right-hand list names, and the rest keep their order. |
| Styles.RMinus | streamtex_package/src/streamtex/styles.py:106-113 | A string minus a style keeps the string's declarations that the style does not name. The id is the cleaned string, `-` and the style's id, stripped. |
| Styles.MinusRemovesNamed | streamtex_package/src/streamtex/styles.py:91-105 | Every declaration left after subtraction was in the left operand, and its property is not named by the right. |
| Styles.MinusIdempotent | streamtex_package/src/streamtex/styles.py:91-105 | Subtracting the same operand twice gives the declarations of subtracting it once. |
| Styles.PlusAssociative | streamtex_package/src/streamtex/styles.py:64-81 | Adding three styles gives the same CSS whichever pair is added first. |
| Styles.RemoveFirst | streamtex_package/src/streamtex/styles.py:184-186 | `list.remove` drops the first occurrence of the symbol and keeps everything before and after it in order. An absent symbol changes nothing. |
| Styles.RemoveEach | streamtex_package/src/streamtex/styles.py:175-197 | Removing one first occurrence per right-hand symbol leaves the multiset difference of the symbol lists. |
| Styles.RemoveEachDrops | streamtex_package/src/streamtex/styles.py:182-186 | The loop equals an order-keeping scan that drops, for each symbol, as many of its first occurrences as the right-hand list names. |
| Styles.MakeListStyle | streamtex_package/src/streamtex/styles.py:131-136 | Without symbols a list style gets the one default symbol. Otherwise it gets the given list. |
| Styles.Lvl | streamtex_package/src/streamtex/styles.py:206-213 | `lvl` is defined exactly when there are symbols, and it names one of them. |
| Styles.LvlInRange | streamtex_package/src/streamtex/styles.py:206-213 | Within the first round, level `n` uses the `n`-th symbol. |
| Styles.LvlPeriodic | streamtex_package/src/streamtex/styles.py:206-213 | Levels `n` and `n + |symbols|` give the same declaration. |
| StyleGrids.Combine | streamtex_package/src/streamtex/styles.py:284-316 | The result spans the larger row count and the larger width. A cell is combined from both operands where the right one has it, and is the left one's cell otherwise. |
| StyleGrids.MulIdempotent | streamtex_package/src/streamtex/styles.py:266-275 | Overriding a rectangular grid with itself gives the grid back. |
| StyleGrids.CombineEmpty | streamtex_package/src/streamtex/styles.py:284-309 | Combining with an empty grid leaves a rectangular grid unchanged. |
| StyleGrids.MulFalsyKeepsLeft | streamtex_package/src/streamtex/styles.py:266-275 | When every cell on the right is falsy, the override keeps the left cell, or `none` outside it. |
| StyleGrids.ColumnRoundTrip | streamtex_package/src/streamtex/styles.py:387-398 | The letters of a column index decode back to that index. |
| StyleGrids.ColumnLettersOfIndex | streamtex_package/src/streamtex/styles.py:387-398 | Upper-case column letters are the letters of their decoded index, so the decoding is a bijection. |
| StyleGrids.ColumnIndexIgnoresCase | streamtex_package/src/streamtex/styles.py:387-398 | Lower-case letters decode like upper-case ones. |
| StyleGrids.CellToIndices | streamtex_package/src/streamtex/styles.py:374-386 | A cell that does not parse raises `ValueError` naming the cell, and so does the empty cell. A parsed row is never below -1. |
| StyleGrids.PartsOfCell | streamtex_package/src/streamtex/styles.py:374-386 | A cell that parses is ASCII letters then ASCII digits, optionally followed by the one newline `$` accepts. The row is the number minus one, and the column comes from the letters. |
| StyleGrids.CellOfParts | streamtex_package/src/streamtex/styles.py:374-386 | Conversely, every string of letters then digits parses, with or without a final newline, to row = number − 1 and column = the letters' index, so a cell parses exactly when it has that shape. |
| StyleGrids.ParsedShape | streamtex_package/src/streamtex/styles.py:378-380 | A cell that parses starts with a letter, ends with a digit or the newline, and holds only letters and digits before its last character. |
| StyleGrids.CellNameRoundTrip | streamtex_package/src/streamtex/styles.py:374-386 | The name of every position parses back to that position. |
| StyleGrids.ExpandMembers | streamtex_package/src/streamtex/styles.py:357-362 | A range contains exactly the cells within its row and column bounds. |
| StyleGrids.ExpandOrdered | streamtex_package/src/streamtex/styles.py:357-362 | A range lists its cells in row-major order. |
| StyleGrids.ExpandLength | streamtex_package/src/streamtex/styles.py:357-362 | A range holds rows times columns cells. |
| StyleGrids.ParseRange | streamtex_package/src/streamtex/styles.py:346-372 | A range named by any two corners covers the rectangle between them. |
| StyleGrids.ParseComma | streamtex_package/src/streamtex/styles.py:346-372 | A comma-separated list gives the cells of each part in order, or the first error. |
| StyleGrids.Create | streamtex_package/src/streamtex/styles.py:318-345 | A parse error is propagated. Otherwise the grid is rectangular and sized by the larger of the given size and the largest index plus one. Exactly the listed cells hold the style, and every other cell is `none`. |
| Toc.ResolveLevel | streamtex/toc.py:57-64 | A relative spec adds to the cursor and leaves it alone. An absolute spec moves the cursor to the level. The level is never below 1. |
| Toc.NextNumbers | streamtex/toc.py:66-74 | After registering at level L the stack has exactly L counters. Those above L are kept, zero-padded, and the last is incremented. |
| Toc.NumbersIncrease | streamtex/toc.py:66-74 | Each registration moves the counter stack strictly forward in lexicographic order. |
| Toc.NumbersRunIncreasing | streamtex/toc.py:51-93 | In any run of registrations, later counter stacks come strictly after earlier ones. |
| Toc.RunSectionNumbersDistinct | streamtex/toc.py:76-78 | No two headings registered in one run get the same section number. |
| Toc.SectionNumberInjective | streamtex/toc.py:76-78 | Different counter stacks print different section numbers. |
| Toc.KeyAnchor | streamtex/toc.py:95-98 | The anchor is as long as the title, has no dot, space or upper-case letter, and lowercases every other character. |
| Toc.KeyAnchorIdempotent | streamtex/toc.py:95-98 | An anchor is its own anchor. |
| Toc.Register | streamtex/toc.py:51-93 | The entry appended holds the level, the numbered or plain title and the anchor of the numbered title. The prefix is empty when numbering is off. |
| Toc.Reset | streamtex/toc.py:45-49 | A reset keeps the configuration and otherwise returns to the fresh registry. |
| Toc.ResetTocRegistry | streamtex/toc.py:101-107 | An existing registry is reset in place with its configuration. One is created only when none exists and a configuration is given. |
| Toc.RegisterTocEntry | streamtex/toc.py:109-118 | Registering fails exactly when no registry exists. Otherwise it is the registry's own registration. |
| Toc.TocEntries | streamtex/toc.py:120-125 | Reading entries fails exactly when no registry exists. |
| BookToc.AddSection | streamtex_package/src/streamtex/__init__.py:280-315 | `add_section` resolves the level against the cursor, sets the cursor to an absolute level and keeps it on a relative one, and advances the counters to that level. The numbering switch and the table-of-contents position are untouched. The new entry carries the level, the anchor of the numbered title, and the title numbered iff `numerate_title`. |
| BookToc.AddSectionIncreases | streamtex_package/src/streamtex/__init__.py:280-315 | Each added section's counters come strictly after the previous ones in lexicographic order, at any level. |
| BookToc.ClampTocIndex | streamtex_package/src/streamtex/__init__.py:406-407 | An index outside the block list becomes the block count. Other indices are kept. |
| BookToc.RenderBook | streamtex_package/src/streamtex/__init__.py:471-473 | After rendering, the entries, cursor and counters are cleared, and the index is clamped. |
| BookToc.RenderBookTwice | streamtex_package/src/streamtex/__init__.py:406-473 | Rendering twice is rendering once, and the next section after a render is numbered 1. |
| BookToc.AdjustLevel | streamtex_package/src/streamtex/__init__.py:494-503 | The numbering is always cut or padded to `level - 1` counters. |
| BookToc.UpdateNumbering | streamtex_package/src/streamtex/__init__.py:505-514 | It pads to `level - 1`, then appends 1 when exactly that long, and otherwise increments the last counter. |
| BookToc.HtmlSiblingsRepeat | streamtex_package/src/streamtex/__init__.py:544-545 | As written, a second heading at the same level gets the same number as the first. |
| BookToc.HtmlTwoChaptersBothOne | streamtex_package/src/streamtex/__init__.py:544-545 | As written, two chapters in a row are both numbered 1. |
| BookToc.HtmlStepFixedAgrees | streamtex_package/src/streamtex/__init__.py:494-514 | With the cut kept at `level` counters, a step numbers like the registry does. |
| BookToc.HtmlSiblingsFixedDiffer | streamtex_package/src/streamtex/__init__.py:494-514 | With that correction, sibling headings get different numbers. |
| BookToc.HtmlResolve | streamtex_package/src/streamtex/__init__.py:534-542 | The helper resolves levels like the registry but also moves its cursor on relative specs. |
| Tables.Fit | streamtex_package/src/streamtex/__init__.py:762-801 | Padding with the fill value or truncating gives exactly `n` elements, the first ones taken from the input. |
| Tables.FlattenAt | streamtex_package/src/streamtex/__init__.py:716-721 | In a matrix of equal rows, element `(i, j)` lands at position `i * cols + j` of the row-major flattening. |
| Tables.LayoutOf | streamtex_package/src/streamtex/__init__.py:711-721 | Without a positive size, the shape is inferred from the block matrix. The content always holds exactly rows times columns blocks, and a flat list without a size is an error. |
| Tables.MatrixPlacement | streamtex_package/src/streamtex/__init__.py:711-721 | In an inferred layout, block `(i, j)` of the matrix is the content at `i * cols + j`. |
| Tables.FlatPlacement | streamtex_package/src/streamtex/__init__.py:803-810 | In a sized layout, a flat list is laid out row-major and padded with empty blocks. |
| Tables.RowStyles | streamtex_package/src/streamtex/__init__.py:728-760 | There is one row style per row: the repeated style, the first cell of each grid row, or the list padded with `none`. |
| Tables.CellStyles | streamtex_package/src/streamtex/__init__.py:762-801 | There is always exactly one cell style per cell. |
| Tables.CellStylePlacement | streamtex_package/src/streamtex/__init__.py:762-801 | Cell `(i, j)` gets the repeated style, the grid's cell in bounds or `none`, the matrix's flattened entry, or the padded list's entry. |
| Tables.StTable | streamtex_package/src/streamtex/__init__.py:680-822 | It fails exactly when the layout does. Otherwise the table has one row per layout row, each with `cols` cells in row-major order, and raw CSS is used. |
| Tables.BuildTable | streamtex_package/src/streamtex/__init__.py:803-820 | The loop builds exactly the table the row-by-row definition describes. |
| Tables.StGrid | streamtex_package/src/streamtex/__init__.py:824-929 | It fails exactly when the layout does. Otherwise it is a CSS grid of `cols` columns with one styled div per cell. |
| GridFlow.ColumnCount | streamtex/grid.py:17-21 | An integer is the count. A template counts one column more than it has spaces. |
| GridFlow.TemplateColumns | streamtex/grid.py:17-21 | The template written for `n` columns reads back as `n` columns. |
| GridFlow.FlowMatrixPlacement | streamtex/grid.py:34-52 | A matrix or `StyleGrid` is read by cell ordinal over its row-major flattening, whatever the grid's own column count. Past the end, the style is `none`. |
| GridFlow.FlowListPlacement | streamtex/grid.py:44-55 | A flat list is read by ordinal, and a missing entry is `none`. |
| GridFlow.FlowCell | streamtex/grid.py:58-72 | Each cell raises the counter by exactly one, and its style starts with the fill declarations. |
| GridFlow.FlowCellsRun | streamtex/grid.py:58-72 | The k-th of n cells gets the style of ordinal `counter + k`, and the counter rises by n. |
| GridOld.FixedPositionsShape | streamtex/grid_old.py:33-38 | The fixed positions are all `rows * cols` in-bound cells, each once, in row-major order. |
| GridOld.NewOldGrid | streamtex/grid_old.py:11-38 | Positions are generated only when both sizes are given and there is at least one row; zero rows leave a dynamic grid. Every cursor starts at 0. |
| GridOld.ResolveOld | streamtex/grid_old.py:86-132 | A style is returned as is. A grid or matrix is read at `(r, c)` when in bounds, and `none` otherwise. |
| GridOld.OldCell | streamtex/grid_old.py:134-201 | A fixed grid places at its next position or overflows past the end. A dynamic grid places at (row, index) or overflows past the row's width, and raises with no open row. The counter rises only when a cell is placed. |
| GridOld.RowEnter | streamtex/grid_old.py:204-216 | `row()` raises exactly on a dynamic grid with a column count below 1, as `st.columns` does. On a fixed grid it only shows an error and yields the unchanged controller, opening nothing. Otherwise it opens a row of n columns at index 0. |
| GridOld.ClosedRowRaises | streamtex/grid_old.py:204-224 | After a dynamic row closes, `cell()` raises until the next `row(n)`. That call succeeds exactly for a positive n and opens the next row index. |
| GridOld.FixedRowPassesThrough | streamtex/grid_old.py:209-212 | On a fixed grid a `row(n)` block is transparent: its cells are the grid's next cells, taking the next fixed positions, and leaving it changes nothing. |
| GridOld.RowExit | streamtex/grid_old.py:209-222 | Leaving an opened row moves to the next row and closes the columns; leaving the block on a fixed grid changes nothing. |
| GridOld.FixedRun | streamtex/grid_old.py:144-152 | Successive cells of a fixed grid consume the positions in order, and then overflow. |
| GridOld.DynamicRowRun | streamtex/grid_old.py:154-164 | Successive cells in an open row are placed at consecutive columns of that row, and then overflow. |
| GridOld.ResolversAgree | streamtex/grid_old.py:86-132 | For a rectangular matrix, the old lookup at `(r, c)` is the new lookup at ordinal `r * cols + c`. |
| Lists.SiblingsShareLevel | streamtex/list.py:127-129 | The nesting level is restored after each list, so sibling lists are bulleted at the same level. |
| Lists.SearchLeftmost | streamtex/list.py:137-142 | The ordered counter style found is the value of the leftmost `list-style-type` declaration. |
| Lists.CounterStyleOfDeclaration | streamtex/list.py:137-142 | A style that starts with a `list-style-type` declaration gives its value. |
| Lists.UnorderedBulletMatchesLvl | streamtex/list.py:144-147 | The symbol of an unordered list is the one `ListStyle.lvl` picks for the level. |
| Lists.BulletPeriodic | streamtex/list.py:144-147 | Bullets of a list style repeat every `|symbols|` levels. |
| Lists.LowerAlphaBullet | streamtex/list.py:137-142 | An ordered list styled `lower-alpha` counts in lower-case letters. |
| Lists.OldBulletAgrees | streamtex/list_old.py:85-104 | The old controller bullets unordered lists like the new one, but its ordered bullet ignores the counter style. |
| Lists.ItemStyle | streamtex/list.py:20-27 | An item adds its own style to the list's item style only when that style is truthy. |
| Lists.CounterIncrement | streamtex/list.py:42 | The counter is incremented exactly for ordered lists. |
| Lists.OldCounterAgrees | streamtex/list_old.py:39 | list_old.py increments the counter for every item; list.py agrees with it exactly on ordered items. |
| Lists.ListCssPeriodic | streamtex_package/src/streamtex/__init__.py:949 | A list style's CSS at level n and at n plus the symbol count is the same. |
| Lists.StList | streamtex_package/src/streamtex/__init__.py:931-969 | It fails exactly when a list style has no symbols. Otherwise it is the nested list HTML. |
| Lists.FlatListItems | streamtex_package/src/streamtex/__init__.py:951-967 | The items of a flat list are its texts, each in an `<li>` with the item style, separated by closing tags. |
| Links.ContainLink | streamtex/utils.py:316-342 | An empty link leaves the content unchanged. Otherwise the anchor carries the stripped href, the preview class only for hover on a non-internal link, and the plain style only with `no_link_decor`. |
| Links.LegacyContainLink | streamtex/utils.py:11-72 | An empty link leaves the content as it is. An internal link's target becomes its heading's anchor and gets no preview. An external link keeps its target and carries the preview only with hover. |
| Links.LegacyHrefOfHeading | streamtex/utils.py:29-33 | A `#` link to a heading points to that heading's anchor, and an anchor link is left as it is. |
| Links.StripHtml | streamtex/utils.py:74-85 | Stripping only removes characters, and text without `<` is returned unchanged. |
| Links.StripIsTagFree | streamtex/utils.py:74-85 | A stripped text has no complete tag left. |
| Links.StripHtmlIdempotent | streamtex/utils.py:74-85 | Stripping twice is stripping once. |
| Links.StripTag | streamtex/utils.py:74-85 | A one-line tag is deleted whole. |
| Links.StripPlain | streamtex/utils.py:74-85 | Text before the first `<` is kept as it is. |
| Links.VisibleLinkText | streamtex/utils.py:316-342 | Stripping the tags of a wrapped link gives back the plain content. |
| Links.RelativeByFirstChar | streamtex/utils.py:144-154 | A path is relative exactly when it starts with `.`, `/` or `\`, and no URL is relative. |
| Links.MimeType | streamtex/utils.py:156-166 | There is a MIME type exactly for png, jpg, jpeg and gif, each mapped to its image type. |
| Links.ExtensionOfName | streamtex/utils.py:156-166 | The extension is the lower-cased text after the last dot. |
| Links.MimeOfExtension | streamtex/utils.py:156-166 | The MIME type depends only on the extension, whatever its case. |
| Overlay.Fmt | streamtex/overlay.py:34-37 | Integers become pixels, and text is used as given. |
| Overlay.PositionDecls | streamtex/overlay.py:41-46 | The positioning starts with absolute position and z-index 10. |
| Overlay.PositionCssReadsBack | streamtex/overlay.py:41-46 | Read back as declarations, the position CSS is position and z-index, then exactly the given sides in the order top, left, right, bottom. |
| Overlay.LayerStyle | streamtex/overlay.py:49 | The layer style is the rendered style, a space, and the position CSS, whatever the style ends with; `PositionCssReadsBack` gives that suffix its declarations. |
| Overlay.LayerStyleReadsBack | streamtex/overlay.py:49 | The layer's declarations are the style's, then the positioning ones. |
| Overlay.OverlayStyle | streamtex/overlay.py:70 | The container style is the rendered style, a space, and `position: relative;`. |
| Overlay.OverlayStyleReadsBack | streamtex/overlay.py:70 | Read back as declarations, the container style is the style's declarations followed by `position: relative`, so the relative positioning comes last. |
| Write.ParseArgs | streamtex/write.py:172-212 | A leading style becomes the container and is not content. Otherwise the `style` keyword (or `none`) is the container and every argument is content. |
| Write.VisibleText | streamtex/write.py:190-212 | With tag-free texts, stripping the content HTML gives the texts in order, so spans and links do not reach the label. |
| Write.ItemsHtmlAppend | streamtex/write.py:212 | The content HTML of a concatenation is the concatenation of the parts' HTML. |
| Write.TocLabel | streamtex/write.py:220-223 | The label is the stripped text when it has at most 73 characters. Otherwise it is the first 73 followed by `..`. |
| Write.TocLabelIdempotent | streamtex/write.py:220-223 | A derived label derives itself. |
| Write.HandleToc | streamtex/write.py:214-229 | Without a level the text is unchanged and there is no anchor. With one, registering fails exactly without a registry, and otherwise the section number is prepended. |
| Write.RegisteredAnchorNonEmpty | streamtex/write.py:224-229 | A registered text always has an anchor. |
| Write.IdAttribute | streamtex/write.py:162 | The `id` attribute is written exactly for a non-empty anchor. |
| Write.StWrite | streamtex/write.py:130-170 | As written, `_parse_args(*args, style)` makes the style one more content argument. It fails exactly when a level is given but no registry exists. There is an anchor exactly when a level is given, and without one the registry is untouched. The HTML opens with the tag, then the `id` attribute of that anchor (none for an empty one) and the CSS of the container `_parse_args` chose, and closes with the tag; with a link, the anchor element's opening comes before it and `</a>` after it. |
| Write.StWriteVisible | streamtex/write.py:130-170 | With plain arguments and a one-line tag, style, link and heading, stripping the tags of the written HTML leaves the section number, the content's visible text, and then the `style` keyword's CSS. With no arguments only the section number shows. |
| Write.StWriteCorrected | streamtex/write.py:130-170 | With the keyword passed as `style=`, the same failure, anchor and registry rules hold. The HTML opens with the tag, the `id` attribute of the anchor and the container's CSS, and closes with the tag, inside the link's anchor element when there is a link. |
| Write.StWriteCorrectedVisible | streamtex/write.py:130-170 | With the keyword passed as `style=`, a reader sees the section number and the content's visible text, and nothing of the style. |
| Write.VisibleThen | streamtex/write.py:190-212 | The visible text of plain content is not disturbed by the HTML that follows it. |
| Write.StyleKeywordAsWritten | streamtex/write.py:158 | As written, the `style` keyword is printed after the content and styles the container only when there are no other arguments. |
| Write.StyleKeywordExample | streamtex/write.py:158 | `st_write("Hello", style=red)` is not red, and it reads `Hellocolor: red;`. |
| Write.StyleKeywordCorrected | streamtex/write.py:172-185 | Passing the keyword as a keyword makes it the container, and the content is just the arguments. |
| Scenarios.TocNumbering | streamtex/toc.py:51-93 | From a fresh registry, the specs `1`, `+1`, `+1`, `-1`, `+1` give 1, 1.1, 1.2, 2 and 2.1. |
| Scenarios.PlusZeroIsChapter | streamtex/toc.py:57-64 | `+0` after `1` and `+1` is chapter `2 `, because a relative spec never moves the cursor. |
| Scenarios.MalformedCells | streamtex_package/src/streamtex/styles.py:378-380 | `1A`, `A`, `A1B` and `A 1` raise `ValueError`. |
| Scenarios.ReversedRange | streamtex_package/src/streamtex/styles.py:346-372 | `B2:A1` covers (0,0), (0,1), (1,0) and (1,1), in that order. |
| Scenarios.ControllersDisagree | streamtex/grid.py:34-52 | For a 2 by 3 matrix in a two-column grid, the CSS grid and the old controller style the same cell differently. |

## Left out

- Streamlit rendering is left out because it is UI. This covers `st.html`/`st.markdown` output, containers and columns, `st_book`'s page loop, the zoom and hover JavaScript, `load_css`, and the component glue in write.py.
- Link previews (`__get_page_preview`) and `st_sheet` are left out because they use the network. Images and base64 are left out because they use the filesystem. `generate_key` is left out because it is random.
- The hover-preview scaffold CSS and JavaScript text of utils.py is left out; only the link's own attributes are modelled.
- The `ContextVar` nesting level of list.py and list_old.py is an explicit parameter. Concurrency is not modelled.
- Style palettes, the `size` factories, and the repository's content blocks and configuration are data, not logic.
- Toc.KeyAnchor, Links.ExtensionOfName, Links.MimeType: `.lower()` is modelled for ASCII letters only; other letters keep their case.
- StyleGrids.CellToIndices, StyleGrids.Create: a row number of 0 gives row -1, which Python's negative indexing would wrap. `Create` requires that no listed cell has row -1 rather than modelling the wrap.
- Toc.ResolveLevel, Toc.Register, Write.HandleToc: they require a level spec of the form `[+-]?[0-9]+`. Python's `int()` also accepts surrounding whitespace, `_` between digits and non-ASCII decimal digits, which the model does not. Any other text makes `int()` raise.
- Write.ParseArgs: tuples of a length other than 2 or 3, which break `_parse_args`, are not representable. Tag objects print as their name and are modelled as text.
- Tables.LayoutOf, Tables.StTable, Tables.StGrid: a block matrix with positive `rows` and `cols` is outside the model (required away). There the source does not flatten the matrix. Each cell shows the Python `repr` of one row list, and the quoting and escaping of `repr` is not modelled.
- Tables.StTable, Tables.StGrid: the source pads the caller's lists in place (`row.extend` at __init__.py:718 and :857, `row_styles_list.extend` at :755, `cell_styles_flat.extend` at :796 and :902, `block_list_flat.extend` at :805 and :911), and `block_list=[]` is a shared mutable default. So after `st_table(2, 2)` the default list holds four empty strings and a later `st_table()` raises at :718, and a caller's matrix comes back padded. The model is pure: every call starts from its arguments, and `LayoutOf(0, 0, Flat([]))` succeeds.
- GridOld.NewOldGrid: with at least one fixed row, a column count of 0 makes `st.columns` raise in the constructor; the model requires a column count of at least 1 there instead of modelling the raise.
- GridOld.RowExit: an exception raised inside a row body skips the cleanup in the source. The model always leaves the row normally.
- Overlay.LayerStyleReadsBack: it requires the rendered style to be empty or to end with `;`. A style produced by `remove_css` has no final `;`, and its last declaration would run into `position`.
- Overlay.Fmt: Python's `bool` is an `int`, so `True` would print `Truepx`. Offsets are modelled as integers or text only.
- BookToc.HtmlStep: `__parse_html_toc` is never called in the source. It is modelled for its numbering only; the nested output lists and the `</div>` stack are left out.
- Lists.SearchLeftmost: `\w` in the counter-style pattern is modelled as ASCII letters, digits and `_`. Python's `re` on `str` also matches non-ASCII letters and digits, so for a counter name with such characters the model keeps only its leading ASCII part, or finds no declaration where Python finds one.
- Lists.ListCss: `ListStyle.lvl` with no symbols divides by zero. `StList` reports that as a failure and the inner functions require symbols.

## Findings

| source | as written | input that shows it | evidently intended | confidence | as-written member | corrected member |
|---|---|---|---|---|---|---|
| streamtex_package/src/streamtex/__init__.py:494-503 | `adjust_level` cuts the numbering to `level - 1` counters, so `update_numbering` always appends 1 | two headings `toc1_a`, `toc1_b` are both numbered `1` | cut to `level` counters so that a sibling increments, as `add_section` does | high, not executed | BookToc.HtmlSiblingsRepeat | BookToc.HtmlSiblingsFixedDiffer |
| streamtex/write.py:158 | `st_write` calls `_parse_args(*args, style)`, so the style becomes a positional content item | `st_write("Hello", style=red)` gives container `none` and text `Hellocolor: red;` | `_parse_args(*args, style=style)`, making the keyword the container | high, not executed | Write.StWriteVisible | Write.StWriteCorrectedVisible |
