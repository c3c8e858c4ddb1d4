# Layouts of flexx/html/layouts.js, modelled in Dafny

This project models the layout logic of the `zoof` widget toolkit in
`flexx/html/layouts.js`, in three parts.

- **Flex-weighted table layout.** Four containers are built on an HTML
  `table`: TableHBox, TableVBox, Form and Grid.
  - Each has its own insertion rule (`appendWidget`).
  - They share one layout pass (`zoof.applyTableLayout`). That pass takes the
    largest `vflex` per row and the largest `hflex` per column, sums each
    axis, and falls back to the weight AUTOFLEX = 729 on an axis whose sum is
    0.
  - It then hands every occupied cell to the container's cell policy
    (`applyCellLayout`). The policy writes an `auto` or percentage width or
    height, plus the `vflex`/`hflex` class names.
- **Height re-adaptation** (`zoof.adaptLayoutToSizeChange`). When a table's
  height changes, the rows without flex keep their natural height. Every row
  with flex gets its share of the height left over, rounded, plus one
  percent.
- **Horizontal splitter** (`zoof.createHSplit`). The splitter holds panes
  separated by dividers.
  - Dividers are placed by `moveDivider`, which clips them (`clipT`) so that
    every pane keeps its minimum width.
  - They are re-spread by `insertWidget` and by the resize handler.
  - They are dragged with the mouse through a ghost element.

The model follows the source's own shape.

- The pure parts are datatypes and functions, with lemmas about them:
  - the flex scans and sums;
  - the cell policies;
  - the insertion rules;
  - the adaptation arithmetic;
  - `clipT` and the splitter geometry.
- The parts that change things in place are classes whose methods are
  proved against those functions:
  - `Tables.Table` holds the rows of a table container;
  - `Splitters.HSplit` holds the splitter's panes, dividers, ghost and drag
    flag.
- The loops of the source stay loops, with invariants. These are the
  dimension scan, the flex collection, the AUTOFLEX fill, the row and cell
  passes, the three loops of the re-adaptation, the Grid growth loops, the
  splitter's target loop, the `moveDivider` sweep and the minimum-size sum.
- Browser measurements become parameters: client width and height, the
  first-cell heights of rows, the element offset and the mouse position.
- Numbers are `real`.

Modules, in dependency order:

- `Widgets`: shared vocabulary. It has `Option`, AUTOFLEX, `Size`, the widget
  descriptor and `Math.round`.
- `TableModel`: the tree of rows, cells and widgets.
- `Flexes`: the flex scans, the sparse flex arrays, their sums and the
  AUTOFLEX fallback.
- `CellPolicies`: the four `applyCellLayout` policies.
- `TableLayout`: the whole layout pass as a function.
- `TableInsert`: the four `appendWidget` rules.
- `SizeAdapt`: the height re-adaptation as a function.
- `Tables`: the class `Table`.
- `SplitGeometry`: `clipT`, `moveDivider`'s positions, the pane geometry,
  the insertion targets and the reserve sums.
- `Splitters`: the class `HSplit`.

Behaviour of the code worth knowing:

- **Rows without occupied cells.** A row without occupied cells that lies
  before the last occupied row takes part in the AUTOFLEX fallback, because
  `vflexes` is a sparse array and the fill loop (layouts.js:396-399) runs
  over its whole length. Such a row gets AUTOFLEX, and counts in the sum,
  whenever the row flexes add up to 0. `TableLayout.CachedRowFlexMeaning`
  states it.
- **A Form whose rows all have a single cell.** Its column flexes are `[0]`.
  Their sum is 0, so the label column falls back to AUTOFLEX and gets width
  100%.
- **The `+1` percent of the re-adaptation and `Math.round`** are modelled
  exactly. The sum of the flexible rows' percentages therefore lies strictly
  above the remaining percentage, by between 0.5 and 1.5 per flexible row
  (`SizeAdapt.AdaptedPercentages`).

## Model

| member | source | states |
|---|---|---|
| Widgets.Round | flexx/html/layouts.js:463 | `Math.round` returns the integer within half a unit of its argument, halves rounded up |
| Flexes.MaxCells | flexx/html/layouts.js:366-371 | the column count bounds every row's length and is the length of some row (or 0) |
| Flexes.Dims | flexx/html/layouts.js:366-371 | the dimension loop computes the longest row's length |
| Flexes.Cols | flexx/html/layouts.js:381-383 | a row is scanned up to the column count or its own length, whichever is smaller |
| Flexes.RowFlexUpTo | flexx/html/layouts.js:384-386 | a row's flex over its first cells: undefined until an occupied cell is met, then the running `Math.max` of `vflex`, or 0 where it is undefined, over the occupied cells; `Flexes.RowFlexIsMax` states what it yields |
| Flexes.ColFlexUpTo | flexx/html/layouts.js:384-387 | a column's flex over the first rows, the same running maximum of `hflex`, or 0 where it is undefined; `Flexes.ColFlexIsMax` states what it yields |
| Flexes.RowFlexes | flexx/html/layouts.js:377-389 | the `vflexes` array the collection loop builds, one entry per row before trimming; each entry is characterised by `Flexes.RowFlexIsMax`, and `Flexes.CollectFlexes` proves the loop computes its trimmed form |
| Flexes.ColFlexes | flexx/html/layouts.js:377-389 | the `hflexes` array, one entry per column before trimming; characterised by `Flexes.ColFlexIsMax`, computed by `Flexes.CollectFlexes` |
| Flexes.RowFlexIsMax | flexx/html/layouts.js:379-389 | a row's flex is undefined exactly when none of its cells is occupied; otherwise it is non-negative, at least every occupied cell's `vflex`, and equal to one of them (or 0) |
| Flexes.ColFlexIsMax | flexx/html/layouts.js:379-389 | a column's flex is undefined exactly when no row has an occupied cell there; otherwise it is the maximum `hflex` of its occupied cells (or 0) |
| Flexes.Trim | flexx/html/layouts.js:386-387 | the sparse JavaScript array ends at its last defined entry: a prefix whose dropped tail holds only holes |
| Flexes.SumDefinedNonNeg | flexx/html/layouts.js:392-393 | the `reduce` sum of non-negative flexes is non-negative, and it is 0 only when every defined flex is 0 |
| Flexes.SumDefined | flexx/html/layouts.js:392-393 | the `reduce` sum, which skips the holes of a sparse array; `Flexes.SumDefinedNonNeg` and `Flexes.SumOfTrim` state its properties |
| Flexes.Autoflexes | flexx/html/layouts.js:397-398 | n entries of AUTOFLEX, what the fill loop leaves; `Flexes.SumOfAutoflexes` states their sum |
| Flexes.Fallback | flexx/html/layouts.js:396-403 | an axis and its cumulative after "if no flexes are given, assign each equal": AUTOFLEX everywhere with cumulative length·AUTOFLEX on a zero sum, otherwise the axis and its sum; `Flexes.FallbackProps` states its properties and `Flexes.FillAutoflex` proves the fill loop computes it |
| Flexes.SumOfTrim | flexx/html/layouts.js:392-393 | trailing holes do not change the sum |
| Flexes.SumOfAutoflexes | flexx/html/layouts.js:397-398 | n entries of AUTOFLEX sum to n·AUTOFLEX |
| Flexes.FallbackProps | flexx/html/layouts.js:396-403 | after the fallback the cumulative is the axis sum; a zero-sum axis becomes all AUTOFLEX, any other axis is kept; every defined entry stays defined and the cumulative is positive once one entry is defined |
| Flexes.FlexesNonNeg | flexx/html/layouts.js:386-387 | every collected flex is non-negative |
| Flexes.OccupiedMakesCumsPositive | flexx/html/layouts.js:383-403 | an occupied cell defines its row's and column's flex, so both cumulatives are positive and no policy divides by 0 |
| Flexes.CollectFlexes | flexx/html/layouts.js:377-389 | the nested collection loop yields the per-row and per-column maxima as sparse arrays |
| Flexes.ScanRow | flexx/html/layouts.js:380-388 | one pass of the inner loop sets the row's flex and raises each column's running maximum by this row's cells |
| Flexes.FillAutoflex | flexx/html/layouts.js:392-403 | the sum-and-fallback code computes the fallback axis and its cumulative |
| CellPolicies.HBoxPolicy | flexx/html/layouts.js:207-216 | TableHBox cells get height 100% and width `auto` exactly when `hflex` is 0, otherwise the percentage `hflex·100/cum_hflex`, and the `hflex` class exactly when flexed |
| CellPolicies.VBoxPolicy | flexx/html/layouts.js:235-245 | TableVBox stores `vflex` on the row; the row height is `auto` exactly when `vflex` is 0, otherwise `vflex·100/cum_vflex`; cells always get `hflex` and get `vflex` exactly when flexed |
| CellPolicies.FormPolicy | flexx/html/layouts.js:273-291 | Form rows get `auto` height exactly when `vflex` is 0 or AUTOFLEX, otherwise the proportional percentage; columns get `auto` for `hflex` 0 and 100% otherwise |
| CellPolicies.GridPolicy | flexx/html/layouts.js:322-340 | Grid rows and columns are `auto` exactly when their flex is 0, otherwise the flex's proportional percentage; classes mark the flexed axes |
| CellPolicies.Policy | flexx/html/layouts.js:414 | the `applyCellLayout` each kind installs: TableHBox, TableVBox, Form and Grid each use their own policy, whose rows state what it writes |
| CellPolicies.WidthsProportional | flexx/html/layouts.js:322-340 | in TableHBox and Grid, the ratio between two flexed columns' widths equals the ratio of their flexes |
| CellPolicies.EqualShares | flexx/html/layouts.js:397-398 | n AUTOFLEX entries each get a 100/n share |
| CellPolicies.RowHeightIgnoresHflex | flexx/html/layouts.js:207-340 | a row's height never depends on the column's flex, and only TableHBox leaves row heights alone |
| CellPolicies.EqualWidth | flexx/html/layouts.js:400-402 | in TableHBox and Grid, an all-AUTOFLEX column axis of n columns gives each column width 100/n % |
| CellPolicies.EqualHeight | flexx/html/layouts.js:396-399 | in TableVBox and Grid, an all-AUTOFLEX row axis of n rows gives each row height 100/n % |
| CellPolicies.SharesAddUpTo100 | flexx/html/layouts.js:392-403 | the percentages of one axis, flex·100/cumulative, add up to 100 |
| CellPolicies.SumSharesIsScaledSum | flexx/html/layouts.js:392-403 | the sum of percentages is the flex sum scaled by 100/cumulative |
| TableLayout.Written | flexx/html/layouts.js:206-343 | a style the policy leaves alone keeps its old value, and a written one replaces it |
| TableLayout.Styled | flexx/html/layouts.js:414 | a cell after its policy call: the written width and height and the two flex classes; `TableLayout.LayoutCellsStyles` and `TableLayout.LaidOutCell` state what each cell ends with |
| TableLayout.ApplyPolicy | flexx/html/layouts.js:414 | a row after one `applyCellLayout` call: cell j styled, the row height written or kept, and the cached flex updated where the policy stores it; `TableLayout.LayoutCellsStyles` and `TableLayout.LayoutCellsRowHeight` state the effect over a row |
| TableLayout.LayoutCells | flexx/html/layouts.js:409-415 | a row's cell pass keeps the cell count and every cell's widgets, keeps the row flex, and leaves a TableHBox row's height alone |
| TableLayout.LaidOutTable | flexx/html/layouts.js:354-417 | the layout pass keeps the number of rows |
| TableLayout.TableAxes | flexx/html/layouts.js:377-403 | both axes after collection, trimming and the fallback, with their cumulatives; `TableLayout.FallbackAxis`, `TableLayout.CumsPositive` and `TableLayout.CachedRowFlexMeaning` state their properties |
| TableLayout.LaidOutRow | flexx/html/layouts.js:406-416 | a row after the assignment loop: `row.vflex` is written first (:408), then every occupied cell gets its policy call in column order; `TableLayout.CachedRowFlex`, `TableLayout.LaidOutCell` and `TableLayout.LaidOutRowHeight` state the result |
| TableLayout.CumsPositive | flexx/html/layouts.js:392-403 | whenever a row has an occupied cell, both cumulatives are positive |
| TableLayout.LayoutOfEmptyTable | flexx/html/layouts.js:366-374 | a table without rows, or whose rows have no cells, is left unchanged |
| TableLayout.LayoutKeepsTree | flexx/html/layouts.js:354-417 | the layout pass changes styles only: rows, cells and widgets stay where they were |
| TableLayout.LayoutCellsStyles | flexx/html/layouts.js:409-415 | within a row, occupied cells get their policy's styles and all other cells are untouched |
| TableLayout.LayoutCellsRowHeight | flexx/html/layouts.js:409-415 | an occupied cell leaves the row height its policy writes, or the previous height if the policy writes none |
| TableLayout.CachedRowFlex | flexx/html/layouts.js:408 | each row caches `vflexes[i] \|\| 0` |
| TableLayout.CachedRowFlexMeaning | flexx/html/layouts.js:396-408 | the cached row flex is the row's own maximum, or AUTOFLEX for every row up to the last occupied one when all row flexes are 0; rows past it get 0; it is never negative |
| TableLayout.LaidOutCell | flexx/html/layouts.js:406-416 | every occupied cell of the table gets the policy's styles for its row's and column's flex and both cumulatives, which are positive; empty cells are untouched |
| TableLayout.LaidOutRowHeight | flexx/html/layouts.js:406-416 | an occupied cell's row ends with the height the policy writes for that row's flex |
| TableLayout.FallbackAxis | flexx/html/layouts.js:396-403 | on a zero-sum axis every entry up to the last defined one becomes AUTOFLEX and the cumulative is their count times AUTOFLEX |
| TableLayout.RowAxisAllAuto | flexx/html/layouts.js:396-399 | without row flexes, an occupied cell's row flex is AUTOFLEX and the row cumulative is n·AUTOFLEX |
| TableLayout.ColAxisAllAuto | flexx/html/layouts.js:400-403 | without column flexes, an occupied cell's column flex is AUTOFLEX and the column cumulative is n·AUTOFLEX |
| TableLayout.EqualColumnShares | flexx/html/layouts.js:400-416 | a TableHBox or Grid whose children declare no `hflex` gives every occupied cell width 100/n %, n being the number of columns up to the last occupied one |
| TableLayout.EqualRowShares | flexx/html/layouts.js:396-416 | a TableVBox or Grid whose children declare no `vflex` gives every row with an occupied cell height 100/n % |
| TableInsert.PadRows | flexx/html/layouts.js:307-309 | the row-growing loop keeps the old rows and appends empty ones until the index exists |
| TableInsert.PadCells | flexx/html/layouts.js:312-314 | the cell-growing loop keeps the old cells and appends empty ones until the index exists |
| TableInsert.PaddingAddsNoWidgets | flexx/html/layouts.js:306-314 | growing rows and cells adds no widget |
| TableInsert.HBoxAppended | flexx/html/layouts.js:196-203 | TableHBox appends a new cell holding the child to its single row and changes nothing else |
| TableInsert.VBoxAppended | flexx/html/layouts.js:225-231 | TableVBox appends a new row whose single cell holds the child |
| TableInsert.FormAppended | flexx/html/layouts.js:256-269 | Form starts a new row when the last one has two cells; the child goes into a new cell of the last row with `hflex` 0 as the row's first cell and 1 as its second |
| TableInsert.GridGrown | flexx/html/layouts.js:306-314 | after growing, row `pos[1]` and its cell `pos[0]` exist |
| TableInsert.GridAppended | flexx/html/layouts.js:302-318 | the Grid rule: grow rows, then cells, until cell (pos.y, pos.x) exists, and append the child to it; `TableInsert.GridAppendPlacesChild` and `TableInsert.GridAddsOneWidget` state its properties |
| TableInsert.GridAppendPlacesChild | flexx/html/layouts.js:302-318 | Grid grows the table to max(old, y+1) rows and row y to max(old, x+1) cells, adds only empty rows and cells, and appends the child to cell (y, x) after the widgets already there |
| TableInsert.Appended | flexx/html/layouts.js:196-318 | each container kind's insertion rule; `TableInsert.AppendAddsOneWidget` states that every rule adds exactly the child, and the per-kind rows state where it goes |
| TableInsert.HBoxAddsOneWidget | flexx/html/layouts.js:196-203 | TableHBox insertion adds exactly one widget to the table |
| TableInsert.VBoxAddsOneWidget | flexx/html/layouts.js:225-231 | TableVBox insertion adds exactly one widget |
| TableInsert.FormAddsOneWidget | flexx/html/layouts.js:256-269 | Form insertion adds exactly one widget |
| TableInsert.CellAppendAddsOne | flexx/html/layouts.js:315-317 | appending to one cell adds one widget to the table |
| TableInsert.GrowingAddsNoWidgets | flexx/html/layouts.js:306-314 | Grid's growth adds no widget |
| TableInsert.GridAddsOneWidget | flexx/html/layouts.js:302-318 | Grid insertion adds exactly one widget |
| TableInsert.AppendAddsOneWidget | flexx/html/layouts.js:196-318 | every container's insertion adds exactly one widget, never removing or duplicating one |
| TableInsert.FormAppendKeepsShape | flexx/html/layouts.js:256-269 | Form insertion keeps rows at most two cells wide, full except the last, with one widget per cell whose `hflex` is its column index |
| TableInsert.FormCount | flexx/html/layouts.js:256-269 | a Form of r rows holds 2(r−1) widgets plus those of its last row |
| TableInsert.FormPlacement | flexx/html/layouts.js:256-269 | the n-th widget appended to a Form lands in row n/2, column n mod 2, with `hflex` n mod 2 |
| TableInsert.InitialFormShape | flexx/html/layouts.js:252-254 | the Form's initial single empty row has the Form shape |
| SizeAdapt.CumVflex | flexx/html/layouts.js:449-452 | the sum of every row's cached flex; `SizeAdapt.CumVflexPositive` states it is non-negative and positive once a row has positive flex |
| SizeAdapt.FixedHeight | flexx/html/layouts.js:448-455 | the summed first-cell heights of the non-empty rows with flex 0, which `remainingHeight` loses; `SizeAdapt.SameFlexesSameSums` and `Tables.MeasureRows` state its properties |
| SizeAdapt.RemainingPercentage | flexx/html/layouts.js:459 | 100·(clientHeight − fixed height)/clientHeight; `SizeAdapt.AdaptedPercentages` states how the flexible rows fill it |
| SizeAdapt.FlexHeight | flexx/html/layouts.js:463 | a flexible row's new percentage lies within half a unit of its exact share, plus one |
| SizeAdapt.AdaptRows | flexx/html/layouts.js:460-465 | the last loop rewrites exactly the rows with positive flex, each with its rounded share plus one |
| SizeAdapt.CumVflexPositive | flexx/html/layouts.js:449-452 | the flex sum is non-negative, and positive once a row has positive flex, so the division is defined |
| SizeAdapt.SameFlexesSameSums | flexx/html/layouts.js:439-456 | writing a height (the temporary 100%) changes neither the flex sum nor the fixed rows' height |
| SizeAdapt.Adapted | flexx/html/layouts.js:434-465 | the rows after a height change: the flexible rows get their rounded share plus one; `SizeAdapt.AdaptKeepsFlexesAndTree`, `SizeAdapt.AdaptIdempotent` and `SizeAdapt.AdaptedPercentages` state its properties, and `Tables.Table.AdaptToSizeChange` is proved to compute it |
| SizeAdapt.AdaptKeepsFlexesAndTree | flexx/html/layouts.js:434-465 | re-adaptation changes row heights only |
| SizeAdapt.AdaptIdempotent | flexx/html/layouts.js:434-465 | re-adapting with the same measurements changes nothing more |
| SizeAdapt.SharesOfCum | flexx/html/layouts.js:463 | the exact shares vflex/cum·pct of all rows add up to (flex sum)/cum·pct, which is pct when cum is the flex sum |
| SizeAdapt.SumWithinRounding | flexx/html/layouts.js:463 | if each row is within rounding of its share, the total is within 0.5 to 1.5 per row of the shares' sum |
| SizeAdapt.RoundedShares | flexx/html/layouts.js:459-465 | the flexible rows' percentages add up to the remaining percentage plus between 0.5 and 1.5 per flexible row |
| SizeAdapt.AdaptRowsWithinRounding | flexx/html/layouts.js:460-465 | every flexible row's written height is within rounding of its exact share plus one |
| SizeAdapt.AdaptedPercentages | flexx/html/layouts.js:447-465 | after re-adaptation the flexible rows fill the height the fixed rows leave, overshooting by between 0.5 and 1.5 percent per flexible row |
| SizeAdapt.AdaptExample | flexx/html/layouts.js:434-465 | flexes [0, 1, 1] in 300 pixels with a 60-pixel fixed row give the flexible rows 41% each and leave the fixed row alone |
| Tables.LayOutCells | flexx/html/layouts.js:409-415 | the inner layout loop computes the row's cell pass |
| Tables.MeasureRows | flexx/html/layouts.js:447-456 | the measuring loop yields the client height less the fixed rows' heights, and the flex sum |
| Tables.SetFlexHeights | flexx/html/layouts.js:458-465 | the height loop writes the rounded shares |
| Tables.AdaptOverwritesHeights | flexx/html/layouts.js:439-465 | the temporary 100% on the first flexible row is overwritten by the last loop |
| Tables.Table.constructor | flexx/html/layouts.js:186-300 | a TableVBox starts without rows; TableHBox, Form and Grid start with one empty row |
| Tables.Table.AppendWidget | flexx/html/layouts.js:196-318 | `appendWidget` applies the container's insertion rule and keeps the container's invariant |
| Tables.Table.AppendToGrid | flexx/html/layouts.js:302-318 | the Grid's growth loops and append give the Grid insertion rule |
| Tables.Table.GrowRows | flexx/html/layouts.js:306-309 | the row loop pads the table with empty rows until row y exists |
| Tables.GrowCells | flexx/html/layouts.js:311-314 | the cell loop pads the row with empty cells until cell x exists |
| Tables.Table.ApplyTableLayout | flexx/html/layouts.js:354-417 | the layout pass computes the layout specification and keeps the invariant |
| Tables.Table.AdaptToSizeChange | flexx/html/layouts.js:420-467 | for a TableVBox, Form or Grid (the kinds that install the handler): without a height change nothing changes; otherwise the rows become the re-adapted rows |
| SplitGeometry.Reserve | flexx/html/layouts.js:598-599 | a pane's reserve is the divider width plus its minimum width, or 20 when the minimum width is not a number; never 0 |
| SplitGeometry.Lo | flexx/html/layouts.js:594-597 | the lowest position of divider i: the previous divider or the left edge, plus the left pane's reserve; `SplitGeometry.ClipT` and `SplitGeometry.FitGivesMinWidths` state what it guarantees |
| SplitGeometry.Hi | flexx/html/layouts.js:594-599 | the highest position: the next divider or the right edge, less the right pane's reserve; `SplitGeometry.ClipT` and `SplitGeometry.FitGivesMinWidths` state what it guarantees |
| SplitGeometry.ClipT | flexx/html/layouts.js:587-602 | the result lies in [min, max] when min ≤ max and is max otherwise; a position inside the range is kept, and one below or above it goes to the bound |
| SplitGeometry.ClipIdempotent | flexx/html/layouts.js:587-602 | clipping twice equals clipping once |
| SplitGeometry.Scale | flexx/html/layouts.js:555-557 | a position below 1 is a fraction of the width; `SplitGeometry.WholeFractionIsPixel` and `SplitGeometry.FractionScales` state both cases |
| SplitGeometry.WholeFractionIsPixel | flexx/html/layouts.js:555-557 | a stored share of 1.0 is read as 1 pixel, not as the full width |
| SplitGeometry.FractionScales | flexx/html/layouts.js:555-557 | a share below 1 becomes that share of the width |
| SplitGeometry.FractionSurvivesResize | flexx/html/layouts.js:555-561 | a divider set to a share f stores f and returns to f times the new width after a resize when it is not clipped |
| SplitGeometry.MoveT | flexx/html/layouts.js:555-560 | moving divider i sets it to the scaled and clipped position and leaves every other divider where it was |
| SplitGeometry.MoveKeepsFit | flexx/html/layouts.js:550-602 | if every divider is within its range, it stays so after a move |
| SplitGeometry.Sweep | flexx/html/layouts.js:541-543 | moving the first n dividers in turn leaves the others where they were |
| SplitGeometry.SweepKeepsFit | flexx/html/layouts.js:541-543 | a sweep of moves keeps every divider within its range |
| SplitGeometry.FitGivesMinWidths | flexx/html/layouts.js:594-599 | when the dividers fit, every pane is at least as wide as its minimum width |
| SplitGeometry.MoveSharesGap | flexx/html/layouts.js:566-570 | after `moveDivider(i, t)` the two panes next to divider i together span end − begin − 2·w2, the right pane starts at t + w2, and no other pane changes width |
| SplitGeometry.MoveRespectsMinWidths | flexx/html/layouts.js:558-570 | a move in a fitting splitter leaves every pane at least its minimum width |
| SplitGeometry.GhostPreviewsDrop | flexx/html/layouts.js:628-647 | inside the range, the ghost's position while dragging is the dropped divider's left edge |
| SplitGeometry.GhostAtRightLimit | flexx/html/layouts.js:628-647 | past the right limit the ghost stops at the limit while the dropped divider's left edge stops w2 before it |
| SplitGeometry.DropLandsOnClip | flexx/html/layouts.js:645 | a drop at a clipped position of at least one pixel lands exactly there |
| SplitGeometry.PaneWidth | flexx/html/layouts.js:566-570 | a pane spans from just right of the divider before it (or the left edge) to just left of the divider after it (or the right edge); `SplitGeometry.MoveSharesGap` and `SplitGeometry.PanesTile` state its properties |
| SplitGeometry.WidthsTelescope | flexx/html/layouts.js:566-570 | the first m panes span up to divider m−1 less the divider widths between them |
| SplitGeometry.PanesTile | flexx/html/layouts.js:563-570 | the pane widths add up to the client width less one divider width per divider |
| SplitGeometry.Gap | flexx/html/layouts.js:528-536 | the width the target loop gives gap k: W/n for gap `index − 1`, otherwise the old gap scaled by (W − W/n)/W; `SplitGeometry.GapScaled` and `SplitGeometry.AppendGap` state its cases |
| SplitGeometry.GapScaled | flexx/html/layouts.js:531-534 | every gap other than `index − 1` is the old gap width times (W − W/n)/W |
| SplitGeometry.Targets | flexx/html/layouts.js:528-539 | the target list has one entry per divider |
| SplitGeometry.InsertTargets | flexx/html/layouts.js:528-539 | the whole `newTs` list, one entry per divider; `SplitGeometry.AppendTargetsEqual` and `SplitGeometry.InsertTargetsMisplacesShare` state what it gives, and `Splitters.InsertionTargets` proves the loop computes it |
| SplitGeometry.AppendGap | flexx/html/layouts.js:526-537 | appending to m equal panes gives every gap the width W/(m+1) |
| SplitGeometry.AppendTargetsEqual | flexx/html/layouts.js:528-539 | appending to m equal panes makes the targets the running sums of equal gaps, k·W/(m+1) |
| SplitGeometry.AppendSplitsEqually | flexx/html/layouts.js:504-539 | `appendWidget` on m equal panes aims every divider at an equal split into m+1 panes |
| SplitGeometry.Placed | flexx/html/layouts.js:525-536 | the corrected width of new pane k: the newcomer's width at its own position, every old pane its width times the kept fraction, shifted past the newcomer; `SplitGeometry.PlacedTargetsGiveWidths` states that the targets realise it |
| SplitGeometry.PlacedTargets | flexx/html/layouts.js:537 | the running sums of the placed widths; `SplitGeometry.PlacedTargetsStep` and `SplitGeometry.PlacedRunningSum` state their properties |
| SplitGeometry.PlacedTargetsStep | flexx/html/layouts.js:537 | each target is the previous one plus the width given to the pane before it |
| SplitGeometry.PlacedSumStep | flexx/html/layouts.js:537 | adding one pane's width moves the running sum from the kept part of the old panes so far (plus the newcomer once passed) to the next one |
| SplitGeometry.PlacedRunningSum | flexx/html/layouts.js:528-539 | where the first j new panes end: the kept fraction of where the old panes ended, plus the newcomer's width once it is passed |
| SplitGeometry.PlacedTargetsGiveWidths | flexx/html/layouts.js:525-539 | when the kept part of the whole width and the newcomer's width add up to the width, every new pane, the last included, gets its placed width |
| SplitGeometry.IntendedWidth | flexx/html/layouts.js:525-527 | the corrected width for an insertion at the clamped index: W/(m+1) for the newcomer and (W − W/(m+1))/W of every old pane |
| SplitGeometry.IntendedTargets | flexx/html/layouts.js:525-539 | the corrected target list, one entry per divider; `SplitGeometry.IntendedTargetsGiveShares` states the widths it gives |
| SplitGeometry.IntendedTargetsGiveShares | flexx/html/layouts.js:525-539 | the corrected targets give the newcomer W/(m+1) and every old pane its own width times (W − W/(m+1))/W, the last pane included |
| SplitGeometry.TargetsAgreePastEnd | flexx/html/layouts.js:528-539 | with an index past the end the code's targets and the corrected targets coincide |
| SplitGeometry.InsertTargetsMisplacesShare | flexx/html/layouts.js:528-539 | with panes 100, 200 and 300 in 600: inserting at 1 gives panes 150, 150, 225, 75 where 75, 150, 150, 225 is meant; appending gives 75, 150, 150, 225 where 75, 150, 225, 150 is meant |
| SplitGeometry.ReserveSum | flexx/html/layouts.js:575-584 | the reserves of the first k panes, the sum `setOwnMinSize` adds 50 to; `Splitters.OwnMinSize` and `SplitGeometry.PackedFits` state its properties |
| SplitGeometry.PackedFits | flexx/html/layouts.js:575-602 | a splitter at least as wide as the sum of its panes' reserves has room for every divider |
| Splitters.SpliceAt | flexx/html/layouts.js:513 | `splice` inserts at the index, or at the end when the index is past it |
| Splitters.Moved | flexx/html/layouts.js:555-564 | the moved divider's position is `moveDivider`'s position and its stored share times the width gives that position back; other dividers are unchanged |
| Splitters.OwnMinSize | flexx/html/layouts.js:575-584 | the splitter's own minimum size is 50 plus every pane's reserve, for width and for height |
| Splitters.InsertionTargets | flexx/html/layouts.js:526-539 | the target loop computes the insertion targets |
| Splitters.PanesAfterMove | flexx/html/layouts.js:566-570 | the panes after `moveDivider(i, _)`: pane i gets its new width, pane i+1 its new left and width, and every other pane is untouched; `Splitters.PanesStep` and `SplitGeometry.MoveSharesGap` state its properties |
| Splitters.PanesStep | flexx/html/layouts.js:566-570 | one move extends the set of panes that tile the gaps between the moved dividers by one |
| Splitters.WidgetsStep | flexx/html/layouts.js:566-570 | a move changes no pane's widget |
| Splitters.DividersStep | flexx/html/layouts.js:555-564 | one move extends the set of dividers that store their share and left edge by one and leaves the later ones untouched |
| Splitters.SweepSettles | flexx/html/layouts.js:541-543 | later moves of the sweep leave earlier dividers where they were |
| Splitters.SweepStep | flexx/html/layouts.js:550-570 | each `moveDivider` of the sweep settles one more divider and the pane to its left |
| Splitters.ProgressStep | flexx/html/layouts.js:541-543 | one more turn of the move loop keeps the dividers on the sweep, the widgets and minimum widths unchanged, and extends the settled prefix by one divider |
| Splitters.ProgressDone | flexx/html/layouts.js:541-543 | when the move loop ends every divider stores its share and the panes tile the splitter between the dividers |
| Splitters.HSplit.constructor | flexx/html/layouts.js:479-500 | a new splitter has no panes or dividers, a hidden ghost and no drag |
| Splitters.HSplit.MoveDivider | flexx/html/layouts.js:550-571 | divider i moves to the scaled, clipped position and stores its share; the ghost follows; the left pane ends and the right pane starts at it |
| Splitters.HSplit.MoveDividers | flexx/html/layouts.js:541-543 | the move loop puts the dividers where the sweep does, each storing its share, and leaves the panes tiling the splitter |
| Splitters.HSplit.SweepAll | flexx/html/layouts.js:541-543 | the move loop runs over every divider and the ghost ends at the last one |
| Splitters.HSplit.SweepOne | flexx/html/layouts.js:542 | one `moveDivider(i, targets[i])` call advances the loop |
| Splitters.HSplit.AddDivider | flexx/html/layouts.js:514-543 | a divider pushed at the right edge, then all dividers swept to the insertion targets: the dividers follow the sweep and store their shares and left edges, the panes tile the splitter with pane 0's left edge kept, the ghost ends at the last divider, and the widgets, the drag state and the own minimum size are unchanged |
| Splitters.HSplit.SetOwnMinSize | flexx/html/layouts.js:575-584 | the splitter's own minimum width and height become the reserve sums plus 50 |
| Splitters.HSplit.SpliceIn | flexx/html/layouts.js:513 | a fresh pane with the child goes in at the clamped index; the widgets are the old ones with the child spliced in; pane 0 keeps its left edge unless the child goes first; nothing else changes |
| Splitters.HSplit.InsertWidget | flexx/html/layouts.js:508-546 | the child is spliced in at the clamped index. From two panes on, a divider is added and all dividers are swept to the insertion targets, each storing its share and left edge; the panes are tiled, pane 0 keeps its left edge unless the child went first (then it has none), and the ghost ends at the last divider. With one pane the dividers and the ghost are unchanged. The own minimum size is updated; the ghost's visibility and the drag flag are unchanged |
| Splitters.HSplit.AppendWidget | flexx/html/layouts.js:504-506 | the child is appended as the last pane. From two panes on, a divider is added and the dividers are swept to the targets for inserting at the end; each stores its share and its left edge, the panes tile the splitter with pane 0's left edge kept, and the ghost ends at the last divider. With fewer panes the dividers and the ghost stay as they were. The own minimum size is updated; the ghost's visibility and the drag flag are unchanged |
| Splitters.HSplit.OnResize | flexx/html/layouts.js:604-616 | every divider is moved back to its stored share of the new width and stores its share and left edge again. The panes are tiled again with the first pane's left edge kept, and the ghost ends at the last divider. Without dividers the panes and the ghost are unchanged. The widgets, the drag state and the own minimum size are unchanged |
| Splitters.HSplit.MouseDown | flexx/html/layouts.js:618-626 | a drag of divider k starts: the flag becomes k+1 and the ghost shows. Divider k moves under the mouse as `moveDivider` moves it, the ghost goes to its left edge, and only the two panes next to it change. The widgets and the own minimum size are unchanged |
| Splitters.HSplit.MouseMove | flexx/html/layouts.js:628-635 | while dragging, the ghost follows the mouse clipped to the dragged divider's range; otherwise the ghost stays. Panes, dividers, drag flag, ghost visibility and the own minimum size never change |
| Splitters.HSplit.MouseUp | flexx/html/layouts.js:637-647 | a drag ends: the flag clears, the ghost hides, the divider moves to the clipped mouse position, the ghost goes to its left edge and only the two panes next to it change. Without a drag nothing changes but the flag, which stays 0. The widgets and the own minimum size are unchanged |

## Findings

| source | as written | input that shows it | evidently intended | confidence | as-written member | corrected member |
|---|---|---|---|---|---|---|
| flexx/html/layouts.js:528-539 | the gap before divider `index - 1` gets W/n; every other gap k gets the scaled width of old gap k, so the old widths are not shifted past the newcomer and the last old pane is left with whatever remains | panes 100, 200 and 300 in a splitter 600 wide, inserting at index 1 (targets 150, 300, 525: panes 150, 150, 225, 75) or appending (targets 75, 225, 375: panes 75, 150, 150, 225) | the newcomer gets W/n at its own position and every old pane keeps its width times (W − W/n)/W, as the comment at layouts.js:525 says (targets 75, 225, 375 and 75, 225, 450) | not executed | SplitGeometry.InsertTargetsMisplacesShare | SplitGeometry.IntendedTargetsGiveShares |

## Left out

- Widget construction and the registry are DOM glue and are not modelled: `zoof.createWidgetElement`, `zoof.widgets`, `setProps`, `setStyle`, `setPos`, `setMinWidth`, `setMinHeight` (layouts.js:14-104).
- `checkResize`/`checkResizeNow` are timer and event plumbing. A resize is the `heightChanged` flag plus the measured sizes, passed as parameters.
- HBox, VBox and `applyBoxStyle` are not modelled: they only set vendor-prefixed CSS flexbox properties.
- `createPinBoard` (a dummy layout) is not part of this model. Neither are `createPHSplit`, `createPDockArea`, `createMenuBar` and `createMenuItem`, which wrap a library outside the repository.
- These styling writes are not modelled: TableHBox's `padding-left` spacing between cells, the table padding, the container repositioning in `onResize`, and the `dotransition` class.
- Element order inside the splitter's container, event propagation and listener registration are not modelled. A divider's `dividerIndex` is its position in the divider list.
- Cell class names are modelled as two booleans ("has `vflex`", "has `hflex`"), not as the exact class string.
- Browser measurements are parameters: `clientWidth`, `clientHeight`, each row's first-cell height, `offsetLeft` and `ev.clientX`. The model does not capture that the temporary 100% row height changes what is measured.
- Numbers are mathematical reals, not IEEE doubles. There is no rounding error, NaN or Infinity.
- A minimum width or height that `parseFloat` cannot read is `None`. Units other than pixels are not modelled.
- The source's divisions by `clientWidth` and `clientHeight` are modelled only for positive sizes. With a size of 0 the source produces Infinity or NaN.
- A row that has never been laid out has `row.vflex` undefined, and the source's flex sum then becomes NaN. The model gives such a row the flex 0 instead.
- A Grid `pos` is a pair of natural numbers. Negative or fractional positions are not modelled.
- `insertWidget`'s index is a natural number. A negative index, which `splice` counts from the end, is not modelled.
- A new pane starts with no `left` or `width` style; styles the child already carried are not modelled.
- Splitters.HSplit.InsertWidget: states the final divider positions as the sweep of moves to the insertion targets. It does not characterise when clipping leaves a target unchanged, so an equal split after `appendWidget` is proved for the targets only (`SplitGeometry.AppendSplitsEqually`). The splitter keeps the targets as the code computes them, not the corrected ones of "## Findings".
