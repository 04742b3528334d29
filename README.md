# BetterTable grid core in Dafny

This project models the core of BetterTable, a virtualised data grid for
the browser. Given an array of row records and a set of columns, the grid
renders only a window of rows around the scroll position and caches the
row objects it has made. It can filter the rows by a text query and sort
them by a column. Two grids are modelled:

- **betterTableFlex.js**, the current grid:
  - the window arithmetic of `__renderRows`: clamped scroll, first visible
    row, overscan, the rendered range, the top and bottom spacers and the
    footer's current index (module `Window`);
  - the row cache that `__renderRows` fills through `__processRow`
    (modules `RowCache` and `Grid`);
  - the `filter` setter (module `Filter`, over the string operations in
    `Text`);
  - `__sortRows` with `quickSort` and `quickSortSwap` (module `Sorting`);
  - the `Table` and `Column` objects with their setters, `toggleSort` and
    `getSortedColumns` (module `Grid`).
- **betterTable.js**, the earlier grid: its window arithmetic without the
  lower clamp on the scroll position, its row cache, its stub filter
  setter and `Row.__filter` (module `LegacyGrid`).
- `extend`, which both grids use to lay options over defaults (module
  `Settings`).

Row records are maps from column id to the cell's text (`Records`).
Geometry is integer pixels. Dafny's `/` on `int` is `Math.floor` for the
positive row height, negative numerators included.

The model follows the code where the code and the grid's description
disagree:

- The rendered window can hold up to `maxDisplayRows + floor(maxDisplayRows / 2)`
  rows, not `maxDisplayRows`. The overscan is added in front of a range that
  is already `maxDisplayRows` long. With 5 rows of height 32, a viewport of
  64, a scroll of 64 and `maxDisplayRows` 2, the rows rendered are 1, 2 and 3
  (`Window.OverscanExample`).
- `quickSort` puts every element that does not compare below the pivot on
  the pivot's left. The sorted range is therefore non-increasing under the
  comparator. The `'asc'` comparator returns +1 when the first value is
  greater, so `'asc'` puts larger values first and `'desc'` smaller ones
  (`Sorting.SortedByColumn`).
- Setting one column's sort does not reset the other columns. Several
  columns can be sorted at once in `getSortedColumns`, although the rows
  are sorted by the last one set.
- `__updateRows` leaves `__filteredRows` alone. A sort or new row data
  while a filter is set keeps the old indices, which then name other rows.
  Those indices may also lie outside the new rows, and then rendering
  throws (`Grid.RenderSucceedsIff`).
- The two spacers do not add up to the rows outside the window. What holds
  is that the scroll position, the viewport and the bottom spacer add up to
  the content height (`Window.SpacerBottomFillsContent`).
- The `rowIndex` setter puts row `index` just below the viewport. When
  `index` is a row of the active view (`index < n`) and the viewport is no
  taller than `index` rows, so that the scroll position is not clamped, the
  render that follows reads back `index` when the viewport is a whole number
  of rows and `index - 1` otherwise (`Window.RowIndexRoundTrip`). For a
  smaller `index` the scroll is clamped to 0 and the render reads back
  `floor(viewport / rowHeight)` or the last row instead.
- In betterTable.js a table whose content is shorter than its viewport
  starts its window at a negative row index. With at least one column,
  making that row throws (`LegacyGrid.LegacyShortContentRenderThrows`).

A row that cannot be made is modelled as `None`. This happens when
`__processRow` reads a field of `rowData[index]` that is `undefined`. A
method that renders returns `ok == false` in that case: the render stops
there with the rows made so far cached and, in the flexible grid, without
updating `__currentIndex`. The body's `scrollTop` and `clientHeight` are
fields of the table (`scrollTop`, `viewportHeight`).

## Model

| member | source | states |
|---|---|---|
| Records.CellValue | betterTable/src/betterTableFlex.js:248 | a new cell holds the record's field, and `''` when the field is missing |
| Records.Field | betterTable/src/betterTableFlex.js:248 | `record[col]` is `undefined` exactly when the record has no such field, and the field's text otherwise |
| Text.IndexOfFrom | betterTable/src/betterTableFlex.js:345 | `indexOf` returns the first position at or after `from` where the query occurs, or -1 exactly when it occurs nowhere there |
| Text.IndexOf | betterTable/src/betterTableFlex.js:345 | `indexOf(q)` is a position where `q` occurs, or -1 when it occurs nowhere |
| Text.IndexOfFindsFirst | betterTable/src/betterTableFlex.js:345 | `indexOf(q) > -1` holds exactly when the string contains `q`, and then it names the first occurrence |
| Text.Lower | betterTable/src/betterTableFlex.js:341-345 | `toLowerCase` keeps the length, leaves no upper-case ASCII letter, turns each one into its lower-case letter and keeps every other character |
| Text.LowerAppend | betterTable/src/betterTableFlex.js:341 | lower-casing a concatenation lower-cases each part |
| Text.Less | betterTable/src/betterTableFlex.js:288-290 | string `>`: a string is never above itself, and a proper prefix is always below the longer string |
| Text.LessIrreflexive | betterTable/src/betterTableFlex.js:288-290 | no string is `>` itself |
| Text.LessAsymmetric | betterTable/src/betterTableFlex.js:288-290 | `x > y` and `y > x` never both hold for strings |
| Text.LessTransitive | betterTable/src/betterTableFlex.js:288-290 | string `>` is transitive |
| Text.LessTotal | betterTable/src/betterTableFlex.js:288-290 | two different strings are ordered one way or the other |
| Window.ClampedScroll | betterTable/src/betterTableFlex.js:170-173 | the scroll lies in `[0, max(content - viewport, 0)]`; it equals `scrollTop` when that is in range, `max(content - viewport, 0)` when `scrollTop` is at or above that, and 0 when `scrollTop` is at most 0; its row is at most the row count |
| Window.Overscan | betterTable/src/betterTableFlex.js:178 | the overscan lies in `[0, floor(M/2)]` and never exceeds the first visible row |
| Window.Compute | betterTable/src/betterTableFlex.js:169-211 | the first visible row `scrollRowIndex` is the row under the scroll position, which is `ClampedScroll`; the window starts `offset = Overscan(scrollRowIndex, M)` rows before it and ends at `min(scrollRowIndex + M, n)`, so it holds the first visible row whenever there are rows and a viewport; `0 <= start <= scrollRowIndex <= end <= n`; at most `M + floor(M/2)` rows; bottom spacer not negative; the current index is `min(scrollRowIndex + floor(clientHeight / rowHeight), n - 1)` |
| Window.SpacerTopIsWindowStart | betterTable/src/betterTableFlex.js:178-181 | `style.top` is the window's first row times the row height, within one row below `scroll - offset * rowHeight` |
| Window.SpacerBottomFillsContent | betterTable/src/betterTableFlex.js:170-182 | scroll + viewport + bottom spacer equals the content height, or the viewport when the content is shorter |
| Window.OverscanExample | betterTable/src/betterTableFlex.js:173-211 | 5 rows, height 32, viewport 64, scroll 64, M 2: rows 1 to 3 are rendered, top 32, padding 32, current index 4 |
| Window.FooterShowsRange | betterTable/src/betterTableFlex.js:211-224 | when there are rows and the viewport has a height (`n > 0` and `clientHeight > 0`), the footer's current index lies between the first visible row and the last row, and the footer shows a range exactly when a whole row fits and the first visible row is not the last; with no viewport height the first visible row can lie past the current index |
| Window.RowIndexScrollTop | betterTable/src/betterTableFlex.js:326-328 | the `rowIndex` setter puts the top of row `index` at the bottom edge of the viewport |
| Window.RowIndexRoundTrip | betterTable/src/betterTableFlex.js:322-328 | for `index < n` with `viewport <= index * rowHeight`, the render after the `rowIndex` setter reads back `index` when the viewport is a whole number of rows and `index - 1` otherwise |
| RowCache.FillStep | betterTable/src/betterTableFlex.js:192-193 | a cached row is passed over, a made row is stored, and a row that cannot be made ends the walk |
| RowCache.Fill | betterTable/src/betterTableFlex.js:191-193 | the `rows[index] \|\| __processRow(index)` walk only adds entries, and only for indices of the window |
| RowCache.FillReuses | betterTable/src/betterTableFlex.js:193 | a cached row is never replaced or dropped by a render |
| RowCache.FillCreates | betterTable/src/betterTableFlex.js:193 | every entry a render adds is for an index of the window and is the row `__processRow` makes for it |
| RowCache.FillCompletes | betterTable/src/betterTableFlex.js:191-202 | a render finishes exactly when every window index is cached or can be made, and then every window index is cached |
| Filter.RowMatches | betterTable/src/betterTableFlex.js:343-349 | the callback's test on one row: a row with no fields is never kept, and the empty query keeps every other row (`indexOf('')` is 0) |
| Filter.RowMatchesIffMatches | betterTable/src/betterTableFlex.js:343-349 | the callback's `indexOf` loop keeps a row exactly when some lower-cased field contains the query |
| Filter.Indices | betterTable/src/betterTableFlex.js:341-352 | the filtered list holds strictly increasing row indices, and row `k` is in it exactly when one of its lower-cased fields contains the query |
| Filter.Collected | betterTable/src/betterTableFlex.js:342-352 | the `reduce` yields strictly increasing indices of scanned rows, and index `k` is in it exactly when row `k` matches |
| Filter.RefinedQueryNarrows | betterTable/src/betterTableFlex.js:341-352 | every row kept by a longer query is kept by its prefix |
| Filter.FilterExample | betterTable/src/betterTableFlex.js:341-352 | rows Amy, Bob, Ana filtered by `A` keep indices 0 and 2 |
| Sorting.Greater | betterTable/src/betterTableFlex.js:288-290 | a missing field is neither greater nor smaller than anything |
| Sorting.Compare | betterTable/src/betterTableFlex.js:287-295 | the comparator answers -1, 0 or 1, and 0 whenever either row lacks the column |
| Sorting.CompareAntisymmetric | betterTable/src/betterTableFlex.js:287-295 | swapping the comparator's arguments negates it |
| Sorting.CompareAntisymmetricAll | betterTable/src/betterTableFlex.js:287-295 | the column comparator is antisymmetric on all rows, with or without the column |
| Sorting.ByColumn | betterTable/src/betterTableFlex.js:283-295 | the comparator `__sortRows` hands to `quickSort` is antisymmetric on every pair of rows |
| Sorting.CompareTransitive | betterTable/src/betterTableFlex.js:287-295 | on rows that have the column, "at least" then "above" is "above" |
| Sorting.CompareMeaning | betterTable/src/betterTableFlex.js:283-295 | with `'asc'`, `compare(x, y) >= 0` means x's value is not smaller; with `'desc'`, not greater |
| Sorting.CompareConsistent | betterTable/src/betterTableFlex.js:283-295 | the column comparator is consistent on rows that all have the column |
| Sorting.SortedByColumn | betterTable/src/betterTableFlex.js:283-295 | sorted under `'asc'` means no value is smaller than a later one; under `'desc'`, no value is greater |
| Sorting.SortedAroundPivot | betterTable/src/betterTableFlex.js:719-724 | two sorted sides around a partitioning pivot make a sorted range |
| Sorting.Swap | betterTable/src/betterTableFlex.js:727-731 | `quickSortSwap` exchanges two elements, keeps the multiset and changes nothing else |
| Sorting.PivotWalkStep | betterTable/src/betterTableFlex.js:700-717 | one turn of the pivot walk keeps the loop's state (pointers in the range, pivot where `direction` says, elements left of `leftPos` not below the pivot, elements right of `rightPos` below it, nothing outside the range moved, a permutation) and brings the pointers closer |
| Sorting.Partition | betterTable/src/betterTableFlex.js:694-718 | the pivot walk permutes `arr[left..right]` only, and leaves elements not below the pivot on its left and those below it on its right |
| Sorting.ShortSectionSorted | betterTable/src/betterTableFlex.js:719-724 | a side of at most one element, on which `quickSort` makes no recursive call, is already sorted in the sense of `SortedSection` |
| Sorting.QuickSortStep | betterTable/src/betterTableFlex.js:719-724 | partitioning and then sorting each side (`SortedSection` for each side) sorts the whole range: it is permuted, nothing outside it moves, the neighbours end in order under a comparator antisymmetric on the range, and the whole range is sorted under a consistent one |
| Sorting.PiecesPermute | betterTable/src/betterTableFlex.js:719-724 | sides that are each permutations of what the partition left there, around the pivot, make a permutation of the range |
| Sorting.PiecesSorted | betterTable/src/betterTableFlex.js:719-724 | sorted sides, the left none below the pivot and the right all below it, give a range sorted under a comparator consistent on the range |
| Sorting.PiecesAdjacent | betterTable/src/betterTableFlex.js:719-724 | sides whose neighbours are in order, the left none below the pivot and the right all below it, give a range whose neighbours are in order under an antisymmetric comparator |
| Sorting.QuickSort | betterTable/src/betterTableFlex.js:694-725 | `SortedSection`: `quickSort` terminates and permutes `arr[left..right]` only; when the comparator is antisymmetric on the range, `compare(arr[i+1], arr[i]) <= 0` for neighbours; when it is also transitive there, every element is at least every later one |
| Sorting.SortAroundPivot | betterTable/src/betterTableFlex.js:719-724 | after a partition around `pivot`, the two guarded recursive calls leave `[left, right]` sorted in the sense of `SortedSection` |
| Sorting.SortSide | betterTable/src/betterTableFlex.js:719-724 | one guarded recursive call: a side of at least two elements is sorted by `quickSort`, a shorter one is left as it is, and either way the side is sorted in the sense of `SortedSection` |
| Sorting.SortWhole | betterTable/src/betterTableFlex.js:287 | `quickSort(rows, 0, rows.length - 1, ...)` permutes the whole array; its neighbours end in order under a comparator antisymmetric on it, and all of it is sorted under a consistent one |
| Sorting.ColumnSortOrder | betterTable/src/betterTableFlex.js:283-297 | under the column comparator the sorted rows always have their neighbours in order, and are sorted throughout when every row has the column |
| Grid.MakeRow | betterTable/src/betterTableFlex.js:243-261 | a row gets a cell for every column holding the field or `''`; it cannot be made exactly when the index lies outside `rowData` and there is a column |
| Grid.BaseIndices | betterTable/src/betterTableFlex.js:191-192 | logical row `i` of the window is looked up through the filter list when there is one, and is its own index otherwise |
| Grid.BaseIndicesWhole | betterTable/src/betterTableFlex.js:169-195 | over logical rows `0` up to `dataLength`, the loop's lookup reads exactly the filtered list when there is one, and row `k` for logical row `k` otherwise |
| Grid.RenderSucceedsIff | betterTable/src/betterTableFlex.js:191-193 | a render throws exactly when some window index is uncached and lies outside `rowData` while there is a column |
| Grid.RenderSucceedsOnValidIndices | betterTable/src/betterTableFlex.js:169-193 | without a filter, or with a filter list inside `rowData`, a render never throws |
| Grid.FilterThenRenderSucceeds | betterTable/src/betterTableFlex.js:342-354 | the render that follows a filter never throws |
| Grid.SortName | betterTable/src/betterTableFlex.js:524-526 | the name the `sort` getter reports is one of `none`, `asc` and `desc`, and it is `none` exactly for the unsorted state |
| Grid.ParseSort | betterTable/src/betterTableFlex.js:527-533 | the `sort` setter accepts a value exactly when its lower-cased form is `asc`, `desc` or `none`, and takes the state of that name |
| Grid.ParseSortName | betterTable/src/betterTableFlex.js:504-533 | each state's name is accepted and gives back that state |
| Grid.NextSort | betterTable/src/betterTableFlex.js:504-515 | `toggleSort` always moves to another state |
| Grid.ToggleCycles | betterTable/src/betterTableFlex.js:504-515 | three toggles bring a column back to its state, through the two other states; the order none, asc, desc is `NextSort`'s |
| Grid.InitialSort | betterTable/src/betterTableFlex.js:372-394 | a column starts in the state its `sort` setting names when the setter accepts it, and `'none'` otherwise |
| Grid.ModifierOf | betterTable/src/betterTableFlex.js:283 | the modifier is 1 exactly for `'asc'` |
| Grid.Table.constructor | betterTable/src/betterTableFlex.js:41-54 | a new table has the rows as data and as original data, no filter, `__filter` `''` and a column per id with its sort setting applied; the initial render then walks the first window from an empty cache and current index 0 |
| Grid.Table.ActiveLength | betterTable/src/betterTableFlex.js:169 | `dataLength` is the filtered list's length when a filter is set (`__filteredRows` not `null`), and the row count otherwise |
| Grid.Table.ProcessColumns | betterTable/src/betterTableFlex.js:228-241 | `__processColumns` makes a column per id, keyed by id and belonging to the table; the ids it keys are those of `InitialSorts`, and each column is in the state `InitialSorts` gives its id |
| Grid.InitialSortsLast | betterTable/src/betterTableFlex.js:232-236 | each id gets the sort state of its setting; `Object.keys` never repeats an id, and the model's id list, which may, gives a repeated id the state of its last setting, as `columns[column] = new Column(...)` would |
| Grid.Table.Initialize | betterTable/src/betterTableFlex.js:52-54 | after `__processColumns` and the first render, the columns are valid, each id has the sort state of its last setting, and the cache and current index are the render walk from an empty cache and index 0 |
| Grid.Table.ProcessRow | betterTable/src/betterTableFlex.js:243-261 | `__processRow` stores the row it makes at its index and changes no other entry; when it throws the cache is unchanged |
| Grid.Table.RenderRows | betterTable/src/betterTableFlex.js:168-211 | the cache becomes the window walk over the old cache, and `__currentIndex` is updated only when the walk finishes |
| Grid.Table.RenderWindow | betterTable/src/betterTableFlex.js:191-202 | the loop over logical rows looks each base index up through the filter list and reuses or makes its row |
| Grid.Table.UpdateRows | betterTable/src/betterTableFlex.js:267-272 | `__updateRows` replaces the rows, renders from an empty cache, and leaves the filter list and original rows alone |
| Grid.Table.SetRowData | betterTable/src/betterTableFlex.js:318-321 | the `rowData` setter makes the rows both original and displayed, and renders from an empty cache |
| Grid.Table.SortRows | betterTable/src/betterTableFlex.js:274-298 | `'none'` restores the original rows exactly; otherwise the rows become a permutation of the original rows whose neighbours are in order under the column comparator, sorted throughout when every row has the column; then it renders from an empty cache |
| Grid.Table.SortedCopy | betterTable/src/betterTableFlex.js:278-296 | the sorted copy is a permutation of the original rows whose neighbours are in order under the column comparator, sorted throughout when every row has the column |
| Grid.Table.CopyOriginal | betterTable/src/betterTableFlex.js:280-285 | the back-to-front copy loop yields a new array equal to the original rows |
| Grid.Table.SetFilter | betterTable/src/betterTableFlex.js:335-355 | `''` clears the filter without rendering; any other query sets the matching indices and renders over the kept cache |
| Grid.Table.SetRowIndex | betterTable/src/betterTableFlex.js:326-328 | the `rowIndex` setter scrolls to `index * rowHeight - clientHeight` |
| Grid.Table.GetSortedColumns | betterTable/src/betterTableFlex.js:299-312 | the result holds exactly the columns whose sort is not `'none'`, keyed by id, with their states |
| Grid.Column.constructor | betterTable/src/betterTableFlex.js:372-394 | a column starts in its `sort` setting when the setter accepts it, `'none'` otherwise |
| Grid.Column.SetSort | betterTable/src/betterTableFlex.js:527-540 | an invalid value changes nothing; a valid one sets the state and, with native sorting, sorts and re-renders the table |
| Grid.Column.ToggleSort | betterTable/src/betterTableFlex.js:504-515 | the state moves one step along the cycle, with the setter's effect on the table |
| LegacyGrid.LegacyCompute | betterTable/src/betterTable.js:131-144 | the scroll is `scrollTop` capped at `content - viewport`, with no lower clamp; scroll, viewport and bottom padding add up to the content height, so the padding is never negative; the first visible row `scrollRowIndex` is the row under the scroll, `offset` is `scrollRowIndex - floor(M/2)` clamped to `[0, floor(M/2)]`, `start = scrollRowIndex - offset` and `end = min(scrollRowIndex + M, n)`, so the window holds the first visible row whenever that row exists; `start <= scrollRowIndex <= end <= n` |
| LegacyGrid.LegacyPaddingTopIsWindowStart | betterTable/src/betterTable.js:137-143 | `paddingTop` is the window's first row times the row height |
| LegacyGrid.LegacyWindowBounds | betterTable/src/betterTable.js:135-147 | with content at least the viewport and `scrollTop >= 0`, `0 <= start <= end <= n` and at most `M + floor(M/2)` rows |
| LegacyGrid.LegacyShortContentStartsNegative | betterTable/src/betterTable.js:132-147 | with content shorter than the viewport, scroll and first row are negative, the overscan is 0, and the loop runs |
| LegacyGrid.MakeLegacyRow | betterTable/src/betterTable.js:169-187 | a row gets a cell per column holding the field or `''`; it cannot be made exactly when the index lies outside the rows and there is a column |
| LegacyGrid.Range | betterTable/src/betterTable.js:147 | the loop visits `start`, `start + 1`, ... up to but excluding `end` |
| LegacyGrid.LegacyShortContentRenderThrows | betterTable/src/betterTable.js:147-148 | with content shorter than the viewport and a column, a render whose first row is uncached throws at once |
| LegacyGrid.RowFilter | betterTable/src/betterTable.js:283-292 | `Row.__filter` answers false for every filter and every row |
| LegacyGrid.Table.constructor | betterTable/src/betterTable.js:17-38 | a new table has the rows, an empty filter list and `__filter` `''`; the initial render then leaves in the cache the walk over the first window from an empty cache |
| LegacyGrid.Table.ProcessRow | betterTable/src/betterTable.js:169-187 | `__processRow` stores the row it makes at its index and changes no other entry; when it throws the cache is unchanged |
| LegacyGrid.Table.RenderRows | betterTable/src/betterTable.js:131-154 | the cache becomes the walk over rows `start` to `end` from the old cache |
| LegacyGrid.Table.SetFilter | betterTable/src/betterTable.js:205-209 | only `''` does anything, and it makes the filter list the row cache itself |
| LegacyGrid.Table.SetRowData | betterTable/src/betterTable.js:193-195 | the `rowData` setter replaces the rows and keeps the cache |
| Settings.Extended | betterTable/src/betterTableFlex.js:678-692 | the result has every key of either object, `obj`'s value where it has one and the default's otherwise |
| Settings.CopyOwnProperties | betterTable/src/betterTableFlex.js:686-690 | the `for...in` loop copies every own property of the source over the target |
| Settings.Extend | betterTable/src/betterTableFlex.js:678-692 | `extend` yields the defaults overridden by `obj` |
| Settings.ExtendByAssign | betterTable/src/betterTable.js:393-401 | the `Object.assign` form of `extend` yields the same result |

## Left out

- DOM construction, styling and events are left out: elements, fragments, `innerHTML`, `style.order`, `data-*` attributes, `Cell.__render`, `Row.__render` (with its misspelled `__proccessed` flag), `Row.__hover`/`__unhover`, `__renderColumns` and `Column.__init`. They are browser APIs. The model keeps the rows a render would append and the spacer sizes it would set.
- Column dragging (`__drag` and the mouse handlers) is left out. It needs pointer events, timers and layout.
- `Event`, `Listener` and the hand-rolled `Promise` are left out. They are callback plumbing; `Listener.disconnect` calls `slice`, so it removes nothing.
- The footer's text is left out, because `toLocaleString` depends on the locale. `Window.FooterShowsRange` models which of its two branches is taken.
- Fractional pixels are not modelled: `scrollTop` and `clientHeight` are integers. The browser's own clamping of `scrollTop` is not modelled either; `__renderRows` clamps it again.
- `toLowerCase` is modelled on ASCII letters only.
- Text.Less: compares Unicode scalar values, where JavaScript's `>` compares UTF-16 code units. The two orders differ only between a character above U+FFFF and one in U+E000 to U+FFFF: the former is larger here and smaller in JavaScript.
- Field values are strings. JavaScript's `>` and `'' + value` on numbers or mixed types are not modelled. A missing field is `undefined`: it compares neither greater nor smaller, and it reads as `''` in a cell.
- Sorting.QuickSort: the neighbour order `compare(arr[i+1], arr[i]) <= 0` needs the comparator to be antisymmetric on the range; the order between any two elements needs it to be transitive there as well. The permutation and the frame hold for every comparator.
- Grid.Table.SortRows: the neighbour order holds for every set of rows, but the order between any two rows is proved only when every row has the sorted column. A missing field compares equal to every value, so the comparator is not transitive then, and the contract allows orders that `quickSort` never produces: under `'asc'`, rows holding `'b'`, a missing field and `'c'` in that order meet the contract. `quickSort` does keep the rows that have the column non-increasing among themselves, because a pivot without the column sends nothing to its right; that stronger fact is not proved.
- `quickSort`'s `arrLength` parameter is unused and is not modelled.
- `Column.cells`, the list of every cell ever made for a column, is not modelled. Nothing in the core reads it.
- Grid.Table.constructor and LegacyGrid.Table.constructor: when the initial render throws, `new` throws in the source and the caller gets no table; the model's constructor returns the table with the rows made before the throw. `LegacyGrid.LegacyShortContentRenderThrows` gives the case in which this happens in betterTable.js.
- Grid.Column.constructor does not run `__sortRows` for native sorting. In the source the setter runs before the table has its body element, so native sorting at construction reaches `__renderRows` and fails on the missing element.
- The `order` setter and `Column.__render`, which is empty, are left out.
- The betterTable.js `columnData` setter and its `Column` object (a name and a style) are left out. `LegacyGrid.Table` keeps its column ids fixed.
- The `rowIndex` and `filter` getters are the fields `currentIndex` and `filter`.
