/** The earlier grid of betterTable.js: the same window arithmetic as the
    flexible grid but with no lower clamp on the scroll position, a row cache
    keyed by row index, and `filter` and `rowData` setters that do next to
    nothing. */
module LegacyGrid {
  import opened Optional
  import opened Records
  import opened Text
  import opened Window
  import opened RowCache

  /** What this `__renderRows` derives from the scroll position: rows
      `start` (`scrollRowIndex - offset`) up to but excluding `end`
      (`rowRange`), and the body's top and bottom padding. */
  datatype LegacyWindow = LegacyWindow(
    scroll: int,
    scrollRowIndex: int,
    offset: int,
    start: int,
    end: int,
    paddingTop: int,
    paddingBottom: int)

  /** The window for `n` rows. The scroll position is `scrollTop` capped at
      the scrollable extent, which is negative when the content is shorter
      than the viewport; the first visible row is the row under it, and the
      window runs from the clamped overscan before that row up to
      `maxDisplayRows` rows from it, cut at the last row, so it holds that
      row whenever the row exists. The bottom padding is what is left of the
      extent below the scroll position, so scroll position, viewport and
      bottom padding add up to the content height and the padding is never
      negative. */
  function LegacyCompute(n: nat, rowHeight: Positive, viewport: nat, scrollTop: int, maxRows: Positive): (w: LegacyWindow)
    ensures w.scroll <= rowHeight * n - viewport
    ensures scrollTop <= rowHeight * n - viewport ==> w.scroll == scrollTop
    ensures scrollTop >= rowHeight * n - viewport ==> w.scroll == rowHeight * n - viewport
    ensures w.scroll + viewport + w.paddingBottom == rowHeight * n
    ensures w.paddingBottom >= 0
    ensures w.scrollRowIndex * rowHeight <= w.scroll < w.scrollRowIndex * rowHeight + rowHeight
    ensures w.end == Min(w.scrollRowIndex + maxRows, n)
    ensures w.offset == Min(Max(w.scrollRowIndex - maxRows / 2, 0), maxRows / 2)
    ensures w.start == w.scrollRowIndex - w.offset
    ensures w.start <= w.scrollRowIndex <= w.end <= n
    ensures 0 <= w.scrollRowIndex < n ==> w.scrollRowIndex < w.end
  {
    var absoluteHeight := rowHeight * n;
    var scroll := Min(scrollTop, absoluteHeight - viewport);
    FloorDivAtMost(scroll, rowHeight, n);
    FloorDivBounds(scroll, rowHeight);
    var scrollRowIndex := scroll / rowHeight;
    var rowRange := Min(scrollRowIndex + maxRows, n);
    var offset := Min(Max(scrollRowIndex - maxRows / 2, 0), maxRows / 2);
    var scrollOffset := scroll - offset * rowHeight;
    LegacyWindow(
      scroll,
      scrollRowIndex,
      offset,
      scrollRowIndex - offset,
      rowRange,
      (scrollOffset / rowHeight) * rowHeight,
      (absoluteHeight - viewport) - scroll)
  }

  /** The top padding is the window's first row times the row height. */
  lemma LegacyPaddingTopIsWindowStart(n: nat, rowHeight: Positive, viewport: nat, scrollTop: int, maxRows: Positive)
    ensures var w := LegacyCompute(n, rowHeight, viewport, scrollTop, maxRows);
      w.paddingTop == w.start * rowHeight
  {
    var w := LegacyCompute(n, rowHeight, viewport, scrollTop, maxRows);
    RowFloorShift(w.scroll, w.offset, rowHeight);
  }

  /** When the content is at least as tall as the viewport and the scroll
      position is not negative, the window lies within the rows and holds at
      most `maxRows + floor(maxRows / 2)` of them. */
  lemma LegacyWindowBounds(n: nat, rowHeight: Positive, viewport: nat, scrollTop: int, maxRows: Positive)
    requires rowHeight * n >= viewport && scrollTop >= 0
    ensures var w := LegacyCompute(n, rowHeight, viewport, scrollTop, maxRows);
      && 0 <= w.start <= w.scrollRowIndex <= w.end <= n
      && 0 <= w.offset <= maxRows / 2
      && w.end - w.start <= maxRows + maxRows / 2
  {
    var w := LegacyCompute(n, rowHeight, viewport, scrollTop, maxRows);
    FloorDivAtLeast(w.scroll, rowHeight, 0);
  }

  /** When the content is shorter than the viewport, the scroll position is
      negative whatever `scrollTop` is (`scrollTop` itself is never
      negative), so the window starts at a negative row index with no
      overscan, and the loop does visit that index. */
  lemma LegacyShortContentStartsNegative(n: nat, rowHeight: Positive, viewport: nat, scrollTop: int, maxRows: Positive)
    requires rowHeight * n < viewport && scrollTop >= 0
    ensures var w := LegacyCompute(n, rowHeight, viewport, scrollTop, maxRows);
      && w.scroll == rowHeight * n - viewport < 0
      && w.offset == 0
      && w.start == w.scrollRowIndex < 0
      && w.start < w.end
  {
    var w := LegacyCompute(n, rowHeight, viewport, scrollTop, maxRows);
    var q := w.scroll / rowHeight;
    assert w.scroll == q * rowHeight + w.scroll % rowHeight;
    MulCancel(q, -1, rowHeight);
  }

  /** A row of this grid: the text of each cell by column id. */
  datatype LegacyRow = LegacyRow(cells: map<string, string>)

  /** `__processRow(index)`'s row: a cell per column holding the record's
      field or `''`. A negative or too large index reads `undefined`, and
      reading a field of it throws as soon as there is a column (`None`). */
  function MakeLegacyRow(data: seq<Record>, columnIds: set<string>, index: int): (r: Option<LegacyRow>)
    ensures r.None? <==> !(0 <= index < |data|) && columnIds != {}
    ensures r.Some? ==> r.value.cells.Keys == columnIds
    ensures r.Some? && 0 <= index < |data| ==>
      forall c :: c in columnIds ==> r.value.cells[c] == CellValue(data[index], c)
  {
    if 0 <= index < |data| then
      Some(LegacyRow(map c | c in columnIds :: CellValue(data[index], c)))
    else if columnIds == {} then
      Some(LegacyRow(map[]))
    else
      None
  }

  /** `__processRow` as the function the cache walk calls. */
  function LegacyRowMaker(data: seq<Record>, columnIds: set<string>): int -> Option<LegacyRow> {
    i => MakeLegacyRow(data, columnIds, i)
  }

  /** The row indices `start` up to `end`. */
  function Range(start: int, end: int): (r: seq<int>)
    requires start <= end
    ensures |r| == end - start
    ensures forall k :: 0 <= k < |r| ==> r[k] == start + k
  {
    seq(end - start, k requires 0 <= k < end - start => start + k)
  }

  /** With content shorter than the viewport and at least one column, a
      render whose first row is not cached throws on that row, before any
      row is made. */
  lemma LegacyShortContentRenderThrows(before: map<int, LegacyRow>, data: seq<Record>, columnIds: set<string>,
                                       rowHeight: Positive, viewport: nat, scrollTop: int, maxRows: Positive)
    requires rowHeight * |data| < viewport && scrollTop >= 0 && columnIds != {}
    requires LegacyCompute(|data|, rowHeight, viewport, scrollTop, maxRows).start !in before
    ensures var w := LegacyCompute(|data|, rowHeight, viewport, scrollTop, maxRows);
      Fill(before, Range(w.start, w.end), LegacyRowMaker(data, columnIds)) == Filled(before, false)
  {
    LegacyShortContentStartsNegative(|data|, rowHeight, viewport, scrollTop, maxRows);
    var w := LegacyCompute(|data|, rowHeight, viewport, scrollTop, maxRows);
    FillStep(before, Range(w.start, w.end), LegacyRowMaker(data, columnIds));
  }

  /** `Row.__filter(filter)`: it filters the row's cells by whether their
      text contains `filter`, discards that list and answers `false`. */
  function RowFilter(cells: map<string, string>, filter: string): (matches: bool)
    ensures !matches
  {
    var kept := set c | c in cells && IndexOf(cells[c], filter) > -1;
    false
  }

  /** What `__filteredRows` holds: the empty list it starts as, or the row
      cache itself (the same array, so it follows every later change to
      the cache). */
  datatype FilteredRows = EmptyList | RowCacheAlias

  class Table {
    const rowHeight: Positive
    const maxDisplayRows: Positive
    /** `__columnsOrdered`, and the keys of `columnData`. */
    const columnsOrdered: seq<string>
    /** `__filter`, which the `filter` getter reports: nothing assigns it
        after construction. */
    const filter: string
    var rowData: seq<Record>
    var filteredRows: FilteredRows
    /** `rows`: the row cache, by row index. */
    var rows: map<int, LegacyRow>
    /** The container's `scrollTop` and `clientHeight`. */
    var scrollTop: int
    var viewportHeight: nat

    /** The constructor: settings, columns in order, the rows and an empty
        filtered list; then the initial `__render`, whose row render walks
        the first window from an empty cache (and throws, in the source, when
        a row of it cannot be made). */
    constructor (rowHeight: Positive, maxDisplayRows: Positive, columnIds: seq<string>,
                 data: seq<Record>, viewportHeight: nat)
      ensures this.rowHeight == rowHeight && this.maxDisplayRows == maxDisplayRows
      ensures columnsOrdered == columnIds && filter == ""
      ensures rowData == data && filteredRows == EmptyList
      ensures scrollTop == 0 && this.viewportHeight == viewportHeight
      ensures var w := CurrentWindow();
        rows == Fill(map[], Range(w.start, w.end), LegacyRowMaker(rowData, ColumnIds())).cache
    {
      this.rowHeight := rowHeight;
      this.maxDisplayRows := maxDisplayRows;
      columnsOrdered := columnIds;
      filter := "";
      rowData := data;
      filteredRows := EmptyList;
      rows := map[];
      scrollTop := 0;
      this.viewportHeight := viewportHeight;
      new;
      var ok := RenderRows();
    }

    function ColumnIds(): set<string> {
      set c | c in columnsOrdered
    }

    /** The window for the current scroll position. */
    function CurrentWindow(): LegacyWindow
      reads this`rowData, this`scrollTop, this`viewportHeight
    {
      LegacyCompute(|rowData|, rowHeight, viewportHeight, scrollTop, maxDisplayRows)
    }

    /** `__processRow(index)`: makes the row and stores it in the cache; when
        making it throws, the cache is left as it was. */
    method ProcessRow(index: int) returns (row: Option<LegacyRow>)
      modifies this`rows
      ensures row == MakeLegacyRow(rowData, ColumnIds(), index)
      ensures rows == if row.Some? then old(rows)[index := row.value] else old(rows)
    {
      row := MakeLegacyRow(rowData, ColumnIds(), index);
      if row.Some? {
        rows := rows[index := row.value];
      }
    }

    /** `__renderRows`: walks the rows of the window in order, reusing each
        cached row and making the others; a row that cannot be made stops
        the render with the rows made so far kept. */
    method RenderRows() returns (ok: bool)
      modifies this`rows
      ensures var w := CurrentWindow();
        var f := Fill(old(rows), Range(w.start, w.end), LegacyRowMaker(rowData, ColumnIds()));
        rows == f.cache && ok == f.ok
    {
      var w := CurrentWindow();
      ghost var idxs := Range(w.start, w.end);
      ghost var make := LegacyRowMaker(rowData, ColumnIds());
      ghost var target := Fill(rows, idxs, make);
      var i := w.start;
      ghost var k := 0;
      assert idxs[k..] == idxs;
      while i < w.end
        invariant w.start <= i <= w.end && k == i - w.start
        invariant Fill(rows, idxs[k..], make) == target
      {
        FillStep(rows, idxs[k..], make);
        assert idxs[k..][0] == i && idxs[k..][1..] == idxs[k + 1..];
        if i !in rows {
          var row := ProcessRow(i);
          assert row == make(i);
          if row.None? {
            return false;
          }
        }
        i := i + 1;
        k := k + 1;
      }
      assert idxs[k..] == [];
      return true;
    }

    /** The `filter` setter: only the empty query does anything, and what it
        does is make `__filteredRows` the row cache itself. Nothing is
        filtered and nothing is rendered. */
    method SetFilter(query: string)
      modifies this`filteredRows
      ensures filteredRows == if query == "" then RowCacheAlias else old(filteredRows)
    {
      if query == "" {
        filteredRows := RowCacheAlias;
      }
    }

    /** The `rowData` setter: replaces the rows and nothing else. The cache
        is kept, so a row index that was rendered before shows its old cells
        (`FillReuses`). */
    method SetRowData(data: seq<Record>)
      modifies this`rowData
      ensures rowData == data
    {
      rowData := data;
    }
  }
}
