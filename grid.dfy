/** The grid of betterTableFlex.js: the `Table`, which keeps the row data,
    the filtered list and the row cache and renders a window of rows, and
    the `Column`, which keeps a sort state and, with native sorting, sorts
    the table. */
module Grid {
  import opened Optional
  import opened Records
  import opened Text
  import opened Window
  import opened RowCache
  import opened Filter
  import opened Sorting

  /** A row `__processRow` creates: its base index, its record (`None` when
      `rowData[index]` is `undefined`) and the text of each cell by column
      id. */
  datatype Row = Row(index: int, data: Option<Record>, cells: map<string, string>)

  /** `__processRow`'s row for `index`. Every column gets a cell holding the
      record's field, or `''` when it is missing. When `rowData[index]` is
      `undefined`, reading a field of it throws as soon as there is a column
      (`None`); with no column at all the row is made with no cells. */
  function MakeRow(data: seq<Record>, columnIds: set<string>, index: int): (r: Option<Row>)
    ensures r.None? <==> !(0 <= index < |data|) && columnIds != {}
    ensures r.Some? ==> r.value.index == index && r.value.cells.Keys == columnIds
    ensures r.Some? && 0 <= index < |data| ==>
      r.value.data == Some(data[index]) &&
      forall c :: c in columnIds ==> r.value.cells[c] == CellValue(data[index], c)
  {
    if 0 <= index < |data| then
      Some(Row(index, Some(data[index]), map c | c in columnIds :: CellValue(data[index], c)))
    else if columnIds == {} then
      Some(Row(index, None, map[]))
    else
      None
  }

  /** `__processRow` as the function the cache walk calls. */
  function RowMaker(data: seq<Record>, columnIds: set<string>): int -> Option<Row> {
    i => MakeRow(data, columnIds, i)
  }

  /** The base indices of logical rows `start` up to `end`: looked up in the
      filtered list when a filter is set, the logical index itself
      otherwise. */
  function BaseIndices(filtered: Option<seq<int>>, start: int, end: int): (r: seq<int>)
    requires 0 <= start <= end
    requires filtered.Some? ==> end <= |filtered.value|
    ensures |r| == end - start
    ensures forall k :: 0 <= k < |r| ==>
      r[k] == if filtered.Some? then filtered.value[start + k] else start + k
  {
    seq(end - start, k requires 0 <= k < end - start =>
      if filtered.Some? then filtered.value[start + k] else start + k)
  }

  /** Logical rows `0` up to the filtered list's length look up exactly that
      list; with no filter, logical row `k` is row `k`. */
  lemma BaseIndicesWhole(filtered: Option<seq<int>>, n: nat)
    requires filtered.Some? ==> n == |filtered.value|
    ensures filtered.Some? ==> BaseIndices(filtered, 0, n) == filtered.value
    ensures filtered.None? ==> BaseIndices(filtered, 0, n) == seq(n, k => k)
  {
  }

  /** A render finishes without throwing exactly when every base index of
      the window is cached, or lies within `rowData`, or there is no column
      to read a field for. */
  lemma RenderSucceedsIff(before: map<int, Row>, idxs: seq<int>, data: seq<Record>, columnIds: set<string>)
    ensures Fill(before, idxs, RowMaker(data, columnIds)).ok <==>
      forall j :: 0 <= j < |idxs| ==> idxs[j] in before || 0 <= idxs[j] < |data| || columnIds == {}
    ensures Fill(before, idxs, RowMaker(data, columnIds)).ok ==>
      forall j :: 0 <= j < |idxs| ==> idxs[j] in Fill(before, idxs, RowMaker(data, columnIds)).cache
  {
    FillCompletes(before, idxs, RowMaker(data, columnIds));
  }

  /** Without a filter, or with a filtered list that only holds indices of
      `rowData`, rendering never throws: every row of the window can be
      made. */
  lemma RenderSucceedsOnValidIndices(before: map<int, Row>, filtered: Option<seq<int>>, start: int, end: int,
                                     data: seq<Record>, columnIds: set<string>)
    requires 0 <= start <= end
    requires filtered.None? ==> end <= |data|
    requires filtered.Some? ==> end <= |filtered.value| && forall k :: k in filtered.value ==> 0 <= k < |data|
    ensures Fill(before, BaseIndices(filtered, start, end), RowMaker(data, columnIds)).ok
  {
    var idxs := BaseIndices(filtered, start, end);
    forall j | 0 <= j < |idxs|
      ensures 0 <= idxs[j] < |data|
    {
      if filtered.Some? {
        assert filtered.value[start + j] in filtered.value;
      }
    }
    RenderSucceedsIff(before, idxs, data, columnIds);
  }

  /** The list a filter sets only holds indices of the rows it scanned, so
      the render that follows it never throws. */
  lemma FilterThenRenderSucceeds(before: map<int, Row>, data: seq<Record>, query: string,
                                 start: int, end: int, columnIds: set<string>)
    requires 0 <= start <= end <= |Indices(data, query)|
    ensures Fill(before, BaseIndices(Some(Indices(data, query)), start, end), RowMaker(data, columnIds)).ok
  {
    var found := Indices(data, query);
    assert forall k :: k in found ==> 0 <= k < |data|;
    RenderSucceedsOnValidIndices(before, Some(found), start, end, data, columnIds);
  }

  /** A column's sort state: `'none'`, `'asc'` or `'desc'`. */
  datatype SortOrder = Unsorted | Ascending | Descending

  /** The name the `sort` getter reports. */
  function SortName(o: SortOrder): (r: string)
    ensures r in {"none", "asc", "desc"}
    ensures r == "none" <==> o == Unsorted
  {
    match o
    case Unsorted => "none"
    case Ascending => "asc"
    case Descending => "desc"
  }

  /** The `sort` setter's validation: the lower-cased value when it is one of
      `'asc'`, `'desc'` and `'none'`, `None` (a warning, and no change)
      otherwise. */
  function ParseSort(value: string): (r: Option<SortOrder>)
    ensures r.Some? <==> Lower(value) in {"asc", "desc", "none"}
    ensures r.Some? ==> SortName(r.value) == Lower(value)
  {
    var v := Lower(value);
    if v == "asc" then Some(Ascending)
    else if v == "desc" then Some(Descending)
    else if v == "none" then Some(Unsorted)
    else None
  }

  /** Every state's own name is accepted and gives back that state. */
  lemma {:induction false} ParseSortName(o: SortOrder)
    ensures ParseSort(SortName(o)) == Some(o)
  {
    var n := SortName(o);
    assert Lower(n) == n by {
      assert forall i :: 0 <= i < |n| ==> !('A' <= n[i] <= 'Z');
    }
  }

  /** `toggleSort`'s step: none to asc, asc to desc, desc to none. */
  function NextSort(o: SortOrder): (r: SortOrder)
    ensures r != o
  {
    match o
    case Unsorted => Ascending
    case Ascending => Descending
    case Descending => Unsorted
  }

  /** Toggling three times comes back to the start, passing through the two
      other states: the toggle is a cycle of length three. */
  lemma ToggleCycles(o: SortOrder)
    ensures NextSort(o) != o && NextSort(NextSort(o)) != o && NextSort(NextSort(o)) != NextSort(o)
    ensures NextSort(NextSort(NextSort(o))) == o
  {
  }

  /** The state a column starts in: its `sort` setting when the setter
      accepts it, `'none'` otherwise. */
  function InitialSort(setting: string): (r: SortOrder)
    ensures ParseSort(setting) == Some(r) || (ParseSort(setting).None? && r == Unsorted)
  {
    match ParseSort(setting)
    case Some(o) => o
    case None => Unsorted
  }

  /** The comparator's modifier for a sort state: 1 for `'asc'`, -1
      otherwise. */
  function ModifierOf(o: SortOrder): (m: Modifier)
    ensures m == 1 <==> o == Ascending
  {
    if o == Ascending then 1 else -1
  }

  /** The sort state `__processColumns` leaves on the column of each id
      among the first `n` of `ids`: the one the setting of its last
      occurrence sets, since a later column under the same id replaces an
      earlier one. */
  function InitialSorts(ids: seq<string>, sorts: seq<string>, n: int): map<string, SortOrder>
    requires |sorts| == |ids| && 0 <= n <= |ids|
    decreases n
  {
    if n == 0 then map[]
    else InitialSorts(ids, sorts, n - 1)[ids[n - 1] := InitialSort(sorts[n - 1])]
  }

  /** An id whose last occurrence among the first `n` is at `j` gets the
      sort state of `sorts[j]`. */
  lemma {:induction false} InitialSortsLast(ids: seq<string>, sorts: seq<string>, n: int, j: int)
    requires |sorts| == |ids| && 0 <= j < n <= |ids|
    requires forall l :: j < l < n ==> ids[l] != ids[j]
    ensures ids[j] in InitialSorts(ids, sorts, n)
    ensures InitialSorts(ids, sorts, n)[ids[j]] == InitialSort(sorts[j])
    decreases n
  {
    if j < n - 1 {
      InitialSortsLast(ids, sorts, n - 1, j);
    }
  }

  class Table {
    const rowHeight: Positive
    const maxDisplayRows: Positive
    const useNativeSorting: bool
    /** `__columnsOrdered`: the column ids in the order of `columnData`. */
    const columnsOrdered: seq<string>
    /** `__filter`, which the `filter` getter reports: nothing assigns it
        after construction. */
    const filter: string
    var columns: map<string, Column>
    /** `__rowData`: the rows in display order. */
    var rowData: seq<Record>
    /** `__originalRowData`: the rows as last given to the table. */
    var originalRowData: seq<Record>
    /** `__filteredRows`: `None` for `null` (no filter). */
    var filteredRows: Option<seq<int>>
    /** `rows`: the row cache, by base index. */
    var rows: map<int, Row>
    /** `__currentIndex`, which the `rowIndex` getter reports. */
    var currentIndex: int
    /** The body element's `scrollTop` and `clientHeight`. */
    var scrollTop: int
    var viewportHeight: nat

    /** The columns are the table's, keyed by their ids, one per id of
        `columnsOrdered`. */
    ghost predicate Valid()
      reads this
    {
      && columns.Keys == (set c | c in columnsOrdered)
      && forall k :: k in columns ==> columns[k].id == k && columns[k].table == this
    }

    /** The keys of `columnData`, for which `__processRow` makes cells. */
    function ColumnIds(): set<string> {
      set c | c in columnsOrdered
    }

    /** `dataLength`: the filtered list's length when a filter is set, the
        row count otherwise, so that logical rows `0` up to it stand for the
        whole filtered list, or for every row (`BaseIndicesWhole`). */
    function ActiveLength(): (n: nat)
      reads this`filteredRows, this`rowData
      ensures filteredRows.Some? ==> n == |filteredRows.value|
      ensures filteredRows.None? ==> n == |rowData|
    {
      if filteredRows.Some? then |filteredRows.value| else |rowData|
    }

    /** The window for the current scroll position. */
    function CurrentWindow(): Window
      reads this`filteredRows, this`rowData, this`scrollTop, this`viewportHeight
    {
      Compute(ActiveLength(), rowHeight, viewportHeight, scrollTop, maxDisplayRows)
    }

    /** The base indices of the rows in the current window. */
    function WindowRows(): seq<int>
      reads this`filteredRows, this`rowData, this`scrollTop, this`viewportHeight
    {
      var w := CurrentWindow();
      BaseIndices(filteredRows, w.start, w.end)
    }

    /** The state a render leaves when it starts from the cache `before` and
        the current index `beforeIndex`: the cache walked over the window,
        whether it finished, and the current index, updated only when it
        did. */
    ghost predicate RenderedFrom(before: map<int, Row>, beforeIndex: int, ok: bool)
      reads this
    {
      var f := Fill(before, WindowRows(), RowMaker(rowData, ColumnIds()));
      && rows == f.cache
      && ok == f.ok
      && currentIndex == if ok then CurrentWindow().currentIndex else beforeIndex
    }

    /** What a sort leaves in `rowData`: `originalRowData` itself for
        `'none'`; otherwise a permutation of it, in the order `quickSort`
        leaves it under the column comparator when every row has the
        column. */
    ghost predicate SortedFrom(col: string, order: SortOrder)
      reads this`rowData, this`originalRowData
    {
      if order == Unsorted then rowData == originalRowData
      else
        && multiset(rowData) == multiset(originalRowData)
        && AdjacentSorted(rowData, ByColumn(col, ModifierOf(order)))
        && (AllHave(originalRowData, col) ==> Sorted(rowData, ByColumn(col, ModifierOf(order))))
    }

    /** The constructor: settings, the columns of `columnData` in order (each
        with its `sort` setting applied), the rows both as data and as
        original data and no filter; then the initial `__render`, whose row
        render starts from an empty cache and current index 0. */
    constructor (rowHeight: Positive, maxDisplayRows: Positive, useNativeSorting: bool,
                 columnIds: seq<string>, columnSorts: seq<string>, data: seq<Record>,
                 viewportHeight: nat)
      requires |columnSorts| == |columnIds|
      ensures Valid()
      ensures this.rowHeight == rowHeight && this.maxDisplayRows == maxDisplayRows
      ensures this.useNativeSorting == useNativeSorting
      ensures columnsOrdered == columnIds && filter == ""
      ensures rowData == data && originalRowData == data
      ensures filteredRows == None
      ensures scrollTop == 0 && this.viewportHeight == viewportHeight
      ensures RenderedFrom(map[], 0, Fill(map[], WindowRows(), RowMaker(rowData, ColumnIds())).ok)
      ensures forall i :: 0 <= i < |columnIds| && (forall j :: i < j < |columnIds| ==> columnIds[j] != columnIds[i]) ==>
        columns[columnIds[i]].sort == InitialSort(columnSorts[i])
    {
      this.rowHeight := rowHeight;
      this.maxDisplayRows := maxDisplayRows;
      this.useNativeSorting := useNativeSorting;
      columnsOrdered := columnIds;
      filter := "";
      rowData := data;
      originalRowData := data;
      filteredRows := None;
      rows := map[];
      currentIndex := 0;
      scrollTop := 0;
      this.viewportHeight := viewportHeight;
      columns := map[];
      new;
      Initialize(columnIds, columnSorts);
    }

    /** The constructor's work once the fields are set: `__processColumns`,
        then the row render of `__render` from an empty cache and current
        index 0. */
    method Initialize(columnIds: seq<string>, columnSorts: seq<string>)
      requires |columnSorts| == |columnIds| && columnIds == columnsOrdered
      requires rows == map[] && currentIndex == 0
      modifies this`columns, this`rows, this`currentIndex
      ensures Valid()
      ensures RenderedFrom(map[], 0, Fill(map[], WindowRows(), RowMaker(rowData, ColumnIds())).ok)
      ensures forall i :: 0 <= i < |columnIds| && (forall j :: i < j < |columnIds| ==> columnIds[j] != columnIds[i]) ==>
        columns[columnIds[i]].sort == InitialSort(columnSorts[i])
    {
      ProcessColumns(columnIds, columnSorts);
      forall i | 0 <= i < |columnIds| && (forall j :: i < j < |columnIds| ==> columnIds[j] != columnIds[i])
        ensures columns[columnIds[i]].sort == InitialSort(columnSorts[i])
      {
        InitialSortsLast(columnIds, columnSorts, |columnIds|, i);
      }
      var ok := RenderRows();
    }

    /** `__processColumns`: a `Column` per id, in order, each created with
        its `sort` setting; a repeated id keeps the last column made for
        it. */
    method ProcessColumns(columnIds: seq<string>, columnSorts: seq<string>)
      requires |columnSorts| == |columnIds| && columnIds == columnsOrdered
      modifies this`columns
      ensures Valid()
      ensures columns.Keys == InitialSorts(columnIds, columnSorts, |columnIds|).Keys
      ensures forall k :: k in columns ==> columns[k].sort == InitialSorts(columnIds, columnSorts, |columnIds|)[k]
    {
      var built: map<string, Column> := map[];
      var i := 0;
      while i < |columnIds|
        modifies {}
        invariant 0 <= i <= |columnIds|
        invariant built.Keys == set c | c in columnIds[..i]
        invariant forall k :: k in built ==> built[k].id == k && built[k].table == this
        invariant built.Keys == InitialSorts(columnIds, columnSorts, i).Keys
        invariant forall k :: k in built ==> built[k].sort == InitialSorts(columnIds, columnSorts, i)[k]
      {
        var column := new Column(this, columnIds[i], columnSorts[i]);
        built := built[columnIds[i] := column];
        assert columnIds[..i + 1] == columnIds[..i] + [columnIds[i]];
        i := i + 1;
      }
      assert columnIds[..i] == columnIds;
      columns := built;
    }

    /** `__processRow(index)`: makes the row and stores it in the cache; when
        making it throws, the cache is left as it was. */
    method ProcessRow(index: int) returns (row: Option<Row>)
      modifies this`rows
      ensures row == MakeRow(rowData, ColumnIds(), index)
      ensures rows == if row.Some? then old(rows)[index := row.value] else old(rows)
    {
      row := MakeRow(rowData, ColumnIds(), index);
      if row.Some? {
        rows := rows[index := row.value];
      }
    }

    /** `__renderRows`: computes the window, walks its logical rows in order
        reusing each cached row and making the others, and then sets the
        current index. A row that cannot be made stops the render with the
        rows made so far kept and the current index unchanged. */
    method RenderRows() returns (ok: bool)
      modifies this`rows, this`currentIndex
      ensures RenderedFrom(old(rows), old(currentIndex), ok)
    {
      var w := CurrentWindow();
      ok := RenderWindow(w.start, w.end);
      if ok {
        currentIndex := w.currentIndex;
      }
    }

    /** The loop of `__renderRows` over logical rows `start` up to `end`. */
    method RenderWindow(start: int, end: int) returns (ok: bool)
      requires 0 <= start <= end <= ActiveLength()
      modifies this`rows
      ensures var f := Fill(old(rows), BaseIndices(filteredRows, start, end), RowMaker(rowData, ColumnIds()));
        rows == f.cache && ok == f.ok
    {
      ghost var idxs := BaseIndices(filteredRows, start, end);
      ghost var make := RowMaker(rowData, ColumnIds());
      ghost var target := Fill(rows, idxs, make);
      var i := start;
      ghost var k := 0;
      assert idxs[k..] == idxs;
      while i < end
        invariant start <= i <= end && k == i - start
        invariant Fill(rows, idxs[k..], make) == target
      {
        var index := if filteredRows.Some? then filteredRows.value[i] else i;
        FillStep(rows, idxs[k..], make);
        assert idxs[k..][0] == index && idxs[k..][1..] == idxs[k + 1..];
        if index !in rows {
          var row := ProcessRow(index);
          assert row == make(index);
          if row.None? {
            return false;
          }
        }
        i := i + 1;
        k := k + 1;
      }
      assert idxs[k..] == [];
      return true;
    }

    /** `__updateRows(data)`: replaces the rows, empties the cache and
        renders. The filtered list is left as it was, so after a sort it
        still holds indices into the old order. */
    method UpdateRows(data: seq<Record>) returns (ok: bool)
      modifies this`rowData, this`rows, this`currentIndex
      ensures rowData == data
      ensures RenderedFrom(map[], old(currentIndex), ok)
    {
      rowData := data;
      rows := map[];
      ok := RenderRows();
    }

    /** The `rowData` setter: the new rows become the original rows as well
        as the displayed ones. */
    method SetRowData(data: seq<Record>) returns (ok: bool)
      modifies this`originalRowData, this`rowData, this`rows, this`currentIndex
      ensures originalRowData == data && rowData == data
      ensures RenderedFrom(map[], old(currentIndex), ok)
    {
      originalRowData := data;
      ok := UpdateRows(data);
    }

    /** `__sortRows(col, order)`: `'none'` reinstates the original rows;
        otherwise the original rows, sorted into a copy, become the rows.
        The original rows are never reordered and the current rows are not
        read. */
    method SortRows(col: string, order: SortOrder) returns (ok: bool)
      modifies this`rowData, this`rows, this`currentIndex
      ensures SortedFrom(col, order)
      ensures RenderedFrom(map[], old(currentIndex), ok)
    {
      if order == Unsorted {
        ok := UpdateRows(originalRowData);
        return;
      }
      var sorted := SortedCopy(col, ModifierOf(order));
      ok := UpdateRows(sorted);
    }

    /** The sorting part of `__sortRows`: a copy of the original rows, made
        back to front, sorted by `quickSort` under the column comparator. It
        is a permutation of the original rows whose neighbours are in order,
        and sorted throughout when every row has the column. */
    method SortedCopy(col: string, modifier: Modifier) returns (sorted: seq<Record>)
      ensures multiset(sorted) == multiset(originalRowData)
      ensures AdjacentSorted(sorted, ByColumn(col, modifier))
      ensures AllHave(originalRowData, col) ==> Sorted(sorted, ByColumn(col, modifier))
    {
      var original := originalRowData;
      var copy := CopyOriginal();
      SortWhole(copy, ByColumn(col, modifier));
      sorted := copy[..];
      ColumnSortOrder(original, sorted, col, modifier);
    }

    /** The copy `__sortRows` sorts: a new array filled with the original
        rows from the back. */
    method CopyOriginal() returns (copy: array<Record>)
      ensures fresh(copy)
      ensures copy[..] == originalRowData
    {
      var original := originalRowData;
      copy := new Record[|original|];
      var i := |original|;
      while i > 0
        invariant 0 <= i <= copy.Length
        invariant copy[i..] == original[i..]
      {
        i := i - 1;
        copy[i] := original[i];
      }
    }

    /** The `filter` setter. The empty query removes the filter and does not
        render; any other query keeps the indices of the rows that match its
        lower-cased form, in order, and renders. The cache is kept in both
        cases: it is keyed by base index. */
    method SetFilter(query: string) returns (ok: bool)
      modifies this`filteredRows, this`rows, this`currentIndex
      ensures query == "" ==> filteredRows == None && rows == old(rows) && currentIndex == old(currentIndex) && ok
      ensures query != "" ==> filteredRows == Some(Indices(rowData, Lower(query)))
      ensures query != "" ==> RenderedFrom(old(rows), old(currentIndex), ok)
    {
      if query == "" {
        filteredRows := None;
        return true;
      }
      filteredRows := Some(Indices(rowData, Lower(query)));
      ok := RenderRows();
    }

    /** The `rowIndex` setter: scrolls so that row `index` sits just below
        the bottom edge of the viewport. When `index` is a row and the
        viewport fits above it (`clientHeight <= index * rowHeight`), the
        render that follows the scroll reads back `index` or `index - 1`
        (`RowIndexRoundTrip`); otherwise the scroll is clamped and the
        read-back can differ. */
    method SetRowIndex(index: int)
      modifies this`scrollTop
      ensures scrollTop == RowIndexScrollTop(index, rowHeight, viewportHeight)
    {
      scrollTop := index * rowHeight - viewportHeight;
    }

    /** `getSortedColumns`: the sort state of every column that is not
        `'none'`, keyed by column id. */
    method GetSortedColumns() returns (sorted: map<string, SortOrder>)
      requires Valid()
      ensures forall id :: id in sorted <==> id in columns && columns[id].sort != Unsorted
      ensures forall id :: id in sorted ==> sorted[id] == columns[id].sort
    {
      var keys := columnsOrdered;
      sorted := map[];
      var i := 0;
      while i < |keys|
        invariant 0 <= i <= |keys|
        invariant forall id :: id in sorted <==> id in keys[..i] && columns[id].sort != Unsorted
        invariant forall id :: id in sorted ==> sorted[id] == columns[id].sort
      {
        assert keys[i] in columns;
        var column := columns[keys[i]];
        if column.sort != Unsorted {
          sorted := sorted[column.id := column.sort];
        }
        assert keys[..i + 1] == keys[..i] + [keys[i]];
        i := i + 1;
      }
      assert keys[..i] == keys;
    }
  }

  class Column {
    const table: Table
    const id: string
    /** `__sort`. */
    var sort: SortOrder

    /** The constructor applies the `sort` setting through the setter's
        validation, so an unknown setting leaves the column at `'none'`. */
    constructor (table: Table, id: string, sortSetting: string)
      ensures this.table == table && this.id == id
      ensures sort == InitialSort(sortSetting)
    {
      this.table := table;
      this.id := id;
      sort := InitialSort(sortSetting);
    }

    /** The `sort` setter: lower-cases the value and, when it is an allowed
        name, takes that state and, with native sorting, sorts the table by
        this column. A value that is not allowed changes nothing. The other
        columns keep their states. */
    method SetSort(value: string) returns (ok: bool)
      modifies this, table`rowData, table`rows, table`currentIndex
      ensures ParseSort(value).None? ==> sort == old(sort) && ok && unchanged(table)
      ensures ParseSort(value).Some? ==> sort == ParseSort(value).value
      ensures ParseSort(value).Some? && !table.useNativeSorting ==> ok && unchanged(table)
      ensures ParseSort(value).Some? && table.useNativeSorting ==>
        table.SortedFrom(id, sort) && table.RenderedFrom(map[], old(table.currentIndex), ok)
    {
      var parsed := ParseSort(value);
      if parsed.None? {
        return true;
      }
      sort := parsed.value;
      ok := true;
      if table.useNativeSorting {
        ok := table.SortRows(id, sort);
      }
    }

    /** `toggleSort`: moves to the next state of the cycle through the
        setter. */
    method ToggleSort() returns (ok: bool)
      modifies this, table`rowData, table`rows, table`currentIndex
      ensures sort == NextSort(old(sort))
      ensures !table.useNativeSorting ==> ok && unchanged(table)
      ensures table.useNativeSorting ==>
        table.SortedFrom(id, sort) && table.RenderedFrom(map[], old(table.currentIndex), ok)
    {
      ParseSortName(NextSort(sort));
      ok := SetSort(SortName(NextSort(sort)));
    }
  }
}
