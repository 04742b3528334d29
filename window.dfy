/** The window arithmetic of `__renderRows` in betterTableFlex.js: from the
    number of rows in the active view, the row height, the viewport height,
    the scroll position and `maxDisplayRows`, the range of logical rows to
    render, the two spacers and the footer's current index. */
module Window {

  /** A positive integer: `rowHeight` and `maxDisplayRows` as configured. */
  type Positive = x: int | x > 0 witness 1

  /** Everything `__renderRows` derives from the scroll position. Rows
      `start` (that is, `scrollRowIndex - offset`) up to but excluding `end`
      (`rowRange`) are rendered; `top` is the columns' `style.top`,
      `paddingBottom` their bottom padding. */
  datatype Window = Window(
    scroll: int,
    scrollRowIndex: int,
    offset: int,
    start: int,
    end: int,
    top: int,
    paddingBottom: int,
    currentIndex: int)

  function Max(a: int, b: int): int { if a < b then b else a }
  function Min(a: int, b: int): int { if a < b then a else b }

  /** Multiplying by a positive row height keeps the order. */
  lemma MulMono(a: int, b: int, d: Positive)
    requires a <= b
    ensures a * d <= b * d
  {
    assert b * d - a * d == (b - a) * d;
  }

  /** From `a * d < (b + 1) * d` follows `a <= b`. */
  lemma MulCancel(a: int, b: int, d: Positive)
    requires a * d < b * d + d
    ensures a <= b
  {
    if a > b {
      MulMono(b + 1, a, d);
    }
  }

  /** `Math.floor(x / d)` for a positive `d` is the unique `q` with
      `x == q * d + r` and `0 <= r < d`; Dafny's `/` on `int` agrees with
      `Math.floor` here, negative `x` included. */
  lemma DivUnique(x: int, d: Positive, q: int, r: int)
    requires x == q * d + r && 0 <= r < d
    ensures x / d == q && x % d == r
  {
    var q', r' := x / d, x % d;
    assert x == q' * d + r';
    MulCancel(q', q, d);
    MulCancel(q, q', d);
  }

  /** `Math.floor(x / d)` rows of height `d` reach at most `x`, and one row
      more passes it. */
  lemma FloorDivBounds(x: int, d: Positive)
    ensures (x / d) * d <= x < (x / d) * d + d
  {
    assert x == (x / d) * d + x % d;
  }

  /** `Math.floor(x / d)` is at least `m` when `x` is at least `m * d`. */
  lemma FloorDivAtLeast(x: int, d: Positive, m: int)
    requires m * d <= x
    ensures m <= x / d
  {
    var q := x / d;
    assert x == q * d + x % d;
    assert (q + 1) * d == q * d + d;
    if q < m {
      MulMono(q + 1, m, d);
    }
  }

  /** `Math.floor(x / d)` does not exceed `n` when `x` does not exceed
      `d * n`. */
  lemma FloorDivAtMost(x: int, d: Positive, n: int)
    requires x <= d * n
    ensures x / d <= n
  {
    MulCancel(x / d, n, d);
  }

  /** The scroll position `__renderRows` works from: `scrollTop` clamped to
      the scrollable extent, which is floored at 0 when the content is
      shorter than the viewport. */
  function ClampedScroll(n: nat, rowHeight: Positive, viewport: nat, scrollTop: int): (s: int)
    ensures 0 <= s <= Max(rowHeight * n - viewport, 0)
    ensures 0 <= scrollTop <= rowHeight * n - viewport ==> s == scrollTop
    ensures scrollTop >= Max(rowHeight * n - viewport, 0) ==> s == Max(rowHeight * n - viewport, 0)
    ensures scrollTop <= 0 ==> s == 0
    ensures 0 <= s / rowHeight <= n
  {
    var s := Max(Min(scrollTop, rowHeight * n - viewport), 0);
    FloorDivAtMost(s, rowHeight, n);
    FloorDivAtLeast(s, rowHeight, 0);
    s
  }

  /** The overscan: `scrollRowIndex - floor(maxDisplayRows / 2)` clamped to
      `[0, floor(maxDisplayRows / 2)]`. */
  function Overscan(scrollRowIndex: nat, maxRows: Positive): (o: int)
    ensures 0 <= o <= maxRows / 2 && o <= scrollRowIndex
  {
    Min(Max(scrollRowIndex - maxRows / 2, 0), maxRows / 2)
  }

  /** The window for `n` logical rows (`dataLength`: the filtered list's
      length when a filter is set, the row count otherwise). The first
      visible row is the row under the scroll position; the window runs
      from the overscan rows before it up to `maxDisplayRows` rows from it,
      cut at the last row, so it always holds the first visible row when
      there are rows and a viewport. */
  function Compute(n: nat, rowHeight: Positive, viewport: nat, scrollTop: int, maxRows: Positive): (w: Window)
    ensures w.scroll == ClampedScroll(n, rowHeight, viewport, scrollTop)
    ensures 0 <= w.scroll <= Max(rowHeight * n - viewport, 0)
    ensures 0 <= scrollTop <= rowHeight * n - viewport ==> w.scroll == scrollTop
    ensures w.scrollRowIndex * rowHeight <= w.scroll < w.scrollRowIndex * rowHeight + rowHeight
    ensures 0 <= w.start <= w.scrollRowIndex <= w.end <= n
    ensures w.end - w.scrollRowIndex == Min(maxRows, n - w.scrollRowIndex)
    ensures n > 0 && viewport > 0 ==> w.scrollRowIndex < w.end
    ensures w.offset == Overscan(w.scrollRowIndex, maxRows) && w.start == w.scrollRowIndex - w.offset
    ensures 0 <= w.offset <= maxRows / 2 && w.offset <= w.scrollRowIndex
    ensures w.end - w.start <= maxRows + maxRows / 2
    ensures w.paddingBottom >= 0
    ensures w.currentIndex == Min(w.scrollRowIndex + viewport / rowHeight, n - 1)
    ensures w.currentIndex <= n - 1
  {
    var absoluteHeight := rowHeight * n;
    var scroll := ClampedScroll(n, rowHeight, viewport, scrollTop);
    var scrollRowIndex := scroll / rowHeight;
    FloorDivBounds(scroll, rowHeight);
    assert n > 0 && viewport > 0 ==> scrollRowIndex < n by {
      if n > 0 && viewport > 0 {
        assert scroll < rowHeight * n by { MulMono(1, n, rowHeight); }
        FooterArith(scroll, n, rowHeight, viewport);
      }
    }
    var rowRange := Min(scrollRowIndex + maxRows, n);
    var offset := Overscan(scrollRowIndex, maxRows);
    var scrollOffset := scroll - offset * rowHeight;
    Window(
      scroll,
      scrollRowIndex,
      offset,
      scrollRowIndex - offset,
      rowRange,
      (scrollOffset / rowHeight) * rowHeight,
      Max(absoluteHeight - viewport - scroll, 0),
      Min(scrollRowIndex + viewport / rowHeight, n - 1))
  }

  /** `floor((s - o * h) / h) * h` is `(floor(s / h) - o) * h`, and lies
      within one `h` below `s - o * h`. */
  lemma RowFloorShift(s: int, o: int, h: Positive)
    ensures ((s - o * h) / h) * h == (s / h - o) * h
    ensures (s / h - o) * h <= s - o * h < (s / h - o) * h + h
  {
    var q, r := s / h, s % h;
    assert s == q * h + r;
    assert s - o * h == (q - o) * h + r;
    DivUnique(s - o * h, h, q - o, r);
  }

  /** The leading spacer is the window's first row times the row height: it
      stands exactly for the rows above the window, and lies within one row
      below the scroll position less the overscan. */
  lemma SpacerTopIsWindowStart(n: nat, rowHeight: Positive, viewport: nat, scrollTop: int, maxRows: Positive)
    ensures var w := Compute(n, rowHeight, viewport, scrollTop, maxRows);
      && w.top == w.start * rowHeight
      && w.top <= w.scroll - w.offset * rowHeight < w.top + rowHeight
  {
    var w := Compute(n, rowHeight, viewport, scrollTop, maxRows);
    RowFloorShift(w.scroll, w.offset, rowHeight);
  }

  /** The scroll position, the viewport and the trailing spacer add up to the
      content height (`rowHeight * n`), or to the viewport when the content is
      shorter than it. */
  lemma SpacerBottomFillsContent(n: nat, rowHeight: Positive, viewport: nat, scrollTop: int, maxRows: Positive)
    ensures var w := Compute(n, rowHeight, viewport, scrollTop, maxRows);
      w.scroll + viewport + w.paddingBottom == Max(rowHeight * n, viewport)
  {
  }

  /** The example of a five-row table scrolled by two rows with
      `maxDisplayRows` 2: the window is rows 1, 2 and 3, one more than
      `maxDisplayRows`, because the overscan is added in front of a window
      that is already `maxDisplayRows` long. */
  lemma OverscanExample()
    ensures var w := Compute(5, 32, 64, 64, 2);
      w.scrollRowIndex == 2 && w.offset == 1 && w.start == 1 && w.end == 4
      && w.top == 32 && w.paddingBottom == 32 && w.currentIndex == 4
  {
  }

  /** The arithmetic behind `FooterShowsRange`, on the scroll position alone. */
  lemma FooterArith(scroll: int, n: nat, rowHeight: Positive, viewport: nat)
    requires n > 0 && 0 <= scroll < rowHeight * n
    ensures 0 <= scroll / rowHeight <= n - 1
    ensures 0 <= viewport / rowHeight
    ensures viewport / rowHeight >= 1 <==> viewport >= rowHeight
  {
    FloorDivAtLeast(scroll, rowHeight, 0);
    FloorDivAtLeast(viewport, rowHeight, 0);
    var q := scroll / rowHeight;
    assert q * rowHeight <= scroll < rowHeight * n;
    assert (n - 1) * rowHeight + rowHeight == rowHeight * n;
    MulCancel(q, n - 1, rowHeight);
    if viewport >= rowHeight {
      FloorDivAtLeast(viewport, rowHeight, 1);
    } else {
      DivUnique(viewport, rowHeight, 0, viewport);
    }
  }

  /** When there are rows and the viewport has a height, the footer shows a
      range ("Showing a to b") rather than a single row exactly when the viewport holds at least one whole row and the first
      visible row is not the last row; its upper end never passes the last
      row and never precedes the first visible row. */
  lemma FooterShowsRange(n: nat, rowHeight: Positive, viewport: nat, scrollTop: int, maxRows: Positive)
    requires n > 0 && viewport > 0
    ensures var w := Compute(n, rowHeight, viewport, scrollTop, maxRows);
      && w.scrollRowIndex <= w.currentIndex <= n - 1
      && (w.scrollRowIndex < w.currentIndex <==> viewport >= rowHeight && w.scrollRowIndex < n - 1)
  {
    var w := Compute(n, rowHeight, viewport, scrollTop, maxRows);
    var q, k := w.scroll / rowHeight, viewport / rowHeight;
    assert w.scroll < rowHeight * n by { MulMono(1, n, rowHeight); }
    assert 0 <= q <= n - 1 && 0 <= k && (k >= 1 <==> viewport >= rowHeight) by {
      FooterArith(w.scroll, n, rowHeight, viewport);
    }
    assert w.scrollRowIndex == q && w.currentIndex == Min(q + k, n - 1);
  }

  /** The `rowIndex` setter: the scroll position that puts row `index` at the
      bottom edge of the viewport. */
  function RowIndexScrollTop(index: int, rowHeight: Positive, viewport: nat): (s: int)
    ensures s + viewport == index * rowHeight
  {
    index * rowHeight - viewport
  }

  /** `floor((i * h - v) / h) + floor(v / h)` is `i` when `h` divides `v`
      and `i - 1` otherwise. */
  lemma ScrollBackArith(i: int, v: int, h: Positive)
    ensures (i * h - v) / h + v / h == if v % h == 0 then i else i - 1
  {
    var k, r := v / h, v % h;
    assert v == k * h + r;
    if r == 0 {
      assert i * h - v == (i - k) * h + 0;
      DivUnique(i * h - v, h, i - k, 0);
    } else {
      assert i * h - v == (i - k - 1) * h + (h - r);
      DivUnique(i * h - v, h, i - k - 1, h - r);
    }
  }

  /** For a row `index` above which the viewport fits, setting `rowIndex`
      and rendering reads back through the `rowIndex` getter
      (`__currentIndex`) the index that was set when the viewport is a whole
      number of rows, and one less when it is not. */
  lemma RowIndexRoundTrip(n: nat, index: int, rowHeight: Positive, viewport: nat, maxRows: Positive)
    requires viewport <= index * rowHeight && index < n
    ensures var w := Compute(n, rowHeight, viewport, RowIndexScrollTop(index, rowHeight, viewport), maxRows);
      w.currentIndex == if viewport % rowHeight == 0 then index else index - 1
  {
    MulMono(index, n, rowHeight);
    var w := Compute(n, rowHeight, viewport, RowIndexScrollTop(index, rowHeight, viewport), maxRows);
    assert w.scroll == index * rowHeight - viewport;
    ScrollBackArith(index, viewport, rowHeight);
  }
}
