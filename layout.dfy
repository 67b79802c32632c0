/**
 * The arithmetic behind the DataView grid control: which rows and columns a scroll
 * position makes visible, where each header and data cell is drawn, which text it
 * shows, and how a wheel tick moves the vertical offset.
 *
 * Pixel quantities are reals. The C# `(int)` casts truncate toward zero; every value
 * they are applied to is nonnegative here, so they are `Floor`.
 */
module DataViewLayout {
  import opened Optional
  import opened RowMajor

  /** Default of the RowHeight property. */
  const DefaultRowHeight: real := 32.0
  /** Default of the ColumnWidth property. */
  const DefaultColumnWidth: real := 120.0
  /** Rows and columns rendered beyond the ones that fit in the viewport. */
  const Overscan: nat := 2

  /** An axis-aligned rectangle in the control's own pixel coordinates. */
  datatype Rect = Rect(x: real, y: real, width: real, height: real)

  /** The background a cell is filled with. */
  datatype Fill = LightGray | White | Beige

  /** One cell as Render draws it: its rectangle, its background and its text. */
  datatype Drawn = Drawn(rect: Rect, fill: Fill, text: string)

  /**
   * A bound row object, seen through reflection: the properties it has, each with the
   * text of its value, or None when the value is null.
   */
  type Record = map<string, Option<string>>

  /** The control's sizes and scroll offsets that Render reads. */
  datatype Metrics = Metrics(rowHeight: real, columnWidth: real, verticalOffset: real, horizontalOffset: real)
  {
    predicate Valid()
    {
      rowHeight > 0.0 && columnWidth > 0.0 && verticalOffset >= 0.0 && horizontalOffset >= 0.0
    }
  }

  /** The half-open index span [first, last); it is empty when last <= first. */
  datatype Window = Window(first: nat, last: nat)
  {
    function Count(): nat
    {
      if first <= last then last - first else 0
    }

    predicate Contains(i: int)
    {
      first <= i < last
    }
  }

  function Min(a: int, b: int): int
  {
    if a <= b then a else b
  }

  function Max(a: real, b: real): real
  {
    if a >= b then a else b
  }

  /** The C# `(int)` cast of a nonnegative double: the largest whole number not above it. */
  function Truncate(x: real): (n: nat)
    requires x >= 0.0
    ensures n as real <= x < n as real + 1.0
  {
    x.Floor
  }

  /**
   * The indices drawn along one axis: from the one under the scroll offset, as many as
   * fit in the viewport plus the overscan, cut off at the number of rows or columns.
   */
  function VisibleWindow(offset: real, extent: real, size: real, total: nat): (w: Window)
    requires offset >= 0.0 && extent >= 0.0 && size > 0.0
    ensures w.last <= total
    ensures w.Count() <= Truncate(extent / size) + Overscan
    ensures forall i :: w.Contains(i) ==> 0 <= i < total
  {
    var first := Truncate(offset / size);
    Window(first, Min(total, first + Truncate(extent / size) + Overscan))
  }

  /** The window starts at the index whose span [first * size, (first + 1) * size) holds the offset. */
  lemma WindowStartsUnderOffset(offset: real, extent: real, size: real, total: nat)
    requires offset >= 0.0 && extent >= 0.0 && size > 0.0
    ensures var first := VisibleWindow(offset, extent, size, total).first;
      first as real * size <= offset < (first + 1) as real * size
  {
    FloorSpan(offset, size, Truncate(offset / size));
  }

  /** The window is empty exactly when the offset lies at or past the end of all total entries. */
  lemma OffsetPastEnd(offset: real, extent: real, size: real, total: nat)
    requires offset >= 0.0 && extent >= 0.0 && size > 0.0
    ensures VisibleWindow(offset, extent, size, total).Count() == 0 <==> offset >= total as real * size
  {
    var w := VisibleWindow(offset, extent, size, total);
    WindowStartsUnderOffset(offset, extent, size, total);
    assert w.Count() == 0 <==> w.first >= total;
    if w.first >= total {
      AboveScaled(offset, total as real, w.first as real, size);
    } else {
      BelowScaled(offset, (w.first + 1) as real, total as real, size);
    }
  }

  /** x at or above b * size is at or above a * size for every a <= b. */
  lemma AboveScaled(x: real, a: real, b: real, size: real)
    requires size > 0.0 && a <= b && b * size <= x
    ensures a * size <= x
  {
  }

  /** x below a * size is below b * size for every b >= a. */
  lemma BelowScaled(x: real, a: real, b: real, size: real)
    requires size > 0.0 && a <= b && x < a * size
    ensures x < b * size
  {
  }

  /** If n is the floor of offset / size, the span [n * size, (n + 1) * size) holds offset. */
  lemma FloorSpan(offset: real, size: real, n: nat)
    requires size > 0.0 && offset >= 0.0
    requires n as real <= offset / size < n as real + 1.0
    ensures n as real * size <= offset < (n + 1) as real * size
  {
    var q := offset / size;
    assert q * size == offset;
    assert n as real * size <= q * size;
    var hi := n as real + 1.0;
    ScaleStrict(q, hi, size);
    assert (n + 1) as real == hi;
    assert (n + 1) as real * size == hi * size;
    assert q * size < hi * size;
    assert offset < hi * size;
  }

  /** Scaling by a positive size keeps a strict order of reals. */
  lemma ScaleStrict(a: real, b: real, size: real)
    requires size > 0.0 && a < b
    ensures a * size < b * size
  {
  }

  /** The rows drawn for a viewport of the given height (DataView.cs lines 60-62). */
  function RowWindow(m: Metrics, viewportHeight: real, totalRows: nat): Window
    requires m.Valid() && viewportHeight >= 0.0
  {
    VisibleWindow(m.verticalOffset, viewportHeight, m.rowHeight, totalRows)
  }

  /** The columns drawn for a viewport of the given width (DataView.cs lines 63-65). */
  function ColumnWindow(m: Metrics, viewportWidth: real, totalCols: nat): Window
    requires m.Valid() && viewportWidth >= 0.0
  {
    VisibleWindow(m.horizontalOffset, viewportWidth, m.columnWidth, totalCols)
  }

  /**
   * The window contains every index below `total` whose span
   * [i * size, (i + 1) * size) overlaps the scrolled viewport [offset, offset + extent).
   */
  lemma WindowCoversViewport(offset: real, extent: real, size: real, total: nat, i: nat)
    requires offset >= 0.0 && extent >= 0.0 && size > 0.0
    requires i < total
    requires (i + 1) as real * size > offset && (i as real) * size < offset + extent
    ensures VisibleWindow(offset, extent, size, total).Contains(i)
  {
    var w := VisibleWindow(offset, extent, size, total);
    var q, x := offset / size, extent / size;
    assert q < (i + 1) as real by { BelowQuotient(offset, (i + 1) as real, size); }
    assert i as real < q + x by { AboveQuotient(i as real, offset, extent, size); }
    WindowArith(q, x, w.first, Truncate(x), i);
  }

  /** The index arithmetic of WindowCoversViewport, once the sizes are divided out. */
  lemma WindowArith(q: real, x: real, first: int, e: int, i: int)
    requires first as real <= q < first as real + 1.0
    requires e as real <= x < e as real + 1.0
    requires q < (i + 1) as real && i as real < q + x
    ensures first <= i < first + e + 2
  {
  }

  /** Dividing both sides by a positive size keeps a strict order. */
  lemma BelowQuotient(x: real, y: real, size: real)
    requires size > 0.0 && x < y * size
    ensures x / size < y
  {
  }

  /** Dividing both sides by a positive size keeps a strict order. */
  lemma AboveQuotient(y: real, x1: real, x2: real, size: real)
    requires size > 0.0 && y * size < x1 + x2
    ensures y < x1 / size + x2 / size
  {
  }

  /**
   * Rows are drawn one row height apart below the header, starting with the window's
   * first row. Every row that exists and whose top edge lies inside the viewport is drawn.
   */
  lemma RowsFillViewport(offset: real, extent: real, size: real, total: nat, i: nat)
    requires offset >= 0.0 && extent >= 0.0 && size > 0.0
    requires VisibleWindow(offset, extent, size, total).first <= i < total
    requires (i - VisibleWindow(offset, extent, size, total).first + 1) as real * size < extent
    ensures VisibleWindow(offset, extent, size, total).Contains(i)
  {
    var w := VisibleWindow(offset, extent, size, total);
    AboveQuotient((i - w.first + 1) as real, 0.0, extent, size);
    assert 0.0 / size == 0.0;
    assert (i - w.first + 1) as real < Truncate(extent / size) as real + 1.0;
  }

  /** The name of column c, or "" when there is no such column (lines 77 and 102). */
  function ColumnName(columns: seq<string>, c: nat): string
  {
    if c < |columns| then columns[c] else ""
  }

  /** The text of the property `name` of a record, or "" when it has none or it is null (line 103). */
  function FieldText(item: Record, name: string): string
  {
    if name in item && item[name].Some? then item[name].value else ""
  }

  /** The header cell of column c (lines 70-77). */
  function HeaderCell(m: Metrics, columns: seq<string>, c: nat): Drawn
  {
    Drawn(Rect(c as real * m.columnWidth - m.horizontalOffset, 0.0, m.columnWidth, m.rowHeight),
          LightGray, ColumnName(columns, c))
  }

  /** The data cell of row r and column c when the visible rows start at firstRow (lines 95-103). */
  function DataCell(m: Metrics, columns: seq<string>, firstRow: nat, r: nat, c: nat, item: Record): Drawn
  {
    Drawn(Rect(c as real * m.columnWidth - m.horizontalOffset, (r - firstRow + 1) as real * m.rowHeight,
               m.columnWidth, m.rowHeight),
          if r % 2 == 0 then White else Beige,
          FieldText(item, ColumnName(columns, c)))
  }

  /** The header cells of the columns in `cols`, left to right. */
  function HeaderRow(m: Metrics, columns: seq<string>, cols: Window): seq<Drawn>
  {
    seq(cols.Count(), i requires 0 <= i < cols.Count() => HeaderCell(m, columns, cols.first + i))
  }

  /** The data cells of row r for the columns in `cols`, left to right. */
  function RowCells(m: Metrics, columns: seq<string>, firstRow: nat, r: nat, item: Record, cols: Window): seq<Drawn>
  {
    seq(cols.Count(), j requires 0 <= j < cols.Count() => DataCell(m, columns, firstRow, r, cols.first + j, item))
  }

  /** Extending a column window by one column appends that column's header cell. */
  lemma HeaderRowExtend(m: Metrics, names: seq<string>, first: nat, c: nat)
    requires first <= c
    ensures HeaderRow(m, names, Window(first, c + 1)) == HeaderRow(m, names, Window(first, c)) + [HeaderCell(m, names, c)]
  {
    assert c + 1 - first == (c - first) + 1;
  }

  /** Extending a column window by one column appends that column's data cell. */
  lemma RowCellsExtend(m: Metrics, names: seq<string>, firstRow: nat, r: nat, item: Record, first: nat, c: nat)
    requires first <= c
    ensures RowCells(m, names, firstRow, r, item, Window(first, c + 1))
         == RowCells(m, names, firstRow, r, item, Window(first, c)) + [DataCell(m, names, firstRow, r, c, item)]
  {
    assert c + 1 - first == (c - first) + 1;
  }

  /** The data cells of the rows in `rows`, row by row, each row left to right. */
  function DataRows(m: Metrics, items: seq<Record>, columns: seq<string>, rows: Window, cols: Window): seq<Drawn>
    requires rows.last <= rows.first || rows.last <= |items|
    decreases rows.Count()
  {
    if rows.Count() == 0 then []
    else
      DataRows(m, items, columns, Window(rows.first, rows.last - 1), cols)
      + RowCells(m, columns, rows.first, rows.last - 1, items[rows.last - 1], cols)
  }

  /**
   * Everything one Render pass draws for the given rows and column names, in order:
   * the header row, then the data rows.
   */
  function Frame(m: Metrics, items: seq<Record>, names: seq<string>,
                 viewportWidth: real, viewportHeight: real): seq<Drawn>
    requires m.Valid() && viewportWidth >= 0.0 && viewportHeight >= 0.0
  {
    var rows := RowWindow(m, viewportHeight, |items|);
    var cols := ColumnWindow(m, viewportWidth, |names|);
    HeaderRow(m, names, cols) + DataRows(m, items, names, rows, cols)
  }

  /** Extending a row window by one row appends that row's data cells. */
  lemma DataRowsExtend(m: Metrics, items: seq<Record>, names: seq<string>, first: nat, r: nat, cols: Window)
    requires first <= r < |items|
    ensures DataRows(m, items, names, Window(first, r + 1), cols)
         == DataRows(m, items, names, Window(first, r), cols) + RowCells(m, names, first, r, items[r], cols)
  {
  }

  /**
   * DataRows holds rows.Count() rows of cols.Count() cells, row by row; the cell after
   * the first i rows and j cells is cell (first + i, first + j).
   */
  lemma {:induction false} DataRowsAt(m: Metrics, items: seq<Record>, columns: seq<string>,
                                      rows: Window, cols: Window, i: nat, j: nat)
    requires rows.last <= rows.first || rows.last <= |items|
    requires i < rows.Count() && j < cols.Count()
    ensures |DataRows(m, items, columns, rows, cols)| == RowStart(rows.Count(), cols.Count())
    ensures RowStart(i, cols.Count()) + j < RowStart(rows.Count(), cols.Count())
    ensures DataRows(m, items, columns, rows, cols)[RowStart(i, cols.Count()) + j]
         == DataCell(m, columns, rows.first, rows.first + i, cols.first + j, items[rows.first + i])
    decreases rows.Count()
  {
    var n, k := cols.Count(), rows.Count();
    DataRowsLength(m, items, columns, rows, cols);
    RowStartBound(i, j, k, n);
    if i < k - 1 {
      var shorter := Window(rows.first, rows.last - 1);
      assert shorter.first == rows.first;
      DataRowsAt(m, items, columns, shorter, cols, i, j);
      EarlierRowAt(m, items, columns, rows, cols, RowStart(i, n) + j);
    } else {
      assert k - 1 == i && rows.last - 1 == rows.first + i;
      LastRowAt(m, items, columns, rows, cols, j);
    }
  }

  /** A cell of the rows before the last one sits where it sat without the last row. */
  lemma EarlierRowAt(m: Metrics, items: seq<Record>, columns: seq<string>, rows: Window, cols: Window, x: nat)
    requires rows.Count() > 0 && rows.last <= |items|
    requires x < |DataRows(m, items, columns, Window(rows.first, rows.last - 1), cols)|
    ensures x < |DataRows(m, items, columns, rows, cols)|
    ensures DataRows(m, items, columns, rows, cols)[x]
         == DataRows(m, items, columns, Window(rows.first, rows.last - 1), cols)[x]
  {
    var prefix := DataRows(m, items, columns, Window(rows.first, rows.last - 1), cols);
    var final := RowCells(m, columns, rows.first, rows.last - 1, items[rows.last - 1], cols);
    ConcatLeft(prefix, final, x);
  }

  /** Cell j of the last row comes after all the cells of the rows before it. */
  lemma LastRowAt(m: Metrics, items: seq<Record>, columns: seq<string>, rows: Window, cols: Window, j: nat)
    requires rows.Count() > 0 && rows.last <= |items| && j < cols.Count()
    ensures RowStart(rows.Count() - 1, cols.Count()) + j < |DataRows(m, items, columns, rows, cols)|
    ensures DataRows(m, items, columns, rows, cols)[RowStart(rows.Count() - 1, cols.Count()) + j]
         == DataCell(m, columns, rows.first, rows.last - 1, cols.first + j, items[rows.last - 1])
  {
    var shorter := Window(rows.first, rows.last - 1);
    var prefix := DataRows(m, items, columns, shorter, cols);
    var final := RowCells(m, columns, rows.first, rows.last - 1, items[rows.last - 1], cols);
    var x := RowStart(rows.Count() - 1, cols.Count()) + j;
    DataRowsLength(m, items, columns, shorter, cols);
    assert shorter.Count() == rows.Count() - 1;
    assert x == |prefix| + j;
    assert DataRows(m, items, columns, rows, cols) == prefix + final;
    assert final[j] == DataCell(m, columns, rows.first, rows.last - 1, cols.first + j, items[rows.last - 1]);
    ConcatRight(prefix, final, x, j);
  }

  /** An index into the first part of a concatenation reads the first part. */
  lemma ConcatLeft<T>(a: seq<T>, b: seq<T>, x: nat)
    requires x < |a|
    ensures x < |a + b| && (a + b)[x] == a[x]
  {
  }

  /** Index |a| + y of a concatenation reads element y of the second part. */
  lemma ConcatRight<T>(a: seq<T>, b: seq<T>, x: nat, y: nat)
    requires x == |a| + y && y < |b|
    ensures x < |a + b| && (a + b)[x] == b[y]
  {
  }

  /** DataRows holds rows.Count() rows of cols.Count() cells each. */
  lemma {:induction false} DataRowsLength(m: Metrics, items: seq<Record>, columns: seq<string>,
                                          rows: Window, cols: Window)
    requires rows.last <= rows.first || rows.last <= |items|
    ensures |DataRows(m, items, columns, rows, cols)| == RowStart(rows.Count(), cols.Count())
    decreases rows.Count()
  {
    if rows.Count() > 0 {
      DataRowsLength(m, items, columns, Window(rows.first, rows.last - 1), cols);
    }
  }

  /** A frame holds one header row and one row per visible data row, each as wide as the column window. */
  lemma FrameLength(m: Metrics, items: seq<Record>, names: seq<string>,
                    viewportWidth: real, viewportHeight: real)
    requires m.Valid() && viewportWidth >= 0.0 && viewportHeight >= 0.0
    ensures |Frame(m, items, names, viewportWidth, viewportHeight)|
         == ColumnWindow(m, viewportWidth, |names|).Count() * (RowWindow(m, viewportHeight, |items|).Count() + 1)
  {
    var rows := RowWindow(m, viewportHeight, |items|);
    var cols := ColumnWindow(m, viewportWidth, |names|);
    DataRowsLength(m, items, names, rows, cols);
    RowStartIsProduct(rows.Count(), cols.Count());
  }

  /**
   * The i-th cell drawn is the header of the i-th visible column: at the top edge, at
   * its column's x, one column wide and one row high, showing the column's name.
   */
  lemma FrameHeaderAt(m: Metrics, items: seq<Record>, names: seq<string>,
                      viewportWidth: real, viewportHeight: real, cols: Window, i: nat)
    requires m.Valid() && viewportWidth >= 0.0 && viewportHeight >= 0.0
    requires cols == ColumnWindow(m, viewportWidth, |names|)
    requires i < cols.Count()
    ensures cols.first + i < |names|
    ensures i < |Frame(m, items, names, viewportWidth, viewportHeight)|
    ensures Frame(m, items, names, viewportWidth, viewportHeight)[i]
         == Drawn(Rect((cols.first + i) as real * m.columnWidth - m.horizontalOffset, 0.0,
                       m.columnWidth, m.rowHeight),
                  LightGray, names[cols.first + i])
  {
    assert cols.Contains(cols.first + i);
    var header := HeaderRow(m, names, cols);
    var body := DataRows(m, items, names, RowWindow(m, viewportHeight, |items|), cols);
    assert Frame(m, items, names, viewportWidth, viewportHeight) == header + body;
    assert (header + body)[i] == header[i];
    HeaderRowAt(m, names, cols, i);
  }

  /** The i-th header cell of a column window belongs to the window's i-th column. */
  lemma HeaderRowAt(m: Metrics, names: seq<string>, cols: Window, i: nat)
    requires i < cols.Count() && cols.first + i < |names|
    ensures |HeaderRow(m, names, cols)| == cols.Count()
    ensures HeaderRow(m, names, cols)[i]
         == Drawn(Rect((cols.first + i) as real * m.columnWidth - m.horizontalOffset, 0.0,
                       m.columnWidth, m.rowHeight),
                  LightGray, names[cols.first + i])
  {
  }

  /**
   * After the header row, the cells of visible row i come cols.Count() at a time: the
   * cell of column j of that row sits (i + 1) row heights down, so the first visible
   * row lies exactly one row height below the header, at its column's x and in its
   * column's size; it is filled by the parity of its row index and shows the record's
   * property named after the column (FieldText: "" when the record lacks it or it is null).
   */
  lemma FrameCellAt(m: Metrics, items: seq<Record>, names: seq<string>,
                    viewportWidth: real, viewportHeight: real, rows: Window, cols: Window, i: nat, j: nat)
    requires m.Valid() && viewportWidth >= 0.0 && viewportHeight >= 0.0
    requires rows == RowWindow(m, viewportHeight, |items|)
    requires cols == ColumnWindow(m, viewportWidth, |names|)
    requires i < rows.Count() && j < cols.Count()
    ensures rows.first + i < |items| && cols.first + j < |names|
    ensures CellSlot(cols.Count(), i, j) < |Frame(m, items, names, viewportWidth, viewportHeight)|
    ensures Frame(m, items, names, viewportWidth, viewportHeight)[CellSlot(cols.Count(), i, j)]
         == Drawn(Rect((cols.first + j) as real * m.columnWidth - m.horizontalOffset,
                       (i + 1) as real * m.rowHeight, m.columnWidth, m.rowHeight),
                  if (rows.first + i) % 2 == 0 then White else Beige,
                  FieldText(items[rows.first + i], names[cols.first + j]))
  {
    FrameSplit(m, items, names, viewportWidth, viewportHeight, rows, cols);
    GridCellAt(m, items, names, rows, cols, i, j);
  }

  /** A frame is the header row of its column window followed by the data rows of its row window. */
  lemma FrameSplit(m: Metrics, items: seq<Record>, names: seq<string>,
                   viewportWidth: real, viewportHeight: real, rows: Window, cols: Window)
    requires m.Valid() && viewportWidth >= 0.0 && viewportHeight >= 0.0
    requires rows == RowWindow(m, viewportHeight, |items|)
    requires cols == ColumnWindow(m, viewportWidth, |names|)
    ensures rows.last <= |items| && cols.last <= |names|
    ensures Frame(m, items, names, viewportWidth, viewportHeight)
         == HeaderRow(m, names, cols) + DataRows(m, items, names, rows, cols)
  {
  }

  /**
   * For any row window within the items and column window within the names, cell j of
   * row i is drawn after the header row, i + 1 row heights down, at its column's x.
   */
  lemma GridCellAt(m: Metrics, items: seq<Record>, names: seq<string>, rows: Window, cols: Window, i: nat, j: nat)
    requires rows.last <= |items| && cols.last <= |names|
    requires i < rows.Count() && j < cols.Count()
    ensures rows.first + i < |items| && cols.first + j < |names|
    ensures CellSlot(cols.Count(), i, j) < |HeaderRow(m, names, cols) + DataRows(m, items, names, rows, cols)|
    ensures (HeaderRow(m, names, cols) + DataRows(m, items, names, rows, cols))[CellSlot(cols.Count(), i, j)]
         == Drawn(Rect((cols.first + j) as real * m.columnWidth - m.horizontalOffset,
                       (i + 1) as real * m.rowHeight, m.columnWidth, m.rowHeight),
                  if (rows.first + i) % 2 == 0 then White else Beige,
                  FieldText(items[rows.first + i], names[cols.first + j]))
  {
    HeaderThenRowsAt(m, items, names, rows, cols, i, j);
    DataCellAt(m, names, rows.first, i, cols.first + j, items[rows.first + i]);
  }

  /** Behind a header row of n cells, cell j of data row i is at CellSlot(n, i, j). */
  lemma HeaderThenRowsAt(m: Metrics, items: seq<Record>, names: seq<string>, rows: Window, cols: Window, i: nat, j: nat)
    requires rows.last <= |items|
    requires i < rows.Count() && j < cols.Count()
    ensures CellSlot(cols.Count(), i, j) < |HeaderRow(m, names, cols) + DataRows(m, items, names, rows, cols)|
    ensures (HeaderRow(m, names, cols) + DataRows(m, items, names, rows, cols))[CellSlot(cols.Count(), i, j)]
         == DataCell(m, names, rows.first, rows.first + i, cols.first + j, items[rows.first + i])
  {
    var n := cols.Count();
    var header := HeaderRow(m, names, cols);
    var body := DataRows(m, items, names, rows, cols);
    DataRowsAt(m, items, names, rows, cols, i, j);
    ConcatRight(header, body, CellSlot(n, i, j), RowStart(i, n) + j);
  }

  /**
   * Where, in a frame whose column window has n columns, cell j of visible row i is
   * drawn: after the n header cells and the i data rows before it.
   */
  function CellSlot(n: nat, i: nat, j: nat): nat
  {
    n + RowStart(i, n) + j
  }

  /** Cell j of visible row i is drawn as cell n * (i + 1) + j of the frame. */
  lemma CellSlotValue(n: nat, i: nat, j: nat)
    ensures CellSlot(n, i, j) == n * (i + 1) + j
  {
    RowStartIsProduct(i, n);
  }

  /** The data cell of the i-th visible row sits i + 1 row heights below the top edge. */
  lemma DataCellAt(m: Metrics, names: seq<string>, firstRow: nat, i: nat, c: nat, item: Record)
    requires c < |names|
    ensures DataCell(m, names, firstRow, firstRow + i, c, item)
         == Drawn(Rect(c as real * m.columnWidth - m.horizontalOffset, (i + 1) as real * m.rowHeight,
                       m.columnWidth, m.rowHeight),
                  if (firstRow + i) % 2 == 0 then White else Beige,
                  FieldText(item, names[c]))
  {
    assert firstRow + i - firstRow + 1 == i + 1;
  }

  /** With no columns nothing at all is drawn; with no rows only the header row is. */
  lemma EmptySources(m: Metrics, items: seq<Record>, names: seq<string>,
                     viewportWidth: real, viewportHeight: real)
    requires m.Valid() && viewportWidth >= 0.0 && viewportHeight >= 0.0
    ensures names == [] ==> Frame(m, items, names, viewportWidth, viewportHeight) == []
    ensures items == [] ==>
      Frame(m, items, names, viewportWidth, viewportHeight) == HeaderRow(m, names, ColumnWindow(m, viewportWidth, |names|))
  {
    FrameLength(m, items, names, viewportWidth, viewportHeight);
  }

  /** The vertical offset after one wheel tick: moved by deltaY rows, clamped at 0 (line 118). */
  function WheelStep(offset: real, deltaY: real, rowHeight: real): (next: real)
    ensures next >= 0.0
    ensures next >= offset - deltaY * rowHeight
    ensures next == 0.0 || next == offset - deltaY * rowHeight
  {
    Max(0.0, offset - deltaY * rowHeight)
  }

  /** Scrolling down by some ticks and back up by as many returns to the same offset. */
  lemma WheelDownThenUp(offset: real, ticks: real, rowHeight: real)
    requires offset >= 0.0 && ticks >= 0.0 && rowHeight > 0.0
    ensures WheelStep(WheelStep(offset, -ticks, rowHeight), ticks, rowHeight) == offset
  {
    assert WheelStep(offset, -ticks, rowHeight) == offset + ticks * rowHeight;
  }

  /** Two wheel ticks in the same direction move the offset as one tick of their sum does. */
  lemma WheelStepsCompose(offset: real, d1: real, d2: real, rowHeight: real)
    requires offset >= 0.0 && rowHeight > 0.0
    requires (d1 >= 0.0 && d2 >= 0.0) || (d1 <= 0.0 && d2 <= 0.0)
    ensures WheelStep(WheelStep(offset, d1, rowHeight), d2, rowHeight) == WheelStep(offset, d1 + d2, rowHeight)
  {
    assert (d1 + d2) * rowHeight == d1 * rowHeight + d2 * rowHeight;
  }

  /** A larger offset stays at least as large after the same wheel tick. */
  lemma WheelStepMonotone(o1: real, o2: real, deltaY: real, rowHeight: real)
    requires o1 <= o2
    ensures WheelStep(o1, deltaY, rowHeight) <= WheelStep(o2, deltaY, rowHeight)
  {
  }
}
