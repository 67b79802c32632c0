/**
 * The DataView control: its bound sources, its sizes and its scroll offsets, the Render
 * pass that emits the visible header and data cells, and the wheel handler, the only
 * code that changes the scroll state.
 */
module DataViewControl {
  import opened Optional
  import opened DataViewLayout

  class DataView {
    /** The bound rows (ItemsSource); None is a null source. */
    var itemsSource: Option<seq<Record>>
    /** The bound column names (Columns); None is a null list. */
    var columns: Option<seq<string>>
    var rowHeight: real
    var columnWidth: real
    var verticalOffset: real
    var horizontalOffset: real

    /** Sizes are positive and offsets are never negative. */
    ghost predicate Valid()
      reads this
    {
      CurrentMetrics().Valid()
    }

    function CurrentMetrics(): Metrics
      reads this
    {
      Metrics(rowHeight, columnWidth, verticalOffset, horizontalOffset)
    }

    /** A new control: nothing bound, default sizes, scrolled to the origin. */
    constructor ()
      ensures Valid()
      ensures itemsSource == None && columns == None
      ensures rowHeight == DefaultRowHeight && columnWidth == DefaultColumnWidth
      ensures verticalOffset == 0.0 && horizontalOffset == 0.0
    {
      itemsSource, columns := None, None;
      rowHeight, columnWidth := DefaultRowHeight, DefaultColumnWidth;
      verticalOffset, horizontalOffset := 0.0, 0.0;
    }

    /**
     * One paint pass over a viewport of the given size: the cells it draws, in the
     * order it draws them. A null ItemsSource or Columns counts as an empty list.
     */
    method Render(viewportWidth: real, viewportHeight: real) returns (drawn: seq<Drawn>)
      requires Valid() && viewportWidth >= 0.0 && viewportHeight >= 0.0
      ensures drawn == Frame(CurrentMetrics(), itemsSource.GetOr([]), columns.GetOr([]),
                             viewportWidth, viewportHeight)
    {
      var m := CurrentMetrics();
      var items := itemsSource.GetOr([]);
      var names := columns.GetOr([]);
      var totalRows, totalCols := |items|, |names|;

      var firstRow := Truncate(verticalOffset / rowHeight);
      var visibleRows := Truncate(viewportHeight / rowHeight) + Overscan;
      var lastRow := Min(totalRows, firstRow + visibleRows);
      var firstCol := Truncate(horizontalOffset / columnWidth);
      var visibleCols := Truncate(viewportWidth / columnWidth) + Overscan;
      var lastCol := Min(totalCols, firstCol + visibleCols);
      ghost var rows := RowWindow(m, viewportHeight, totalRows);
      ghost var cols := ColumnWindow(m, viewportWidth, totalCols);
      assert rows == Window(firstRow, lastRow) && cols == Window(firstCol, lastCol);

      drawn := DrawHeader(m, names, firstCol, lastCol);

      var r := firstRow;
      while r < lastRow
        invariant firstRow <= r && (r <= lastRow || r == firstRow)
        invariant drawn == HeaderRow(m, names, cols) + DataRows(m, items, names, Window(firstRow, r), cols)
      {
        if r >= |items| {
          break;
        }
        var item := items[r];
        drawn := DrawRow(m, names, firstRow, r, item, firstCol, lastCol, drawn);
        DataRowsExtend(m, items, names, firstRow, r, cols);
        r := r + 1;
      }
    }

    /** The header loop of a paint pass (lines 68-86): one header cell per column, left to right. */
    method DrawHeader(m: Metrics, names: seq<string>, firstCol: nat, lastCol: nat) returns (drawn: seq<Drawn>)
      ensures drawn == HeaderRow(m, names, Window(firstCol, lastCol))
    {
      drawn := [];
      var c := firstCol;
      while c < lastCol
        invariant firstCol <= c && (c <= lastCol || c == firstCol)
        invariant drawn == HeaderRow(m, names, Window(firstCol, c))
      {
        HeaderRowExtend(m, names, firstCol, c);
        drawn := drawn + [HeaderCell(m, names, c)];
        c := c + 1;
      }
      assert Window(firstCol, c).Count() == Window(firstCol, lastCol).Count();
    }

    /**
     * The inner loop of a paint pass (lines 93-112): the data cells of row r for the
     * columns firstCol up to lastCol, appended to what was drawn before, left to right.
     */
    method DrawRow(m: Metrics, names: seq<string>, firstRow: nat, r: nat, item: Record,
                   firstCol: nat, lastCol: nat, before: seq<Drawn>) returns (drawn: seq<Drawn>)
      ensures drawn == before + RowCells(m, names, firstRow, r, item, Window(firstCol, lastCol))
    {
      drawn := before;
      var c := firstCol;
      while c < lastCol
        invariant firstCol <= c && (c <= lastCol || c == firstCol)
        invariant drawn == before + RowCells(m, names, firstRow, r, item, Window(firstCol, c))
      {
        RowCellsExtend(m, names, firstRow, r, item, firstCol, c);
        drawn := drawn + [DataCell(m, names, firstRow, r, c, item)];
        c := c + 1;
      }
      assert Window(firstCol, c).Count() == Window(firstCol, lastCol).Count();
    }

    /**
     * A null Columns list makes a paint pass draw nothing at all; a null ItemsSource
     * makes it draw the header row alone (lines 51-54).
     */
    lemma NullSources(viewportWidth: real, viewportHeight: real)
      requires Valid() && viewportWidth >= 0.0 && viewportHeight >= 0.0
      ensures columns == None ==>
                Frame(CurrentMetrics(), itemsSource.GetOr([]), columns.GetOr([]), viewportWidth, viewportHeight) == []
      ensures itemsSource == None ==>
                Frame(CurrentMetrics(), itemsSource.GetOr([]), columns.GetOr([]), viewportWidth, viewportHeight)
                == HeaderRow(CurrentMetrics(), columns.GetOr([]),
                             ColumnWindow(CurrentMetrics(), viewportWidth, |columns.GetOr([])|))
    {
      EmptySources(CurrentMetrics(), itemsSource.GetOr([]), columns.GetOr([]), viewportWidth, viewportHeight);
    }

    /** A wheel event of deltaY ticks scrolls vertically by deltaY rows, never above the top. */
    method OnPointerWheelChanged(deltaY: real)
      requires Valid()
      modifies this`verticalOffset
      ensures Valid()
      ensures verticalOffset == WheelStep(old(verticalOffset), deltaY, rowHeight)
    {
      verticalOffset := Max(0.0, verticalOffset - deltaY * rowHeight);
    }
  }
}
