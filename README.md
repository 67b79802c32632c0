# DataView grid control and 2-D array data provider, in Dafny

This project models two pieces of the DataView repository, an Avalonia grid widget written in C#.

- **The virtualized grid control** (`DataView/Controls/DataView.cs`). It binds a list of row objects (`ItemsSource`) and a list of column names (`Columns`). On every paint it turns its scroll offsets, the viewport size, `RowHeight` (default 32) and `ColumnWidth` (default 120) into a half-open window of visible rows and columns. The window holds two extra rows and two extra columns beyond what fits. It then draws:
  - one light-gray header cell per visible column;
  - one data cell per visible (row, column) pair, filled white or beige by the parity of the row.

  A header shows the column's name. A cell shows the row object's property of that name as text, or nothing when the property is missing or null. The wheel handler moves the vertical offset by `deltaY` row heights and clamps it at 0.
- **The data provider** (`DataView/ViewModels/BasicDataProvider.cs`). It wraps a `double[,]` and the two header lists it was built with. It offers the row and column counts, cell lookup and the two header lists. Its enumerator walks the matrix row by row.

Modules:

- `Optional` (optional.dfy): `Option` and `Result`.
- `RowMajor` (rowmajor.dfy): row-major index arithmetic shared by the control and the provider. `RowStart(i, n)` is the position where row i of an n-wide grid begins.
- `DataViewLayout` (layout.dfy): the pure arithmetic of the control. This covers:
  - the visible window (`VisibleWindow`, `RowWindow`, `ColumnWindow`);
  - the header and data cells (`HeaderCell`, `DataCell`);
  - the text fallbacks (`ColumnName`, `FieldText`);
  - `Frame`, the specification of everything one Render pass draws, in order;
  - the wheel step (`WheelStep`).
- `DataViewControl` (control.dfy): the class `DataView`, with its bound sources, sizes and scroll offsets. `Render` is the header loop (`DrawHeader`) followed by the data-row loop, whose inner loop over the columns is `DrawRow`. It is proved equal to `Frame`. `OnPointerWheelChanged` mutates the vertical offset.
- `DataProvider` (provider.dfy): the class `BasicDataProvider` over an `array2<real>`. `GetEnumerator` is its nested loop, proved to list the cells in row-major order.

Modelling choices:

- **Numbers.** C# doubles are Dafny `real`s. The `(int)` casts at DataView.cs lines 60–65 truncate toward zero. Every value they apply to is nonnegative, so they are `Floor` (`Truncate`).
- **Drawing.** Each cell drawn becomes a `Drawn(rect, fill, text)` value. `Render` returns these in draw order.
- **Reflection.** A row object is a `Record`, a map from property name to `Option<string>`. A missing key means there is no such property, and `None` means a null value. A present value is its `ToString()` text.
- **Null sources.** A null `ItemsSource` or `Columns` is `None`. Render reads it as an empty list, as lines 51–52 do.
- **Header lists.** The provider's header lists are shared `IList<string>` references. They are modelled as a `StringList` class, so the provider hands back the very object it was given.
- **Out-of-range lookups.** `GetCell` returns a `Result`. An index outside the array gives `Err(IndexOutOfRange)`, where C# throws.

## Model

| member | source | states |
|---|---|---|
| DataViewLayout.Truncate | DataView/Controls/DataView.cs:60-65 | The cast of a nonnegative double to int is the whole number n with n ≤ x < n + 1. |
| DataViewLayout.VisibleWindow | DataView/Controls/DataView.cs:60-65 | The window's end never passes the row (column) count. It holds at most floor(extent / size) + 2 indices. Every index in it is in range, so the `break` at line 91 cannot fire. |
| DataViewLayout.WindowStartsUnderOffset | DataView/Controls/DataView.cs:60-63 | The first visible index is the one whose span [first·size, (first+1)·size) holds the scroll offset. |
| DataViewLayout.OffsetPastEnd | DataView/Controls/DataView.cs:60-62 | The window is empty if and only if the offset is at or past count·size, i.e. firstRow ≥ totalRows; then no rows are drawn. |
| DataViewLayout.WindowCoversViewport | DataView/Controls/DataView.cs:60-65 | Every existing row (column) whose span overlaps the viewport [offset, offset + extent) is in the window. |
| DataViewLayout.RowsFillViewport | DataView/Controls/DataView.cs:60-62 | Every existing row from the first visible one whose top edge, drawn at y = (i − first + 1)·RowHeight, lies inside the viewport height is drawn. |
| DataViewLayout.DataRowsAt | DataView/Controls/DataView.cs:89-99 | The data rows hold rows·cols cells in row-major order. The cell after the first i visible rows and j further cells (position `RowStart(i, cols) + j`, i.e. i·cols + j) is the data cell of row first+i and column first+j. |
| DataViewLayout.DataRowsLength | DataView/Controls/DataView.cs:89-93 | The data loops draw exactly (visible rows) × (visible columns) cells. |
| DataViewLayout.FrameLength | DataView/Controls/DataView.cs:68-113 | One pass draws the header row plus one row per visible item, each as wide as the column window. |
| DataViewLayout.FrameHeaderAt | DataView/Controls/DataView.cs:68-77 | The i-th cell drawn is column first+i's header, light gray. Its rectangle is at x = c·ColumnWidth − horizontalOffset, y = 0, ColumnWidth × RowHeight. It shows `columns[c]`, which always exists. |
| DataViewLayout.FrameCellAt | DataView/Controls/DataView.cs:89-103 | The data cell of visible row i and column j comes after the header row, at slot `CellSlot(cols, i, j)`, which `CellSlotValue` shows is cols·(i+1)+j. Its rectangle is at x = c·ColumnWidth − horizontalOffset, y = (i+1)·RowHeight, ColumnWidth × RowHeight. It is white on even rows and beige on odd ones, and shows the record's field, or "". |
| DataViewLayout.EmptySources | DataView/Controls/DataView.cs:51-54 | With no columns, nothing is drawn. With no rows, only the header row is drawn. |
| DataViewLayout.RowWindow | DataView/Controls/DataView.cs:60-62 | Definition: the rows drawn are the `VisibleWindow` of the vertical offset, the viewport height, RowHeight and the item count. Its bounds are proved in `VisibleWindow`, `WindowStartsUnderOffset`, `OffsetPastEnd`, `WindowCoversViewport` and `RowsFillViewport`. |
| DataViewLayout.ColumnWindow | DataView/Controls/DataView.cs:63-65 | Definition: the columns drawn are the `VisibleWindow` of the horizontal offset, the viewport width, ColumnWidth and the column count. Its bounds are proved in `VisibleWindow` and `WindowCoversViewport`. |
| DataViewLayout.ColumnName | DataView/Controls/DataView.cs:77 | Definition: `columns[c]`, or "" past the end of the list (also used at line 102). `FrameHeaderAt` and `FrameCellAt` show that every drawn column has a name, so the fallback is never drawn. |
| DataViewLayout.FieldText | DataView/Controls/DataView.cs:102-103 | Definition: the text of the record's property of that name, or "" when the record has no such property or its value is null. `FrameCellAt` shows that every drawn data cell carries exactly this text. |
| DataViewLayout.HeaderCell | DataView/Controls/DataView.cs:70-77 | Definition of one header cell. Its position in the frame, rectangle, fill and text are proved in `FrameHeaderAt`. |
| DataViewLayout.DataCell | DataView/Controls/DataView.cs:95-103 | Definition of one data cell. Its position in the frame, rectangle, fill and text are proved in `DataRowsAt` and `FrameCellAt`. |
| DataViewLayout.Frame | DataView/Controls/DataView.cs:68-113 | Definition of a paint pass: the header row, then the visible data rows. `Render` is proved equal to it. Its length, cells and empty cases are proved in `FrameLength`, `FrameHeaderAt`, `FrameCellAt` and `EmptySources`; the proof step `FrameSplit` unfolds it over the two windows. |
| DataViewLayout.GridCellAt | DataView/Controls/DataView.cs:95-103 | For any windows inside the sources, data cell (i, j) at slot `CellSlot(cols, i, j)` has the rectangle, parity fill and field text of row first+i and column first+j. |
| DataViewLayout.CellSlotValue | DataView/Controls/DataView.cs:68-97 | The slot of data cell (i, j) behind a header row of n cells is n·(i+1)+j. |
| DataViewLayout.WheelStep | DataView/Controls/DataView.cs:118 | The new offset is never negative. It is the moved offset, or 0 when moving would go below 0. |
| DataViewLayout.WheelDownThenUp | DataView/Controls/DataView.cs:118 | Scrolling down by t ticks and then up by t ticks returns to the starting offset. |
| DataViewLayout.WheelStepsCompose | DataView/Controls/DataView.cs:118 | Two ticks in the same direction equal one tick of their sum. |
| DataViewLayout.WheelStepMonotone | DataView/Controls/DataView.cs:118 | A wheel tick preserves the order of two offsets. |
| DataViewControl.DataView.constructor | DataView/Controls/DataView.cs:30-47 | A new control has nothing bound, RowHeight 32, ColumnWidth 120 and both offsets 0. |
| DataViewControl.DataView.Render | DataView/Controls/DataView.cs:49-114 | The cells drawn by the header loop and then by the data-row loop (with its `break` at line 91) are exactly `Frame`: the header row followed by the visible data rows, read from the current sizes and offsets. |
| DataViewControl.DataView.DrawHeader | DataView/Controls/DataView.cs:68-86 | The header loop draws exactly `HeaderRow` of its column window: one header cell per column, left to right. |
| DataViewControl.DataView.DrawRow | DataView/Controls/DataView.cs:93-112 | The inner loop appends exactly the data cells of row r for its column window, left to right, after what was drawn before. |
| DataViewControl.DataView.NullSources | DataView/Controls/DataView.cs:51-54 | With a null `Columns`, a paint pass of the current state draws nothing. With a null `ItemsSource`, it draws the header row of the column window alone. |
| DataViewControl.DataView.OnPointerWheelChanged | DataView/Controls/DataView.cs:116-121 | Only the vertical offset changes. It becomes `WheelStep` of the old one, so it stays nonnegative. |
| DataProvider.BasicDataProvider.constructor | DataView/ViewModels/BasicDataProvider.cs:12-17 | The provider keeps the very array and header lists it is given. `GetColumnHeaders` and `GetRowHeaders` (lines 22-23) return those same objects. |
| DataProvider.BasicDataProvider.RowCount | DataView/ViewModels/BasicDataProvider.cs:19 | Definition: the array's first dimension. Its use as the row bound is proved in the `GetCell` and `GetEnumerator` rows. |
| DataProvider.BasicDataProvider.ColumnCount | DataView/ViewModels/BasicDataProvider.cs:20 | Definition: the array's second dimension. Its use as the column bound and row width is proved in the `GetCell` and `GetEnumerator` rows. |
| DataProvider.BasicDataProvider.GetColumnHeaders | DataView/ViewModels/BasicDataProvider.cs:22 | Definition: the column-header list the provider was built with. The constructor row proves it is the very object passed in. |
| DataProvider.BasicDataProvider.GetRowHeaders | DataView/ViewModels/BasicDataProvider.cs:23 | Definition: the row-header list the provider was built with. The constructor row proves it is the very object passed in. |
| DataProvider.BasicDataProvider.GetCell | DataView/ViewModels/BasicDataProvider.cs:19-21 | Lookup succeeds exactly for 0 ≤ row < RowCount and 0 ≤ col < ColumnCount, and then yields `dataSource[row, col]`. Any other index is an index-out-of-range error. |
| DataProvider.BasicDataProvider.GetEnumerator | DataView/ViewModels/BasicDataProvider.cs:26-31 | The enumeration has RowCount × ColumnCount elements, and element k is cell (k / ColumnCount, k % ColumnCount). Cell (r, c) comes at position r·ColumnCount + c. The array is not modified. |
| DataProvider.BasicDataProvider.RowMajorPositions | DataView/ViewModels/BasicDataProvider.cs:28-30 | The row-by-row listing of the array has RowCount·ColumnCount elements, and element k is cell (k / ColumnCount, k % ColumnCount). |
| DataProvider.BasicDataProvider.RowMajorCells | DataView/ViewModels/BasicDataProvider.cs:28-30 | In the row-by-row listing, cell (r, c) sits at position r·ColumnCount + c. |
| DataProvider.BasicDataProvider.RowsOfLength | DataView/ViewModels/BasicDataProvider.cs:28-29 | The first n passes of the outer loop yield n·ColumnCount elements. |
| DataProvider.BasicDataProvider.RowsOfAt | DataView/ViewModels/BasicDataProvider.cs:28-30 | After n rows, cell (r, c) for r < n is at position r·ColumnCount + c. |
| DataProvider.BasicDataProvider.RowsOfPosition | DataView/ViewModels/BasicDataProvider.cs:28-30 | Position k of the full listing is the cell that `GetCell(k / ColumnCount, k % ColumnCount)` returns. |

## Left out

- IEEE-754 behaviour of doubles: rounding, NaN, infinities and overflow of the `(int)` casts are not modelled. Every operation that divides requires `RowHeight > 0` and `ColumnWidth > 0`. `Render` also requires viewport sizes ≥ 0 and nonnegative offsets (`Valid()`).
- Drawing APIs: pens, brushes, `FormattedText`, typefaces, font sizes 16 and 14, and the (8, 8) text inset (DataView.cs lines 75-85 and 100-111) are foreign rendering calls. Each drawn cell is only its rectangle, fill and text. The gray border stroked around every cell is implied, not recorded.
- The Avalonia property system (`StyledProperty`, `AvaloniaProperty.Register`, lines 14-44) is modelled as plain fields with the same defaults. `InvalidateVisual()` and `e.Handled = true` (lines 119-120) are host notifications with no effect on the model's state.
- `Bounds`: the viewport's width and height are parameters of `Render`.
- `gridWidth` and `gridHeight` (lines 56-57) are computed and never used in the source, so they are not modelled.
- Reflection (`GetType().GetProperty`, `GetValue`, `ToString`) is replaced by the `Record` map of already-rendered texts.
- DataViewControl.DataView.Render: the two exceptions a paint pass can throw on null data are not modelled, because an element of a Dafny `seq` cannot be null. A null element of `ItemsSource` makes `item.GetType()` at line 102 throw `NullReferenceException` as soon as one column is visible. A null entry of `Columns`, once its column is visible and at least one data row is drawn, reaches `GetProperty(null)` at line 102, which throws `ArgumentNullException`. The model's rows are always records and its column names always strings.
- The `""` fallback for the column name at line 102 cannot be reached: the column loop stops at `lastCol ≤ columns.Count`. `FrameCellAt` and `FrameHeaderAt` show that every visible column has a name.
- `DataProvider.BasicDataProvider.GetEnumerator`: the C# iterator is lazy and reads the array at each step. The model returns the whole sequence at once, as a snapshot. Updates made to the array between two steps of an enumeration are not modelled.
- `DataProvider.BasicDataProvider.constructor`: a null `dataSource` is not modelled, because an `array2` is never null. The header lists may be null (`StringList?`).
- The `IDataProvider` interface is not part of this model.
- `MainWindowViewModel.cs` is not part of this model. It fills the matrix from a background task with random values and reports progress through the UI dispatcher; that is concurrency and nondeterminism in host code.
- `DataView.cs` has no scrollbars, no thumb geometry, no drag state, no upper clamp on the scroll offset, no row-header column, no clipping of overflowing cells and no decimal-place formatting. The model has none of them either:
  - the wheel handler clamps only at 0 (line 118);
  - the cell x is `c·ColumnWidth − horizontalOffset`, with no row-header width;
  - the visible counts divide the whole viewport, without subtracting a scrollbar.
- The horizontal offset is never written by the source (line 47), so the model has no operation that changes it.
