/**
 * BasicDataProvider: a read-only view of a two-dimensional array of doubles and of the
 * two header lists it was built with.
 */
module DataProvider {
  import opened Optional
  import opened RowMajor

  /** A list of strings held by reference, as an IList<string> is: whoever holds it sees its updates. */
  class StringList {
    var elements: seq<string>

    constructor (elements: seq<string>)
      ensures this.elements == elements
    {
      this.elements := elements;
    }
  }

  /** What indexing outside an array's bounds throws. */
  datatype IndexError = IndexOutOfRange

  class BasicDataProvider {
    const dataSource: array2<real>
    const columns: StringList?
    const rowHeaders: StringList?

    /** Keeps the very array and lists it is given; nothing is copied. */
    constructor (dataSource: array2<real>, columns: StringList?, rowHeaders: StringList?)
      ensures this.dataSource == dataSource
      ensures GetColumnHeaders() == columns && GetRowHeaders() == rowHeaders
    {
      this.dataSource := dataSource;
      this.columns := columns;
      this.rowHeaders := rowHeaders;
    }

    function RowCount(): nat
    {
      dataSource.Length0
    }

    function ColumnCount(): nat
    {
      dataSource.Length1
    }

    /** The value at (row, col), or the exception the array access throws out of bounds. */
    function GetCell(row: int, col: int): (r: Result<real, IndexError>)
      reads dataSource
      ensures r.Ok? <==> 0 <= row < RowCount() && 0 <= col < ColumnCount()
      ensures r.Ok? ==> r.value == dataSource[row, col]
    {
      if 0 <= row < dataSource.Length0 && 0 <= col < dataSource.Length1 then Ok(dataSource[row, col])
      else Err(IndexOutOfRange)
    }

    function GetColumnHeaders(): StringList?
    {
      columns
    }

    function GetRowHeaders(): StringList?
    {
      rowHeaders
    }

    /**
     * The enumeration of the provider: every cell once, row by row, each row left to
     * right. Element k is the cell (k / ColumnCount(), k % ColumnCount()), and cell
     * (r, c) is element CellIndex(r, c).
     */
    method GetEnumerator() returns (s: seq<real>)
      ensures s == RowsOf(RowCount())
      ensures |s| == RowCount() * ColumnCount()
      ensures forall k :: 0 <= k < |s| ==>
                ColumnCount() > 0 && GetCell(k / ColumnCount(), k % ColumnCount()) == Ok(s[k])
      ensures forall r, c :: 0 <= r < RowCount() && 0 <= c < ColumnCount() ==>
                CellIndex(r, c) < |s| && s[CellIndex(r, c)] == dataSource[r, c]
    {
      var rows, cols := dataSource.Length0, dataSource.Length1;
      s := [];
      var r := 0;
      while r < dataSource.Length0
        invariant 0 <= r <= rows
        invariant s == RowsOf(r)
      {
        var c := 0;
        while c < dataSource.Length1
          invariant 0 <= c <= cols
          invariant s == RowsOf(r) + RowOf(r)[..c]
        {
          assert RowOf(r)[..c + 1] == RowOf(r)[..c] + [dataSource[r, c]];
          s := s + [dataSource[r, c]];
          c := c + 1;
        }
        assert RowOf(r)[..c] == RowOf(r);
        r := r + 1;
      }
      RowMajorPositions();
      RowMajorCells();
    }

    /** Element k of all the rows together is the cell (k / ColumnCount(), k % ColumnCount()). */
    lemma RowMajorPositions()
      ensures |RowsOf(RowCount())| == RowCount() * ColumnCount()
      ensures forall k :: 0 <= k < |RowsOf(RowCount())| ==>
                ColumnCount() > 0 && GetCell(k / ColumnCount(), k % ColumnCount()) == Ok(RowsOf(RowCount())[k])
    {
      RowsOfLength(RowCount());
      forall k | 0 <= k < |RowsOf(RowCount())|
        ensures ColumnCount() > 0 && GetCell(k / ColumnCount(), k % ColumnCount()) == Ok(RowsOf(RowCount())[k])
      {
        RowsOfPosition(k);
      }
    }

    /** Cell (r, c) sits at position CellIndex(r, c) of all the rows together. */
    lemma RowMajorCells()
      ensures forall r, c :: 0 <= r < RowCount() && 0 <= c < ColumnCount() ==>
                CellIndex(r, c) < |RowsOf(RowCount())| && RowsOf(RowCount())[CellIndex(r, c)] == dataSource[r, c]
    {
      forall r, c | 0 <= r < RowCount() && 0 <= c < ColumnCount()
        ensures CellIndex(r, c) < |RowsOf(RowCount())| && RowsOf(RowCount())[CellIndex(r, c)] == dataSource[r, c]
      {
        RowsOfAt(RowCount(), r, c);
      }
    }

    /** Where cell (row, col) comes in a row-by-row walk of the array. */
    function CellIndex(row: nat, col: nat): nat
    {
      row * ColumnCount() + col
    }

    /** The cells of row r, left to right. */
    ghost function RowOf(r: nat): seq<real>
      reads dataSource
      requires r < RowCount()
    {
      seq(ColumnCount(), c requires 0 <= c < ColumnCount() reads dataSource => dataSource[r, c])
    }

    /** The cells of the first n rows, row by row. */
    ghost function RowsOf(n: nat): seq<real>
      reads dataSource
      requires n <= RowCount()
    {
      if n == 0 then [] else RowsOf(n - 1) + RowOf(n - 1)
    }

    /** Position k of all the rows is the cell (k / ColumnCount(), k % ColumnCount()). */
    lemma RowsOfPosition(k: nat)
      requires k < RowCount() * ColumnCount()
      ensures ColumnCount() > 0 && k < |RowsOf(RowCount())|
      ensures GetCell(k / ColumnCount(), k % ColumnCount()) == Ok(RowsOf(RowCount())[k])
    {
      RowsOfLength(RowCount());
      UnflattenIndex(k, RowCount(), ColumnCount());
      RowsOfAt(RowCount(), k / ColumnCount(), k % ColumnCount());
    }

    /** The first n rows hold n * ColumnCount() cells. */
    lemma {:induction false} RowsOfLength(n: nat)
      requires n <= RowCount()
      ensures |RowsOf(n)| == n * ColumnCount()
    {
      if n > 0 {
        RowsOfLength(n - 1);
        RowsStep(n, ColumnCount());
      }
    }

    /** Within the first n rows, cell c of row r is at r * ColumnCount() + c. */
    lemma {:induction false} RowsOfAt(n: nat, r: nat, c: nat)
      requires n <= RowCount() && r < n && c < ColumnCount()
      ensures r * ColumnCount() + c < |RowsOf(n)|
      ensures RowsOf(n)[r * ColumnCount() + c] == dataSource[r, c]
    {
      var cols := ColumnCount();
      RowsOfLength(n);
      RowsOfLength(n - 1);
      RowMajorBound(r, c, n, cols);
      if r < n - 1 {
        RowsOfAt(n - 1, r, c);
        assert (RowsOf(n - 1) + RowOf(n - 1))[r * cols + c] == RowsOf(n - 1)[r * cols + c];
      } else {
        LastRowIndex(r, c, n, cols);
        assert (RowsOf(n - 1) + RowOf(n - 1))[r * cols + c] == RowOf(n - 1)[c];
      }
    }
  }
}
