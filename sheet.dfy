/** The output spreadsheet: a header row written once, then writeToSheet,
    which puts each record's five fields into consecutive rows. Cells are
    addressed by (row, column), both counted from 1 as in
    setCellValueByColumnAndRow; a cell holds the string it was given. */
module Sheets {
  import opened Extraction

  /** The header written by `fromArray` at A1 (parser.php:26-28). */
  function HeaderRow(): map<(int, int), string> {
    map[(1, 1) := "Price", (1, 2) := "Name", (1, 3) := "SKU", (1, 4) := "Upc", (1, 5) := "Qty"]
  }

  /** Column `col` of a record: price, name, sku, upc, qty. */
  function Column(rec: Record, col: int): string
    requires 1 <= col <= 5
  {
    if col == 1 then rec.price
    else if col == 2 then rec.name
    else if col == 3 then rec.sku
    else if col == 4 then rec.upc
    else rec.qty
  }

  /** The five cells of one row, as one iteration of the loop sets them. */
  function WriteRow(cells: map<(int, int), string>, row: int, rec: Record): map<(int, int), string> {
    cells[(row, 1) := rec.price][(row, 2) := rec.name][(row, 3) := rec.sku]
         [(row, 4) := rec.upc][(row, 5) := rec.qty]
  }

  /** The cells after writing `data` from row `row` on. */
  function Written(cells: map<(int, int), string>, row: int, data: seq<Record>): map<(int, int), string>
    decreases |data|
  {
    if data == [] then cells
    else WriteRow(Written(cells, row, data[..|data| - 1]), row + |data| - 1, data[|data| - 1])
  }

  /** Record k lands in row `row + k`, columns 1 to 5 in the order price,
      name, sku, upc, qty, and every other cell keeps its old value. */
  lemma {:induction false} WrittenCell(cells: map<(int, int), string>, row: int, data: seq<Record>, r: int, c: int)
    ensures (r, c) in Written(cells, row, data) <==>
      (r, c) in cells || (row <= r < row + |data| && 1 <= c <= 5)
    ensures row <= r < row + |data| && 1 <= c <= 5 ==>
      Written(cells, row, data)[(r, c)] == Column(data[r - row], c)
    ensures !(row <= r < row + |data| && 1 <= c <= 5) && (r, c) in cells ==>
      Written(cells, row, data)[(r, c)] == cells[(r, c)]
    decreases |data|
  {
    if data != [] {
      var n := |data| - 1;
      WrittenCell(cells, row, data[..n], r, c);
      if row <= r < row + n {
        assert data[..n][r - row] == data[r - row];
      }
    }
  }

  /** Writing two batches one after the other, the second starting where the
      first ended, writes their concatenation. */
  lemma {:induction false} WrittenConcat(cells: map<(int, int), string>, row: int, a: seq<Record>, b: seq<Record>)
    ensures Written(Written(cells, row, a), row + |a|, b) == Written(cells, row, a + b)
    decreases |b|
  {
    if b == [] {
      assert a + b == a;
    } else {
      var n := |b| - 1;
      WrittenConcat(cells, row, a, b[..n]);
      assert (a + b)[..|a + b| - 1] == a + b[..n];
      assert (a + b)[|a + b| - 1] == b[n];
    }
  }

  /** Data rows start at 2, so the header row is never overwritten. */
  lemma HeaderKept(data: seq<Record>, c: int)
    requires 1 <= c <= 5
    ensures (1, c) in Written(HeaderRow(), 2, data)
    ensures Written(HeaderRow(), 2, data)[(1, c)] == HeaderRow()[(1, c)]
  {
    WrittenCell(HeaderRow(), 2, data, 1, c);
  }

  /** The active sheet of the Spreadsheet object. */
  class Spreadsheet {
    var cells: map<(int, int), string>

    /** `new Spreadsheet()` followed by `fromArray` of the header. */
    constructor ()
      ensures cells == HeaderRow()
    {
      cells := HeaderRow();
    }

    method SetCellValueByColumnAndRow(col: int, row: int, value: string)
      modifies this
      ensures cells == old(cells)[(row, col) := value]
    {
      cells := cells[(row, col) := value];
    }

    /** writeToSheet without the save (parser.php:212-221). */
    method WriteToSheet(rowIndex: int, data: seq<Record>)
      modifies this
      ensures cells == Written(old(cells), rowIndex, data)
    {
      var r := rowIndex;
      var k := 0;
      while k < |data|
        invariant 0 <= k <= |data|
        invariant r == rowIndex + k
        invariant cells == Written(old(cells), rowIndex, data[..k])
      {
        var rec := data[k];
        SetCellValueByColumnAndRow(1, r, rec.price);
        SetCellValueByColumnAndRow(2, r, rec.name);
        SetCellValueByColumnAndRow(3, r, rec.sku);
        SetCellValueByColumnAndRow(4, r, rec.upc);
        SetCellValueByColumnAndRow(5, r, rec.qty);
        assert data[..k + 1][..k] == data[..k];
        r := r + 1;
        k := k + 1;
      }
      assert data[..k] == data;
    }
  }
}
