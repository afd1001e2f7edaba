/** The grid view of the buffer: `cols` byte cells per row (16 in the
    editor), address = row * cols + col. Division is integer (floor)
    division, which is Python's `//` and Dafny's `/` for a positive divisor. */
module CellMap {

  /** `addr_to_row_col` / `AddrToRowCol`. */
  function AddrToRowCol(addr: int, cols: nat): (rc: (int, int))
    requires 0 < cols
    ensures 0 <= rc.1 < cols
    ensures rc.0 * cols + rc.1 == addr
  {
    (addr / cols, addr % cols)
  }

  /** `row_col_to_addr`, and `RowColToAddr` without its clamping. */
  function RowColToAddr(row: int, col: int, cols: nat): (a: int)
    ensures 0 <= col < cols ==> a / cols == row && a % cols == col
  {
    if 0 <= col < cols then
      DivUnique(row * cols + col, row, col, cols);
      row * cols + col
    else row * cols + col
  }

  lemma MulLe(x: int, y: int, c: nat)
    requires x <= y
    ensures x * c <= y * c
  {
    assert y * c - x * c == (y - x) * c;
  }

  /** A row/column pair with the column inside the row has one address. */
  lemma DivUnique(a: int, q: int, r: int, cols: nat)
    requires 0 < cols && 0 <= r < cols && a == q * cols + r
    ensures a / cols == q && a % cols == r
  {
    var q' := a / cols;
    var r' := a % cols;
    if q' < q {
      MulLe(q' + 1, q, cols);
      assert false;
    } else if q < q' {
      MulLe(q + 1, q', cols);
      assert false;
    }
  }

  /** Encoding a cell and decoding it again gives the same cell. */
  lemma RowColRoundTrip(row: int, col: int, cols: nat)
    requires 0 < cols && 0 <= col < cols
    ensures AddrToRowCol(RowColToAddr(row, col, cols), cols) == (row, col)
  {
    DivUnique(row * cols + col, row, col, cols);
  }

  /** Decoding an address and encoding the cell gives the address back. */
  lemma AddrRoundTrip(addr: int, cols: nat)
    requires 0 < cols
    ensures var rc := AddrToRowCol(addr, cols); RowColToAddr(rc.0, rc.1, cols) == addr
  {
  }

  /** Address order is row-major order of the cells. */
  lemma AddrOrder(a: int, b: int, cols: nat)
    requires 0 < cols
    ensures a <= b <==> a / cols < b / cols || (a / cols == b / cols && a % cols <= b % cols)
  {
    var qa, ra := a / cols, a % cols;
    var qb, rb := b / cols, b % cols;
    if qa < qb {
      MulLe(qa + 1, qb, cols);
    } else if qb < qa {
      MulLe(qb + 1, qa, cols);
    }
  }
}
