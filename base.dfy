/**
 * Small shared vocabulary: an optional value, and the row-major offset
 * arithmetic that every pixel loop of the image decoder relies on.
 */
module Base {

  datatype Option<+T> = None | Some(value: T)

  /** An unsigned 8-bit value. */
  type byte = x: int | 0 <= x < 256

  /** Index of cell (row, col) in a row-major grid whose rows hold `cols` cells. */
  function Offset(cols: nat, row: nat, col: nat): nat
  {
    row * cols + col
  }

  lemma MulMonotone(a: nat, b: nat, c: nat)
    requires a <= b
    ensures a * c <= b * c
  {
  }

  /** A cell of an earlier row lies before the first cell of a later row. */
  lemma OffsetBeforeRow(cols: nat, row: nat, col: nat, laterRow: nat)
    requires col < cols && row < laterRow
    ensures Offset(cols, row, col) < laterRow * cols
  {
    MulMonotone(row + 1, laterRow, cols);
  }

  /** The cell after the last one of a row is the first one of the next row. */
  lemma OffsetNextRow(cols: nat, row: nat)
    ensures Offset(cols, row, cols) == Offset(cols, row + 1, 0)
  {
  }

  /** The grid of `rows` full rows ends at offset cols * rows. */
  lemma OffsetEnd(cols: nat, rows: nat)
    ensures Offset(cols, rows, 0) == cols * rows
  {
  }

  /** Every cell of a `rows` x `cols` grid has an offset inside the grid. */
  lemma OffsetInGrid(cols: nat, rows: nat, row: nat, col: nat)
    requires row < rows && col < cols
    ensures Offset(cols, row, col) < cols * rows
  {
    OffsetBeforeRow(cols, row, col, rows);
  }

  /** Distinct cells have distinct offsets. */
  lemma OffsetInjective(cols: nat, row1: nat, col1: nat, row2: nat, col2: nat)
    requires col1 < cols && col2 < cols
    requires Offset(cols, row1, col1) == Offset(cols, row2, col2)
    ensures row1 == row2 && col1 == col2
  {
    if row1 < row2 {
      OffsetBeforeRow(cols, row1, col1, row2);
      assert false;
    } else if row2 < row1 {
      OffsetBeforeRow(cols, row2, col2, row1);
      assert false;
    }
  }

  /** Every offset inside the grid is the offset of some cell. */
  lemma OffsetCovers(cols: nat, rows: nat, i: nat)
    requires i < cols * rows
    ensures cols > 0 && i / cols < rows && i % cols < cols
    ensures Offset(cols, i / cols, i % cols) == i
  {
    var r, c := i / cols, i % cols;
    assert i == r * cols + c;
    if rows <= r {
      MulMonotone(rows, r, cols);
      assert false;
    }
  }

  /** Quotient and remainder are determined by any decomposition with the remainder in range. */
  lemma DivModOf(r: nat, d: nat, q: nat, m: nat)
    requires 0 <= m < d && r == d * q + m
    ensures r / d == q && r % d == m
  {
    var q', m' := r / d, r % d;
    assert r == d * q' + m';
    if q' < q {
      MulMonotone(q' + 1, q, d);
      assert false;
    } else if q < q' {
      MulMonotone(q + 1, q', d);
      assert false;
    }
  }

  /** The row and column of a cell are recovered from its offset by division. */
  lemma OffsetDivMod(cols: nat, row: nat, col: nat)
    requires col < cols
    ensures Offset(cols, row, col) / cols == row && Offset(cols, row, col) % cols == col
  {
    var i := Offset(cols, row, col);
    OffsetCovers(cols, row + 1, i);
    OffsetInjective(cols, i / cols, i % cols, row, col);
  }
}
