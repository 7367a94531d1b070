/** Matrices laid out column by column in a flat buffer. */
module ColumnMajor {

  /** Where cell (row, col) lies: a column further on is `rows` cells further on. */
  function Idx(rows: nat, row: nat, col: nat): nat {
    if col == 0 then row else rows + Idx(rows, row, col - 1)
  }

  lemma {:induction false} IdxIsColumnMajor(rows: nat, row: nat, col: nat)
    ensures Idx(rows, row, col) == row + rows * col
  {
    if col > 0 { IdxIsColumnMajor(rows, row, col - 1); }
  }

  /** Inside a rows x cols matrix, the cells of an earlier column come before those of a later one. */
  lemma {:induction false} IdxBefore(rows: nat, row: nat, col: nat, row': nat, col': nat)
    requires row < rows && col < col'
    ensures Idx(rows, row, col) < Idx(rows, row', col')
    decreases col'
  {
    if col == 0 {
      IdxAtLeast(rows, row', col');
    } else {
      IdxBefore(rows, row, col - 1, row', col' - 1);
    }
  }

  lemma {:induction false} IdxAtLeast(rows: nat, row: nat, col: nat)
    ensures Idx(rows, row, col) >= row && (col > 0 ==> Idx(rows, row, col) >= rows)
  {
    if col > 0 { IdxAtLeast(rows, row, col - 1); }
  }

  lemma {:induction false} IdxSameColumn(rows: nat, row: nat, row': nat, col: nat)
    ensures Idx(rows, row, col) - Idx(rows, row', col) == row - row'
  {
    if col > 0 { IdxSameColumn(rows, row, row', col - 1); }
  }

  /** Every cell of the matrix lies inside the buffer. */
  lemma IdxInBuffer(rows: nat, cols: nat)
    ensures forall r: nat, c: nat :: r < rows && c < cols ==> Idx(rows, r, c) < Idx(rows, 0, cols)
  {
    forall r: nat, c: nat | r < rows && c < cols
      ensures Idx(rows, r, c) < Idx(rows, 0, cols)
    {
      IdxBefore(rows, r, c, 0, cols);
    }
  }

  /** Different cells lie at different places. */
  lemma IdxInjective(rows: nat, row: nat, col: nat)
    requires row < rows
    ensures forall r: nat, c: nat :: r < rows && Idx(rows, r, c) == Idx(rows, row, col) ==> r == row && c == col
  {
    forall r: nat, c: nat | r < rows && Idx(rows, r, c) == Idx(rows, row, col)
      ensures r == row && c == col
    {
      if c < col {
        IdxBefore(rows, r, c, row, col);
      } else if col < c {
        IdxBefore(rows, row, col, r, c);
      } else {
        IdxSameColumn(rows, r, row, col);
      }
    }
  }
}
