/** Positions in row-major storage. The position is defined by recursion on the row, which keeps
    products out of the proofs that use it. */
module RowMajor {

  /** The position row * m + col. */
  function At(m: nat, row: nat, col: nat): nat {
    if row == 0 then col else m + At(m, row - 1, col)
  }

  lemma {:induction false} AtIsRowMajor(m: nat, row: nat, col: nat)
    ensures At(m, row, col) == row * m + col
  {
    if row > 0 {
      AtIsRowMajor(m, row - 1, col);
      assert row * m == (row - 1) * m + m;
    }
  }

  lemma {:induction false} AtOrdered(m: nat, row: nat, col: nat, above: nat)
    requires row < above && col < m
    ensures At(m, row, col) < At(m, above, 0)
  {
    if row > 0 {
      AtOrdered(m, row - 1, col, above - 1);
    }
  }

  lemma {:induction false} AtShift(m: nat, row: nat, col: nat)
    ensures At(m, row, col) == At(m, row, 0) + col
  {
    if row > 0 {
      AtShift(m, row - 1, col);
    }
  }

  lemma AtInjective(m: nat, row: nat, col: nat, row': nat, col': nat)
    requires col < m && col' < m && At(m, row, col) == At(m, row', col')
    ensures row == row' && col == col'
  {
    AtShift(m, row, col);
    AtShift(m, row', col');
    if row < row' {
      AtOrdered(m, row, col, row');
    } else if row' < row {
      AtOrdered(m, row', col', row);
    }
  }

  lemma {:induction false} Locate(m: nat, rows: nat, i: nat) returns (row: nat, col: nat)
    requires i < At(m, rows, 0)
    ensures row < rows && col < m && At(m, row, col) == i
  {
    if i < m {
      row, col := 0, i;
    } else {
      row, col := Locate(m, rows - 1, i - m);
      row := row + 1;
    }
  }
}
