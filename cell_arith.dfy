/**
 * Row-major cell numbering. A grid with `width` cells per row stores the cell in
 * row `row`, column `col` at index `row * width + col`; the index of a cell is
 * split back with `/` and `%`, which for a positive divisor and a non-negative
 * index agree with Python's `//` and `%`.
 */
module CellArith {

  /** Index of the cell in row `row`, column `col` of a grid `width` cells wide. */
  function CellIndex(row: nat, col: nat, width: nat): nat
  {
    row * width + col
  }

  lemma MulAtLeast(k: int, width: nat)
    requires k >= 1
    ensures k * width >= width
  {
  }

  /** Splitting the index of a cell gives back its row and its column. */
  lemma CellIndexDivMod(row: nat, col: nat, width: nat)
    requires col < width
    ensures CellIndex(row, col, width) / width == row
    ensures CellIndex(row, col, width) % width == col
  {
    var i := row * width + col;
    var q, m := i / width, i % width;
    assert i == q * width + m;
    assert (q - row) * width == col - m;
    if q > row {
      MulAtLeast(q - row, width);
    } else if q < row {
      MulAtLeast(row - q, width);
    }
  }

  /** Two cells share an index only if they are the same cell. */
  lemma CellIndexInjective(r1: nat, c1: nat, r2: nat, c2: nat, width: nat)
    requires c1 < width && c2 < width
    ensures CellIndex(r1, c1, width) == CellIndex(r2, c2, width) <==> r1 == r2 && c1 == c2
  {
    CellIndexDivMod(r1, c1, width);
    CellIndexDivMod(r2, c2, width);
  }

  /** Every index is the cell of its own row and column. */
  lemma SplitIndex(i: nat, width: nat)
    requires width > 0
    ensures 0 <= i / width && i % width < width
    ensures i == CellIndex(i / width, i % width, width)
  {
  }

  /** An index inside a grid of `height` rows lies in one of those rows. */
  lemma RowInGrid(i: nat, width: nat, height: nat)
    requires i < width * height
    ensures width > 0 && 0 <= i / width < height
  {
  }

  /** Every cell of a grid with `height` rows has an index inside the grid. */
  lemma AllCellsInGrid(width: nat, height: nat)
    ensures forall row, col :: 0 <= row < height && 0 <= col < width ==> CellIndex(row, col, width) < width * height
  {
    forall row, col | 0 <= row < height && 0 <= col < width
      ensures CellIndex(row, col, width) < width * height
    {
      CellInGrid(row, col, width, height);
    }
  }

  /** A cell of a grid with `height` rows has an index inside the grid. */
  lemma CellInGrid(row: nat, col: nat, width: nat, height: nat)
    requires row < height && col < width
    ensures CellIndex(row, col, width) < width * height
  {
    MulAtLeast(height - row, width);
    assert (height - row) * width == height * width - row * width;
  }
}
