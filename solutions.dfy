/**
 * Solutions seen two ways: as a grid of rows, the form `solve_nonogram`
 * returns, and as a map from cell index to value, the form the consistency
 * test reads. The lemmas here carry facts between the two and between a
 * partial assignment and a complete solution that extends it.
 */
module Solutions {
  import opened CellArith
  import opened Runs
  import opened Lines

  /** The cells of a row-major value list, as an assignment. */
  function Cells(sol: seq<int>): (m: Assignment)
    ensures forall i :: i in m <==> 0 <= i < |sol|
  {
    map i | 0 <= i < |sol| :: sol[i]
  }

  /** The grid's cells in row-major order. */
  function Flatten(g: Grid, width: nat, height: nat): (sol: seq<int>)
    requires |g| == height && forall r :: 0 <= r < height ==> |g[r]| == width
    ensures |sol| == width * height
  {
    seq(width * height, i requires 0 <= i < width * height =>
      RowInGrid(i, width, height); g[i / width][i % width])
  }

  /** Every value `m` fixes is the value of that cell in `sol`. */
  predicate Agrees(m: Assignment, sol: seq<int>)
  {
    forall i :: i in m ==> 0 <= i < |sol| && m[i] == sol[i]
  }

  /** One value per cell, every row and column matching its clue. */
  predicate IsFlatSolution(p: Puzzle, sol: seq<int>)
  {
    |sol| == p.Width() * p.Height() && AllLinesOk(p, Cells(sol))
  }

  /** Setting a cell outside a line does not change whether the line is accepted. */
  lemma LineOkFrame(m: Assignment, indices: seq<nat>, clue: Clue, key: nat, v: int)
    requires forall k :: 0 <= k < |indices| ==> indices[k] != key
    ensures LineOk(m[key := v], indices, clue) == LineOk(m, indices, clue)
  {
    if Complete(m, indices) {
      assert Values(m[key := v], indices) == Values(m, indices);
    }
  }

  /** A line that a solution completes and satisfies is accepted by every part of that solution. */
  lemma LineOkOfAgreeing(m: Assignment, sol: seq<int>, indices: seq<nat>, clue: Clue)
    requires Agrees(m, sol)
    requires LineOk(Cells(sol), indices, clue)
    ensures LineOk(m, indices, clue)
  {
    if Complete(m, indices) {
      assert Complete(Cells(sol), indices);
      assert Values(m, indices) == Values(Cells(sol), indices);
    }
  }

  /**
   * Extending part of a solution by the solution's own value for another cell is
   * never rejected by `is_consistent` (square grids).
   */
  lemma ConsistentWithSolution(p: Puzzle, a: Assignment, sol: seq<int>, index: nat)
    requires p.IsSquare() && IsFlatSolution(p, sol)
    requires Agrees(a, sol) && index < |sol|
    ensures IsConsistent(a, index, sol[index], p)
  {
    var n := p.Width();
    RowInGrid(index, n, n);
    IsConsistentSquare(a, index, sol[index], p);
    var m := a[index := sol[index]];
    assert Agrees(m, sol);
    LineOkOfAgreeing(m, sol, RowLine(index / n, n), p.rowClues[index / n]);
    assert index % n < n;
    LineOkOfAgreeing(m, sol, ColLine(index % n, n, n), p.colClues[index % n]);
  }

  /** The rows and columns of a grid read from row-major cells. */
  lemma RowOfFlatten(g: Grid, width: nat, height: nat, r: nat)
    requires |g| == height && forall q :: 0 <= q < height ==> |g[q]| == width
    requires r < height
    ensures Complete(Cells(Flatten(g, width, height)), RowLine(r, width))
    ensures Values(Cells(Flatten(g, width, height)), RowLine(r, width)) == g[r]
  {
    var sol := Flatten(g, width, height);
    forall c | 0 <= c < width
      ensures RowLine(r, width)[c] < |sol| && sol[RowLine(r, width)[c]] == g[r][c]
    {
      CellInGrid(r, c, width, height);
      CellIndexDivMod(r, c, width);
    }
  }

  lemma ColOfFlatten(g: Grid, width: nat, height: nat, c: nat)
    requires |g| == height && forall q :: 0 <= q < height ==> |g[q]| == width
    requires c < width
    ensures Complete(Cells(Flatten(g, width, height)), ColLine(c, width, height))
    ensures Values(Cells(Flatten(g, width, height)), ColLine(c, width, height)) == Column(g, c)
  {
    var sol := Flatten(g, width, height);
    forall r | 0 <= r < height
      ensures ColLine(c, width, height)[r] < |sol| && sol[ColLine(c, width, height)[r]] == g[r][c]
    {
      CellInGrid(r, c, width, height);
      CellIndexDivMod(r, c, width);
    }
  }

  /** A solution grid, written out cell by cell, satisfies every line and has 0/1 cells. */
  lemma FlattenSolution(g: Grid, p: Puzzle)
    requires IsSolution(g, p)
    ensures IsFlatSolution(p, Flatten(g, p.Width(), p.Height()))
    ensures forall i :: 0 <= i < |Flatten(g, p.Width(), p.Height())| ==>
      Flatten(g, p.Width(), p.Height())[i] in {0, 1}
  {
    var width, height := p.Width(), p.Height();
    var sol := Flatten(g, width, height);
    forall r | 0 <= r < height
      ensures LineOk(Cells(sol), RowLine(r, width), p.rowClues[r])
    {
      RowOfFlatten(g, width, height, r);
    }
    forall c | 0 <= c < width
      ensures LineOk(Cells(sol), ColLine(c, width, height), p.colClues[c])
    {
      ColOfFlatten(g, width, height, c);
    }
    forall i | 0 <= i < |sol|
      ensures sol[i] in {0, 1}
    {
      RowInGrid(i, width, height);
      assert sol[i] == g[i / width][i % width];
    }
  }

  /** The grid built from singleton domains has the values those domains hold. */
  lemma RowOfGrid(d: seq<Domain>, width: nat, height: nat, r: nat)
    requires |d| == width * height && FirstValuesBelow(d, |d|)
    requires r < height
    ensures Complete(Prefix(d, |d|), RowLine(r, width))
    ensures ToGrid(d, width, height)[r] == Values(Prefix(d, |d|), RowLine(r, width))
  {
    forall c | 0 <= c < width
      ensures RowLine(r, width)[c] < |d|
    {
      CellInGrid(r, c, width, height);
    }
  }

  lemma ColOfGrid(d: seq<Domain>, width: nat, height: nat, c: nat)
    requires |d| == width * height && FirstValuesBelow(d, |d|)
    requires c < width
    ensures Complete(Prefix(d, |d|), ColLine(c, width, height))
    ensures Column(ToGrid(d, width, height), c) == Values(Prefix(d, |d|), ColLine(c, width, height))
  {
    forall r | 0 <= r < height
      ensures ColLine(c, width, height)[r] < |d|
    {
      CellInGrid(r, c, width, height);
    }
  }

  /**
   * When every cell has a first value in {0, 1} and every line the values
   * complete matches its clue, the grid `solve_nonogram` builds is a solution.
   */
  lemma GridOfSolvedDomains(p: Puzzle, d: seq<Domain>)
    requires |d| == p.Width() * p.Height() && FirstValuesBelow(d, |d|)
    requires forall i :: 0 <= i < |d| ==> d[i][0] in {0, 1}
    requires AllLinesOk(p, Prefix(d, |d|))
    ensures IsSolution(ToGrid(d, p.Width(), p.Height()), p)
  {
    var width, height := p.Width(), p.Height();
    var g := ToGrid(d, width, height);
    forall r | 0 <= r < height
      ensures IsBinary(g[r]) && CheckConstraint(g[r], p.rowClues[r])
    {
      RowOfGrid(d, width, height, r);
      forall c | 0 <= c < width
        ensures g[r][c] in {0, 1}
      {
        CellInGrid(r, c, width, height);
      }
    }
    forall c | 0 <= c < width
      ensures CheckConstraint(Column(g, c), p.colClues[c])
    {
      ColOfGrid(d, width, height, c);
    }
  }
}
