/**
 * The helpers both solvers share: the puzzle, the cell numbering, the
 * consistency test of one cell value against the row and the column through
 * it, and the branch step that copies the domains, fixes one cell and filters
 * the later ones. The two source files hold identical copies of these
 * (lines 5-33 of each; the branch step at Nonogram.py:45-49 and
 * Nonogram-improved.py:58-62; the result grid at Nonogram.py:68-69 and
 * Nonogram-improved.py:112-113).
 */
module Lines {
  import opened Wrappers
  import opened CellArith
  import opened Runs

  /** Run lengths of one row or column, in reading order. */
  type Clue = seq<int>

  /**
   * A puzzle: one clue per row, top to bottom, and one per column, left to right.
   * The solvers take `height = len(row_clues)` and `width = len(col_clues)`.
   */
  datatype Puzzle = Puzzle(rowClues: seq<Clue>, colClues: seq<Clue>)
  {
    function Height(): nat { |rowClues| }

    function Width(): nat { |colClues| }

    predicate IsSquare() { |rowClues| == |colClues| }
  }

  /** Candidate values of one cell, in the order they are tried. */
  type Domain = seq<int>

  /** Values fixed so far, by cell index (the source's `assignment` dictionary). */
  type Assignment = map<int, int>

  /** A solution grid, row by row. */
  type Grid = seq<seq<int>>

  // ---------------------------------------------------------------------------
  // Lines of a grid stored row by row

  /** The cells of row `row`, left to right. */
  function RowLine(row: nat, width: nat): seq<nat>
  {
    seq(width, c requires 0 <= c < width => CellIndex(row, c, width))
  }

  /** The cells of column `col` of a grid with `height` rows, top to bottom. */
  function ColLine(col: nat, width: nat, height: nat): seq<nat>
  {
    seq(height, r requires 0 <= r < height => CellIndex(r, col, width))
  }

  /** `get_row_indices`: the cells of the row that `index` lies in. */
  function RowIndices(index: nat, width: nat): (r: seq<nat>)
    requires width > 0
    ensures |r| == width
    ensures r == RowLine(index / width, width)
    ensures r[index % width] == index
  {
    var row := index / width;
    SplitIndex(index, width);
    var r := seq(width, i requires 0 <= i < width => CellIndex(row, i, width));
    assert r[index % width] == CellIndex(row, index % width, width);
    r
  }

  /**
   * `get_col_indices`: `index % height + k * height` for k below `height`, the
   * column `index % height` of a grid whose rows are `height` cells wide.
   */
  function ColIndices(index: nat, height: nat): (r: seq<nat>)
    requires height > 0
    ensures |r| == height
    ensures r == ColLine(index % height, height, height)
  {
    seq(height, i requires 0 <= i < height => index % height + i * height)
  }

  /** Each position of a row holds the cell of that column, in that row. */
  lemma RowLineCells(row: nat, width: nat)
    ensures forall c :: 0 <= c < width ==>
      RowLine(row, width)[c] / width == row && RowLine(row, width)[c] % width == c
  {
    forall c | 0 <= c < width
      ensures RowLine(row, width)[c] / width == row && RowLine(row, width)[c] % width == c
    {
      CellIndexDivMod(row, c, width);
    }
  }

  /** Each position of a column holds the cell of that row, in that column. */
  lemma ColLineCells(col: nat, width: nat, height: nat)
    requires col < width
    ensures forall r :: 0 <= r < height ==>
      ColLine(col, width, height)[r] / width == r && ColLine(col, width, height)[r] % width == col
  {
    forall r | 0 <= r < height
      ensures ColLine(col, width, height)[r] / width == r && ColLine(col, width, height)[r] % width == col
    {
      CellIndexDivMod(r, col, width);
    }
  }

  /**
   * On a square grid `get_col_indices` gives the column through `index`, with
   * `index` itself at position `index / width`, the position the source overwrites.
   */
  lemma ColIndicesSquare(index: nat, n: nat)
    requires index < n * n
    ensures n > 0 && 0 <= index / n < n
    ensures ColIndices(index, n) == ColLine(index % n, n, n)
    ensures ColIndices(index, n)[index / n] == index
  {
    RowInGrid(index, n, n);
    SplitIndex(index, n);
  }

  /**
   * On a grid of width 3 and height 2, the column through cell 1 (row 0,
   * column 1) is cells 1 and 4, but `get_col_indices` yields cells 1 and 3,
   * and cell 3 is row 1, column 0: on a grid that is not square the list is
   * not a column.
   */
  lemma ColIndicesNotAColumnWhenNotSquare()
    ensures ColLine(1, 3, 2) == [1, 4]
    ensures ColIndices(1, 2) == [1, 3]
  {
    assert CellIndex(1, 1, 3) == 4;
  }

  // ---------------------------------------------------------------------------
  // Partial lines

  /** `[assignment.get(i, None) for i in indices]` */
  function Lookup(a: Assignment, indices: seq<nat>): (line: seq<Option<int>>)
    ensures |line| == |indices|
    ensures forall k :: 0 <= k < |indices| ==>
      line[k] == if indices[k] in a then Some(a[indices[k]]) else None
  {
    seq(|indices|, k requires 0 <= k < |indices| => if indices[k] in a then Some(a[indices[k]]) else None)
  }

  /** The values of a line with no missing entry. */
  function Unwrap(line: seq<Option<int>>): (values: seq<int>)
    requires None !in line
    ensures |values| == |line|
    ensures forall k :: 0 <= k < |line| ==> values[k] == line[k].value
  {
    seq(|line|, k requires 0 <= k < |line| => line[k].value)
  }

  /** Every cell of the line has a value in `m`. */
  predicate Complete(m: Assignment, indices: seq<nat>)
  {
    forall k :: 0 <= k < |indices| ==> indices[k] in m
  }

  /** The values `m` gives the cells of a complete line. */
  function Values(m: Assignment, indices: seq<nat>): (values: seq<int>)
    requires Complete(m, indices)
    ensures |values| == |indices|
  {
    seq(|indices|, k requires 0 <= k < |indices| => m[indices[k]])
  }

  /** A line that is not complete yet is accepted; a complete one must match its clue. */
  predicate LineOk(m: Assignment, indices: seq<nat>, clue: Clue)
  {
    Complete(m, indices) ==> CheckConstraint(Values(m, indices), clue)
  }

  /**
   * `is_consistent`: set the cell `index` to `value` in the row and the column
   * through it, as read from `a`; reject only a line with no missing entry
   * whose runs differ from its clue. The row is checked first. A value is
   * rejected only when `a` holds every other cell of the row, or every other
   * entry of the column list.
   */
  function IsConsistent(a: Assignment, index: nat, value: int, p: Puzzle): (ok: bool)
    requires index < p.Width() * p.Height()
    requires index % p.Height() < p.Width()
    ensures !ok ==>
      || (forall k :: 0 <= k < p.Width() && k != index % p.Width() ==> RowIndices(index, p.Width())[k] in a)
      || (forall k :: 0 <= k < p.Height() && k != index / p.Width() ==> ColIndices(index, p.Height())[k] in a)
  {
    var width, height := p.Width(), p.Height();
    RowInGrid(index, width, height);
    var rowIdx, colIdx := RowIndices(index, width), ColIndices(index, height);
    var row := Lookup(a, rowIdx)[index % width := Some(value)];
    var col := Lookup(a, colIdx)[index / width := Some(value)];
    if None !in row && !CheckConstraint(Unwrap(row), p.rowClues[index / width]) then
      NoGapLeft(a, rowIdx, index % width, Some(value));
      false
    else if None !in col && !CheckConstraint(Unwrap(col), p.colClues[index % height]) then
      NoGapLeft(a, colIdx, index / width, Some(value));
      false
    else true
  }

  /** Setting cell `index` in a looked-up line is looking the line up after setting it in the map. */
  lemma LookupUpdate(a: Assignment, indices: seq<nat>, pos: nat, index: nat, value: int)
    requires pos < |indices| && indices[pos] == index
    requires forall k :: 0 <= k < |indices| && k != pos ==> indices[k] != index
    ensures Lookup(a, indices)[pos := Some(value)] == Lookup(a[index := value], indices)
  {
  }

  /** A looked-up line has no gap exactly when it is complete, and then it holds the line's values. */
  lemma LookupComplete(m: Assignment, indices: seq<nat>)
    ensures (None !in Lookup(m, indices)) == Complete(m, indices)
    ensures Complete(m, indices) ==> Unwrap(Lookup(m, indices)) == Values(m, indices)
  {
    var line := Lookup(m, indices);
    if !Complete(m, indices) {
      var k :| 0 <= k < |indices| && indices[k] !in m;
      assert line[k] == None;
    }
  }

  /**
   * On a square grid, `is_consistent(a, index, value, …)` holds exactly when the
   * row and the column through `index`, read from `a` with `index` set to
   * `value`, are each incomplete or match their clue.
   */
  lemma IsConsistentSquare(a: Assignment, index: nat, value: int, p: Puzzle)
    requires p.IsSquare() && index < p.Width() * p.Height()
    ensures p.Width() > 0 && 0 <= index / p.Width() < p.Height()
    ensures IsConsistent(a, index, value, p) <==>
      && LineOk(a[index := value], RowLine(index / p.Width(), p.Width()), p.rowClues[index / p.Width()])
      && LineOk(a[index := value], ColLine(index % p.Width(), p.Width(), p.Width()), p.colClues[index % p.Width()])
  {
    var n := p.Width();
    RowInGrid(index, n, n);
    var m := a[index := value];
    var rowIdx, colIdx := RowIndices(index, n), ColIndices(index, n);
    RowLineCells(index / n, n);
    LookupUpdate(a, rowIdx, index % n, index, value);
    LookupComplete(m, rowIdx);
    ColIndicesSquare(index, n);
    ColLineCells(index % n, n, n);
    LookupUpdate(a, colIdx, index / n, index, value);
    LookupComplete(m, colIdx);
  }

  /**
   * A row and a column that both miss a cell other than `index` are accepted
   * unchecked, on a grid of any shape.
   */
  lemma IncompleteLinesAccepted(a: Assignment, index: nat, value: int, p: Puzzle, rowGap: nat, colGap: nat)
    requires index < p.Width() * p.Height()
    requires index % p.Height() < p.Width()
    requires rowGap < p.Width() && rowGap != index % p.Width()
    requires RowIndices(index, p.Width())[rowGap] !in a
    requires colGap < p.Height() && colGap != index / p.Width()
    requires ColIndices(index, p.Height())[colGap] !in a
    ensures IsConsistent(a, index, value, p)
  {
    var width, height := p.Width(), p.Height();
    RowInGrid(index, width, height);
    GapSurvivesUpdate(a, RowIndices(index, width), index % width, Some(value), rowGap);
    GapSurvivesUpdate(a, ColIndices(index, height), index / width, Some(value), colGap);
  }

  /** A looked-up line with one position written and no gap left has every other cell in the map. */
  lemma NoGapLeft(a: Assignment, indices: seq<nat>, pos: nat, x: Option<int>)
    requires pos < |indices| && None !in Lookup(a, indices)[pos := x]
    ensures forall k :: 0 <= k < |indices| && k != pos ==> indices[k] in a
  {
    forall k | 0 <= k < |indices| && k != pos
      ensures indices[k] in a
    {
      if indices[k] !in a {
        GapSurvivesUpdate(a, indices, pos, x, k);
      }
    }
  }

  /** Writing one position of a looked-up line leaves a gap at another position. */
  lemma GapSurvivesUpdate(a: Assignment, indices: seq<nat>, pos: nat, x: Option<int>, gap: nat)
    requires pos < |indices| && gap < |indices| && gap != pos && indices[gap] !in a
    ensures None in Lookup(a, indices)[pos := x]
  {
    assert Lookup(a, indices)[pos := x][gap] == None;
  }

  // ---------------------------------------------------------------------------
  // Domains and the branch step

  /** Every domain before `k` has a first value. */
  predicate FirstValuesBelow(d: seq<Domain>, k: nat)
  {
    k <= |d| && forall i :: 0 <= i < k ==> d[i] != []
  }

  /** `{i: domains[i][0] for i in range(k)}` */
  function Prefix(d: seq<Domain>, k: nat): (a: Assignment)
    requires FirstValuesBelow(d, k)
    ensures forall i :: i in a <==> 0 <= i < k
  {
    map i | 0 <= i < k :: d[i][0]
  }

  /** `[v for v in values if is_consistent(a, i, v, …)]` */
  function Filter(values: Domain, a: Assignment, i: nat, p: Puzzle): (kept: Domain)
    requires i < p.Width() * p.Height() && i % p.Height() < p.Width()
    ensures |kept| <= |values|
    ensures forall v :: v in kept <==> v in values && IsConsistent(a, i, v, p)
  {
    if values == [] then []
    else (if IsConsistent(a, i, values[0], p) then [values[0]] else []) + Filter(values[1..], a, i, p)
  }

  /** The first value is kept or dropped, and the rest is filtered alone. */
  lemma FilterFirst(values: Domain, a: Assignment, i: nat, p: Puzzle)
    requires i < p.Width() * p.Height() && i % p.Height() < p.Width()
    requires values != []
    ensures |Filter(values, a, i, p)|
      == |Filter(values[1..], a, i, p)| + if IsConsistent(a, i, values[0], p) then 1 else 0
  {
  }

  /** The arguments a branch step needs: a square grid and a domain per cell. */
  predicate Shaped(p: Puzzle, d: seq<Domain>)
  {
    p.IsSquare() && |d| == p.Width() * p.Height()
  }

  /**
   * The branch step: copy the domains, fix cell `k` to `[v]`, and replace every
   * later domain by its values that `is_consistent` accepts against the values
   * fixed before `k`.
   */
  function Branch(p: Puzzle, d: seq<Domain>, k: nat, v: int): (nd: seq<Domain>)
    requires Shaped(p, d) && k < |d| && FirstValuesBelow(d, k)
    ensures |nd| == |d|
    ensures nd[k] == [v]
    ensures forall i :: 0 <= i < k ==> nd[i] == d[i]
    ensures forall i, x :: k < i < |d| ==> (x in nd[i] <==> x in d[i] && IsConsistent(Prefix(d, k), i, x, p))
  {
    var a := Prefix(d, k);
    seq(|d|, i requires 0 <= i < |d| =>
      if i < k then d[i] else if i == k then [v] else Filter(d[i], a, i, p))
  }

  /**
   * The copy loop of `forward_checking`: `new_domains = domains.copy()`, cell
   * `k` set to `[v]`, then each later cell replaced by its filtered values.
   */
  method BranchDomains(p: Puzzle, d: seq<Domain>, k: nat, v: int) returns (nd: seq<Domain>)
    requires Shaped(p, d) && k < |d| && FirstValuesBelow(d, k)
    ensures nd == Branch(p, d, k, v)
  {
    var a := Prefix(d, k);
    nd := d[k := [v]];
    var i := k + 1;
    while i < |d|
      invariant k + 1 <= i <= |d| && |nd| == |d|
      invariant forall j :: 0 <= j < i ==> nd[j] == Branch(p, d, k, v)[j]
      invariant forall j :: i <= j < |d| ==> nd[j] == d[j]
    {
      nd := nd[i := Filter(d[i], a, i, p)];
      i := i + 1;
    }
  }

  /** `all(new_domains[i] for i in range(k + 1, len(new_domains)))` */
  predicate NonEmptyAfter(d: seq<Domain>, k: nat)
  {
    forall i :: k < i < |d| ==> d[i] != []
  }

  /** Python's truth test `if result:` on a domain list or `None`. */
  predicate Truthy(r: Option<seq<Domain>>)
  {
    r.Some? && r.value != []
  }

  /** Every domain is a single value. */
  predicate AllSingletons(d: seq<Domain>)
  {
    forall i :: 0 <= i < |d| ==> |d[i]| == 1
  }

  /** `[[assignment[row * width + col] for col in range(width)] for row in range(height)]` */
  function ToGrid(d: seq<Domain>, width: nat, height: nat): (g: Grid)
    requires |d| == width * height && FirstValuesBelow(d, |d|)
    ensures |g| == height && forall r :: 0 <= r < height ==> |g[r]| == width
  {
    seq(height, r requires 0 <= r < height =>
      seq(width, c requires 0 <= c < width =>
        CellInGrid(r, c, width, height); d[CellIndex(r, c, width)][0]))
  }

  // ---------------------------------------------------------------------------
  // Solutions

  /** Column `c` of a grid, top to bottom. */
  function Column(g: Grid, c: nat): seq<int>
    requires forall r :: 0 <= r < |g| ==> c < |g[r]|
  {
    seq(|g|, r requires 0 <= r < |g| => g[r][c])
  }

  /** A 0/1 grid of the puzzle's shape whose every row and column matches its clue. */
  predicate IsSolution(g: Grid, p: Puzzle)
  {
    && |g| == p.Height()
    && (forall r :: 0 <= r < |g| ==> |g[r]| == p.Width() && IsBinary(g[r]))
    && (forall r :: 0 <= r < |g| ==> CheckConstraint(g[r], p.rowClues[r]))
    && (forall c :: 0 <= c < p.Width() ==> CheckConstraint(Column(g, c), p.colClues[c]))
  }

  /** Every row and every column that `m` fills in completely matches its clue. */
  predicate AllLinesOk(p: Puzzle, m: Assignment)
  {
    && (forall r :: 0 <= r < p.Height() ==> LineOk(m, RowLine(r, p.Width()), p.rowClues[r]))
    && (forall c :: 0 <= c < p.Width() ==> LineOk(m, ColLine(c, p.Width(), p.Height()), p.colClues[c]))
  }
}
