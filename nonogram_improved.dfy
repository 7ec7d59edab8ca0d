/**
 * The solver of Puzzle/Nonogram-improved.py: `select_variable`, the
 * `forward_checking` variant that branches on the selected cell, `preprocess`
 * and `solve_nonogram`. Each method is proved to compute the functions of
 * `ImprovedSearch`; `Solve` states what the lemmas there give about a run.
 */
module NonogramImproved {
  import opened Wrappers
  import opened CellArith
  import opened Runs
  import opened Lines
  import opened Solutions
  import opened NonogramSearch
  import opened ImprovedSearch

  /**
   * `select_variable(domains)`: one pass that keeps the smallest size above one
   * seen so far (`None` standing for `float('inf')`) and the first cell of that
   * size; `len(domains)` when no cell has more than one candidate.
   */
  method SelectVariable(domains: seq<Domain>) returns (selected: nat)
    ensures IsMrvChoice(domains, selected)
    ensures selected == Selected(domains)
  {
    var minRemaining: Option<nat> := None;
    var selectedIndex: int := -1;
    var i := 0;
    while i < |domains|
      invariant 0 <= i <= |domains|
      invariant selectedIndex == -1 <==> minRemaining.None?
      invariant selectedIndex == -1 ==> forall k :: 0 <= k < i ==> |domains[k]| <= 1
      invariant selectedIndex != -1 ==>
        && 0 <= selectedIndex < i
        && minRemaining.value == |domains[selectedIndex]| > 1
        && forall k :: 0 <= k < i && 1 < |domains[k]| ==>
             |domains[selectedIndex]| <= |domains[k]| && (k < selectedIndex ==> |domains[selectedIndex]| < |domains[k]|)
    {
      if 1 < |domains[i]| && (minRemaining.None? || |domains[i]| < minRemaining.value) {
        minRemaining := Some(|domains[i]|);
        selectedIndex := i;
      }
      i := i + 1;
    }
    selected := if selectedIndex != -1 then selectedIndex else |domains|;
    MrvChoiceUnique(domains, selected, Selected(domains));
  }

  /**
   * `forward_checking(domains, …, node_count, backtrack_count)`: branch on the
   * selected cell, with the values fixed before it as the assignment.
   */
  method ForwardChecking(p: Puzzle, domains: seq<Domain>, nodeCount: nat, backtrackCount: nat)
    returns (result: Option<seq<Domain>>, nodes: nat, backs: nat)
    requires MrvArgs(p, domains)
    ensures (result, nodes, backs) == SearchMrv(p, domains, nodeCount, backtrackCount)
    decreases MultiCount(domains)
  {
    var selectedIndex := SelectVariable(domains);
    if selectedIndex == |domains| {
      return Some(domains), nodeCount, backtrackCount;
    }
    nodes, backs := nodeCount + 1, backtrackCount;
    var values := domains[selectedIndex];
    var j := 0;
    while j < |values|
      invariant 0 <= j <= |values|
      invariant TryMrv(p, domains, selectedIndex, values[j..], nodes, backs)
             == SearchMrv(p, domains, nodeCount, backtrackCount)
    {
      var value := values[j];
      assert values[j..][0] == value && values[j..][1..] == values[j + 1..];
      var assignment := Prefix(domains, selectedIndex);
      if IsConsistent(assignment, selectedIndex, value, p) {
        var newDomains := BranchDomains(p, domains, selectedIndex, value);
        BranchShrinks(p, domains, selectedIndex, value);
        if NonEmptyAfter(newDomains, selectedIndex) {
          var r, n, b := ForwardChecking(p, newDomains, nodes, backs);
          if Truthy(r) {
            return r, n, b;
          }
        }
      } else {
        backs := backs + 1;
      }
      j := j + 1;
    }
    return None, nodes, backs;
  }

  /** `for col in range(lo, hi): domains[row * width + col] = [1]` */
  method ForceRowCells(domains: seq<Domain>, width: nat, height: nat, row: nat, lo: nat, hi: nat)
    returns (forced: seq<Domain>)
    requires |domains| == width * height && row < height && hi <= width
    ensures |forced| == |domains|
    ensures forall r, c :: 0 <= r < height && 0 <= c < width ==>
      && CellIndex(r, c, width) < |forced|
      && forced[CellIndex(r, c, width)] == if r == row && lo <= c < hi then [1] else domains[CellIndex(r, c, width)]
  {
    AllCellsInGrid(width, height);
    forced := domains;
    var col := lo;
    while col < hi
      invariant lo <= col && (col == lo || col <= hi)
      invariant |forced| == |domains|
      invariant forall r, c :: 0 <= r < height && 0 <= c < width ==>
        forced[CellIndex(r, c, width)]
        == if r == row && lo <= c < col then [1] else domains[CellIndex(r, c, width)]
    {
      CellInGrid(row, col, width, height);
      forall r, c | 0 <= r < height && 0 <= c < width
        ensures CellIndex(r, c, width) == CellIndex(row, col, width) <==> r == row && c == col
      {
        CellIndexInjective(r, c, row, col, width);
      }
      forced := forced[CellIndex(row, col, width) := [1]];
      col := col + 1;
    }
  }

  /** `for row in range(lo, hi): domains[row * width + col] = [1]` */
  method ForceColumnCells(domains: seq<Domain>, width: nat, height: nat, col: nat, lo: nat, hi: nat)
    returns (forced: seq<Domain>)
    requires |domains| == width * height && col < width && hi <= height
    ensures |forced| == |domains|
    ensures forall r, c :: 0 <= r < height && 0 <= c < width ==>
      && CellIndex(r, c, width) < |forced|
      && forced[CellIndex(r, c, width)] == if c == col && lo <= r < hi then [1] else domains[CellIndex(r, c, width)]
  {
    AllCellsInGrid(width, height);
    forced := domains;
    var row := lo;
    while row < hi
      invariant lo <= row && (row == lo || row <= hi)
      invariant |forced| == |domains|
      invariant forall r, c :: 0 <= r < height && 0 <= c < width ==>
        forced[CellIndex(r, c, width)]
        == if c == col && lo <= r < row then [1] else domains[CellIndex(r, c, width)]
    {
      CellInGrid(row, col, width, height);
      forall r, c | 0 <= r < height && 0 <= c < width
        ensures CellIndex(r, c, width) == CellIndex(row, col, width) <==> r == row && c == col
      {
        CellIndexInjective(r, c, row, col, width);
      }
      forced := forced[CellIndex(row, col, width) := [1]];
      row := row + 1;
    }
  }

  /**
   * `preprocess(row_clues, col_clues, width, height)`: start every cell at
   * `[0, 1]`, then force the cells each single-run row and then each
   * single-run column must fill.
   */
  method Preprocess(p: Puzzle) returns (domains: seq<Domain>)
    requires PreprocessArgs(p)
    ensures domains == Preprocessed(p)
  {
    var width, height := p.Width(), p.Height();
    domains := seq(width * height, _ => [0, 1]);
    forall r, c | 0 <= r < height && 0 <= c < width
      ensures CellIndex(r, c, width) < width * height
    {
      CellInGrid(r, c, width, height);
    }
    var row := 0;
    while row < height
      invariant row <= height && |domains| == width * height
      invariant forall r, c :: 0 <= r < height && 0 <= c < width ==>
        domains[CellIndex(r, c, width)]
        == if r < row && Forces(p.rowClues[r], width, c) then [1] else [0, 1]
    {
      var clues := p.rowClues[row];
      if |clues| == 1 {
        var clue := clues[0];
        if clue == width {
          domains := ForceRowCells(domains, width, height, row, 0, width);
        } else if clue * 2 > width {
          domains := ForceRowCells(domains, width, height, row, width - clue + 1, clue);
        }
      }
      row := row + 1;
    }
    var col := 0;
    while col < width
      invariant col <= width && |domains| == width * height
      invariant forall r, c :: 0 <= r < height && 0 <= c < width ==>
        domains[CellIndex(r, c, width)]
        == if Forces(p.rowClues[r], width, c) || (c < col && Forces(p.colClues[c], height, r)) then [1] else [0, 1]
    {
      var clues := p.colClues[col];
      if |clues| == 1 {
        var clue := clues[0];
        if clue == height {
          domains := ForceColumnCells(domains, width, height, col, 0, height);
        } else if clue * 2 > height {
          domains := ForceColumnCells(domains, width, height, col, height - clue + 1, clue);
        }
      }
      col := col + 1;
    }
    forall i | 0 <= i < width * height
      ensures domains[i] == Preprocessed(p)[i]
    {
      RowInGrid(i, width, height);
      SplitIndex(i, width);
      PreprocessedCell(p, i / width, i % width);
    }
  }

  /**
   * `solve_nonogram(row_clues, col_clues)` on a square puzzle whose single-run
   * clues fit their lines: what `SolveMrvOutcome` proves about `SolveMrv`.
   */
  method Solve(p: Puzzle) returns (grid: Option<Grid>, nodes: nat, backs: nat)
    requires p.IsSquare() && PreprocessArgs(p)
    ensures (grid, nodes, backs) == SolveMrv(p)
    ensures p.Width() > 0 && (exists g :: IsSolution(g, p)) ==> grid.Some?
    ensures grid.Some? ==>
      && |grid.value| == p.Height()
      && (forall r :: 0 <= r < p.Height() ==> |grid.value[r]| == p.Width() && IsBinary(grid.value[r]))
      && (forall r, c :: 0 <= r < p.Height() && 0 <= c < p.Width() && CellDomain(p, r, c) == [1] ==>
            grid.value[r][c] == 1)
      && nodes <= p.Width() * p.Height()
      && backs <= p.Width() * p.Height()
    ensures grid.None? ==> p.Width() == 0 || (nodes == 1 && backs <= 2)
  {
    var domains := Preprocess(p);
    PreprocessedDomains(p);
    var result;
    result, nodes, backs := ForwardChecking(p, domains, 0, 0);
    if Truthy(result) {
      SearchMrvPicks(p, domains, 0, 0);
      grid := Some(ToGrid(result.value, p.Width(), p.Height()));
    } else {
      grid := None;
    }
    SolveMrvOutcome(p);
  }
}
