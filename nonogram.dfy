/**
 * The solver of Puzzle/Nonogram.py: `forward_checking`, the backtracking
 * search with forward filtering, and `solve_nonogram`, which runs it from
 * all-`[0, 1]` domains and reads the grid off the result. Each method is
 * proved to compute exactly the functions of `NonogramSearch`, and `Solve`
 * states what the lemmas there give about the whole run.
 */
module Nonogram {
  import opened Wrappers
  import opened Runs
  import opened Lines
  import opened Solutions
  import opened NonogramSearch

  /**
   * `forward_checking(index, domains, width, height, row_clues, col_clues,
   * node_count, backtrack_count)`: the node count goes up once per call, the
   * backtrack count once per value `is_consistent` rejects; the counts of a
   * recursive call that fails are dropped.
   */
  method ForwardChecking(p: Puzzle, index: nat, domains: seq<Domain>, nodeCount: nat, backtrackCount: nat)
    returns (result: Option<seq<Domain>>, nodes: nat, backs: nat)
    requires SearchArgs(p, index, domains)
    ensures (result, nodes, backs) == Search(p, index, domains, nodeCount, backtrackCount)
    decreases |domains| - index
  {
    if index == |domains| {
      return Some(domains), nodeCount, backtrackCount;
    }
    nodes, backs := nodeCount + 1, backtrackCount;
    var values := domains[index];
    var j := 0;
    while j < |values|
      invariant 0 <= j <= |values|
      invariant TryValues(p, index, domains, values[j..], nodes, backs)
             == Search(p, index, domains, nodeCount, backtrackCount)
    {
      var value := values[j];
      assert values[j..][0] == value && values[j..][1..] == values[j + 1..];
      var assignment := Prefix(domains, index);
      if IsConsistent(assignment, index, value, p) {
        var newDomains := BranchDomains(p, domains, index, value);
        if NonEmptyAfter(newDomains, index) {
          var r, n, b := ForwardChecking(p, index + 1, newDomains, nodes, backs);
          if Truthy(r) {
            return r, n, b;
          }
        }
      } else {
        backs := backs + 1;
      }
      j := j + 1;
    }
    return None, nodes, backs;
  }

  /**
   * `solve_nonogram(row_clues, col_clues)` on a square puzzle. It returns a grid
   * exactly when the puzzle has a solution and is not 0 by 0, and then the grid is
   * a solution, one node was counted per cell and at most one backtrack per
   * cell. Otherwise only the first cell's
   * node is counted, plus one backtrack per value of that cell `is_consistent`
   * rejects. The grid and both counts are exactly those of the search from the
   * all-`[0, 1]` domains, which tries 0 before 1 at every cell.
   */
  method Solve(p: Puzzle) returns (grid: Option<Grid>, nodes: nat, backs: nat)
    requires p.IsSquare()
    ensures grid.Some? <==> p.Width() > 0 && exists g :: IsSolution(g, p)
    ensures grid.Some? ==>
      IsSolution(grid.value, p) && nodes == p.Width() * p.Height() && backs <= p.Width() * p.Height()
    ensures grid.None? && p.Width() > 0 ==> nodes == 1 && backs <= 2
    ensures p.Width() == 0 ==> nodes == 0 && backs == 0
    ensures var o := Search(p, 0, InitialDomains(p), 0, 0);
      && nodes == o.1 && backs == o.2
      && (Truthy(o.0) ==>
            |o.0.value| == p.Width() * p.Height() && FirstValuesBelow(o.0.value, |o.0.value|)
            && grid == Some(ToGrid(o.0.value, p.Width(), p.Height())))
  {
    var domains := InitialDomains(p);
    var result;
    result, nodes, backs := ForwardChecking(p, 0, domains, 0, 0);
    SearchFromStart(p);
    if Truthy(result) {
      grid := Some(ToGrid(result.value, p.Width(), p.Height()));
    } else {
      grid := None;
    }
  }
}
