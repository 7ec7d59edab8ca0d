/**
 * What the search of Puzzle/Nonogram-improved.py computes, as functions:
 * `select_variable` (the first cell among those with the fewest candidates
 * above one), the `forward_checking` variant that branches on that cell, and
 * `preprocess`, which forces to 1 the cells a single-run line must fill.
 *
 * Lines are checked only through `is_consistent`: for the branched cell and,
 * in the forward check, for each later cell, always against the values of the
 * cells before the branched cell. The branched cell is open, and a row's cells
 * are contiguous, so a row whose cells were all fixed before the search is
 * never checked: the solver can return a grid that breaks a row clue
 * (`ImprovedSolverCounterexample`).
 * It still finds a grid whenever a solution exists (`SearchMrvComplete`).
 */
module ImprovedSearch {
  import opened Wrappers
  import opened CellArith
  import opened Runs
  import opened Lines
  import opened Solutions
  import opened NonogramSearch

  // ---------------------------------------------------------------------------
  // Variable selection

  /**
   * `s` is the lowest index, from `lo` on, among the cells whose number of
   * candidates is the smallest above one; `|d|` when no cell from `lo` on has
   * more than one candidate.
   */
  predicate IsMrvChoiceFrom(d: seq<Domain>, lo: nat, s: nat)
  {
    && s <= |d|
    && (s == |d| ==> forall i :: lo <= i < |d| ==> |d[i]| <= 1)
    && (s < |d| ==>
         && lo <= s
         && 1 < |d[s]|
         && forall i :: lo <= i < |d| && 1 < |d[i]| ==> |d[s]| <= |d[i]| && (i < s ==> |d[s]| < |d[i]|))
  }

  predicate IsMrvChoice(d: seq<Domain>, s: nat)
  {
    IsMrvChoiceFrom(d, 0, s)
  }

  /** The choice among the cells from `lo` on. */
  function MrvFrom(d: seq<Domain>, lo: nat): (s: nat)
    requires lo <= |d|
    ensures IsMrvChoiceFrom(d, lo, s)
    decreases |d| - lo
  {
    if lo == |d| then |d|
    else
      var s := MrvFrom(d, lo + 1);
      if 1 < |d[lo]| && (s == |d| || |d[lo]| <= |d[s]|) then lo else s
  }

  /** `select_variable(domains)` */
  function Selected(d: seq<Domain>): (s: nat)
    ensures IsMrvChoice(d, s)
  {
    MrvFrom(d, 0)
  }

  /** There is one choice only, so any selection loop that makes it computes `Selected`. */
  lemma MrvChoiceUnique(d: seq<Domain>, s: nat, t: nat)
    requires IsMrvChoice(d, s) && IsMrvChoice(d, t)
    ensures s == t
  {
  }

  // ---------------------------------------------------------------------------
  // Domains of 0/1 cells

  /** A non-empty ordered subsequence of `[0, 1]`. */
  predicate BitDomain(x: Domain)
  {
    x == [0] || x == [1] || x == [0, 1]
  }

  predicate AllBitDomains(d: seq<Domain>)
  {
    forall i :: 0 <= i < |d| ==> BitDomain(d[i])
  }

  /** With 0/1 domains, every cell before the selected one has a single candidate. */
  lemma SelectedIsFirstOpenCell(d: seq<Domain>)
    requires AllBitDomains(d)
    ensures forall i :: 0 <= i < Selected(d) ==> |d[i]| == 1
  {
  }

  /** Filtering a 0/1 domain keeps its order: what is left, if anything, is again a 0/1 domain. */
  lemma FilterBitDomain(x: Domain, a: Assignment, i: nat, p: Puzzle)
    requires i < p.Width() * p.Height() && i % p.Height() < p.Width()
    requires BitDomain(x)
    ensures Filter(x, a, i, p) == [] || BitDomain(Filter(x, a, i, p))
  {
    assert [0, 1][1..] == [1];
    assert [1][1..] == [] && [0][1..] == [];
  }

  /** A branch step that leaves every later cell a candidate keeps all domains 0/1. */
  lemma BranchKeepsBitDomains(p: Puzzle, d: seq<Domain>, k: nat, v: int)
    requires Shaped(p, d) && k < |d| && AllBitDomains(d) && v in d[k]
    requires NonEmptyAfter(Branch(p, d, k, v), k)
    ensures AllBitDomains(Branch(p, d, k, v))
  {
    var nd := Branch(p, d, k, v);
    forall i | k < i < |d|
      ensures BitDomain(nd[i])
    {
      FilterBitDomain(d[i], Prefix(d, k), i, p);
    }
  }

  // ---------------------------------------------------------------------------
  // The number of open cells, which every branch step lowers

  /** The number of cells with more than one candidate. */
  function MultiCount(d: seq<Domain>): nat
  {
    if d == [] then 0 else (if 1 < |d[0]| then 1 else 0) + MultiCount(d[1..])
  }

  /** No cell is open exactly when the count is zero. */
  lemma {:induction false} MultiCountZero(d: seq<Domain>)
    ensures MultiCount(d) == 0 <==> forall i :: 0 <= i < |d| ==> |d[i]| <= 1
  {
    if d != [] {
      MultiCountZero(d[1..]);
      assert forall i :: 1 <= i < |d| ==> d[i] == d[1..][i - 1];
    }
  }

  /** Shrinking domains never raise the count, and closing an open cell lowers it. */
  lemma {:induction false} MultiCountShrinks(a: seq<Domain>, b: seq<Domain>, j: int)
    requires |a| == |b|
    requires forall i :: 0 <= i < |a| ==> |a[i]| <= |b[i]|
    ensures MultiCount(a) <= MultiCount(b)
    ensures 0 <= j < |a| && |a[j]| <= 1 < |b[j]| ==> MultiCount(a) < MultiCount(b)
  {
    if a != [] {
      assert forall i :: 0 <= i < |a| - 1 ==> a[1..][i] == a[i + 1] && b[1..][i] == b[i + 1];
      MultiCountShrinks(a[1..], b[1..], j - 1);
    }
  }

  /** There are no more open cells than cells. */
  lemma {:induction false} MultiCountAtMostLength(d: seq<Domain>)
    ensures MultiCount(d) <= |d|
  {
    if d != [] {
      MultiCountAtMostLength(d[1..]);
    }
  }

  /** Fixing an open cell and filtering the rest leaves fewer open cells. */
  lemma BranchShrinks(p: Puzzle, d: seq<Domain>, k: nat, v: int)
    requires Shaped(p, d) && k < |d| && FirstValuesBelow(d, k) && 1 < |d[k]|
    ensures MultiCount(Branch(p, d, k, v)) < MultiCount(d)
  {
    var nd := Branch(p, d, k, v);
    forall i | 0 <= i < |d|
      ensures |nd[i]| <= |d[i]|
    {
    }
    MultiCountShrinks(nd, d, k);
  }

  // ---------------------------------------------------------------------------
  // The search

  /** What the search needs: a square grid and a non-empty domain per cell. */
  predicate MrvArgs(p: Puzzle, d: seq<Domain>)
  {
    Shaped(p, d) && FirstValuesBelow(d, |d|)
  }

  /**
   * `forward_checking(domains, width, height, row_clues, col_clues, node_count,
   * backtrack_count)`. A success returns one domain per cell.
   */
  function SearchMrv(p: Puzzle, d: seq<Domain>, nodes: nat, backs: nat): (o: Outcome)
    requires MrvArgs(p, d)
    ensures Truthy(o.0) ==> |o.0.value| == |d|
    decreases MultiCount(d), 1, 0
  {
    var s := Selected(d);
    if s == |d| then (Some(d), nodes, backs)
    else TryMrv(p, d, s, d[s], nodes + 1, backs)
  }

  /** The loop over the candidate values of the selected cell `s`, from `values` on. */
  function TryMrv(p: Puzzle, d: seq<Domain>, s: nat, values: Domain, nodes: nat, backs: nat): (o: Outcome)
    requires MrvArgs(p, d) && s < |d| && 1 < |d[s]|
    ensures Truthy(o.0) ==> |o.0.value| == |d|
    decreases MultiCount(d), 0, |values|
  {
    if values == [] then (None, nodes, backs)
    else if !IsConsistent(Prefix(d, s), s, values[0], p) then
      TryMrv(p, d, s, values[1..], nodes, backs + 1)
    else
      var nd := Branch(p, d, s, values[0]);
      BranchShrinks(p, d, s, values[0]);
      if NonEmptyAfter(nd, s) && Truthy(SearchMrv(p, nd, nodes, backs).0) then
        SearchMrv(p, nd, nodes, backs)
      else
        TryMrv(p, d, s, values[1..], nodes, backs)
  }

  // ---------------------------------------------------------------------------
  // Counters

  /**
   * The counters of a call: the backtrack count never drops; a call on
   * domains with no open cell returns them as they are, with both counts
   * untouched; on success the node count grew by at most the number of open
   * cells, and by at least one if there was one, and the backtrack count by
   * at most the spare candidates of all cells; on failure only this call's
   * node is counted and the backtrack count grew by the values of the
   * selected cell `is_consistent` rejected, whatever failed calls below counted.
   */
  lemma {:induction false} MrvCounters(p: Puzzle, d: seq<Domain>, nodes: nat, backs: nat)
    requires MrvArgs(p, d)
    ensures SearchMrv(p, d, nodes, backs).2 >= backs
    ensures MultiCount(d) == 0 ==> SearchMrv(p, d, nodes, backs) == (Some(d), nodes, backs)
    ensures Truthy(SearchMrv(p, d, nodes, backs).0) ==>
      && nodes <= SearchMrv(p, d, nodes, backs).1 <= nodes + MultiCount(d)
      && (MultiCount(d) > 0 ==> SearchMrv(p, d, nodes, backs).1 > nodes)
      && SearchMrv(p, d, nodes, backs).2 <= backs + Slack(d, 0)
    ensures !Truthy(SearchMrv(p, d, nodes, backs).0) && Selected(d) < |d| ==>
      && SearchMrv(p, d, nodes, backs).1 == nodes + 1
      && SearchMrv(p, d, nodes, backs).2
         == backs + |d[Selected(d)]| - |Filter(d[Selected(d)], Prefix(d, Selected(d)), Selected(d), p)|
    decreases MultiCount(d), 1, 0
  {
    var s := Selected(d);
    MultiCountZero(d);
    if s < |d| {
      TryMrvCounters(p, d, s, d[s], nodes + 1, backs);
    }
  }

  lemma {:induction false} TryMrvCounters(p: Puzzle, d: seq<Domain>, s: nat, values: Domain, nodes: nat, backs: nat)
    requires MrvArgs(p, d) && s < |d| && 1 < |d[s]|
    ensures TryMrv(p, d, s, values, nodes, backs).2 >= backs
    ensures Truthy(TryMrv(p, d, s, values, nodes, backs).0) ==>
      && nodes <= TryMrv(p, d, s, values, nodes, backs).1 < nodes + MultiCount(d)
      && TryMrv(p, d, s, values, nodes, backs).2 + |d[s]| <= backs + |values| + Slack(d, 0)
    ensures !Truthy(TryMrv(p, d, s, values, nodes, backs).0) ==>
      && TryMrv(p, d, s, values, nodes, backs).1 == nodes
      && TryMrv(p, d, s, values, nodes, backs).2 == backs + |values| - |Filter(values, Prefix(d, s), s, p)|
    decreases MultiCount(d), 0, |values|
  {
    if values != [] {
      var v := values[0];
      FilterFirst(values, Prefix(d, s), s, p);
      if !IsConsistent(Prefix(d, s), s, v, p) {
        TryMrvCounters(p, d, s, values[1..], nodes, backs + 1);
        assert TryMrv(p, d, s, values, nodes, backs) == TryMrv(p, d, s, values[1..], nodes, backs + 1);
      } else {
        var nd := Branch(p, d, s, v);
        BranchShrinks(p, d, s, v);
        if NonEmptyAfter(nd, s) && Truthy(SearchMrv(p, nd, nodes, backs).0) {
          MrvCounters(p, nd, nodes, backs);
          BranchSlack(p, d, s, v);
        } else {
          TryMrvCounters(p, d, s, values[1..], nodes, backs);
        }
      }
    }
  }

  // ---------------------------------------------------------------------------
  // Domains only shrink

  /**
   * A successful search returns one candidate per cell, taken from that cell's
   * domain; in particular a cell that had a single candidate keeps it.
   */
  lemma {:induction false} SearchMrvPicks(p: Puzzle, d: seq<Domain>, nodes: nat, backs: nat)
    requires MrvArgs(p, d)
    ensures Truthy(SearchMrv(p, d, nodes, backs).0) ==>
      && Picks(SearchMrv(p, d, nodes, backs).0.value, d)
      && AllSingletons(SearchMrv(p, d, nodes, backs).0.value)
    decreases MultiCount(d), 1, 0
  {
    var s := Selected(d);
    if s < |d| {
      TryMrvPicks(p, d, s, d[s], nodes + 1, backs);
    } else {
      forall i | 0 <= i < |d|
        ensures |d[i]| == 1
      {
        assert d[i] != [];
      }
    }
  }

  lemma {:induction false} TryMrvPicks(p: Puzzle, d: seq<Domain>, s: nat, values: Domain, nodes: nat, backs: nat)
    requires MrvArgs(p, d) && s < |d| && 1 < |d[s]|
    requires forall v :: v in values ==> v in d[s]
    ensures Truthy(TryMrv(p, d, s, values, nodes, backs).0) ==>
      && Picks(TryMrv(p, d, s, values, nodes, backs).0.value, d)
      && AllSingletons(TryMrv(p, d, s, values, nodes, backs).0.value)
    decreases MultiCount(d), 0, |values|
  {
    if values != [] {
      var v := values[0];
      if !IsConsistent(Prefix(d, s), s, v, p) {
        TryMrvPicks(p, d, s, values[1..], nodes, backs + 1);
      } else {
        var nd := Branch(p, d, s, v);
        BranchShrinks(p, d, s, v);
        if NonEmptyAfter(nd, s) && Truthy(SearchMrv(p, nd, nodes, backs).0) {
          SearchMrvPicks(p, nd, nodes, backs);
          PicksAfterBranch(p, d, s, v, SearchMrv(p, nd, nodes, backs).0.value);
        } else {
          TryMrvPicks(p, d, s, values[1..], nodes, backs);
        }
      }
    }
  }

  // ---------------------------------------------------------------------------
  // Completeness

  /**
   * With 0/1 domains, if some solution keeps every cell inside its domain,
   * the search succeeds: the values fixed before the selected cell are that
   * solution's, so `is_consistent` never rejects the solution's value.
   */
  lemma {:induction false} SearchMrvComplete(p: Puzzle, d: seq<Domain>, nodes: nat, backs: nat, sol: seq<int>)
    requires MrvArgs(p, d) && AllBitDomains(d) && |d| > 0
    requires IsFlatSolution(p, sol)
    requires forall i :: 0 <= i < |d| ==> sol[i] in d[i]
    ensures Truthy(SearchMrv(p, d, nodes, backs).0)
    decreases MultiCount(d), 1, 0
  {
    var s := Selected(d);
    if s < |d| {
      TryMrvComplete(p, d, s, d[s], nodes + 1, backs, sol);
    }
  }

  lemma {:induction false} TryMrvComplete(p: Puzzle, d: seq<Domain>, s: nat, values: Domain, nodes: nat, backs: nat, sol: seq<int>)
    requires MrvArgs(p, d) && AllBitDomains(d) && s == Selected(d) && s < |d|
    requires IsFlatSolution(p, sol)
    requires forall i :: 0 <= i < |d| ==> sol[i] in d[i]
    requires sol[s] in values
    ensures Truthy(TryMrv(p, d, s, values, nodes, backs).0)
    decreases MultiCount(d), 0, |values|
  {
    var a := Prefix(d, s);
    var v := values[0];
    var nd := Branch(p, d, s, v);
    if v == sol[s] {
      MrvBranchAdmitsSolution(p, d, sol);
      SearchMrvComplete(p, nd, nodes, backs, sol);
      assert TryMrv(p, d, s, values, nodes, backs) == SearchMrv(p, nd, nodes, backs);
    } else {
      assert sol[s] in values[1..];
      if !IsConsistent(a, s, v, p) {
        TryMrvComplete(p, d, s, values[1..], nodes, backs + 1, sol);
        assert TryMrv(p, d, s, values, nodes, backs) == TryMrv(p, d, s, values[1..], nodes, backs + 1);
      } else if !(NonEmptyAfter(nd, s) && Truthy(SearchMrv(p, nd, nodes, backs).0)) {
        TryMrvComplete(p, d, s, values[1..], nodes, backs, sol);
        assert TryMrv(p, d, s, values, nodes, backs) == TryMrv(p, d, s, values[1..], nodes, backs);
      }
    }
  }

  /**
   * Branching on the selected cell with the solution's value passes
   * `is_consistent` and leaves the solution inside 0/1 domains, with fewer
   * open candidates.
   */
  lemma MrvBranchAdmitsSolution(p: Puzzle, d: seq<Domain>, sol: seq<int>)
    requires MrvArgs(p, d) && AllBitDomains(d) && Selected(d) < |d|
    requires IsFlatSolution(p, sol)
    requires forall i :: 0 <= i < |d| ==> sol[i] in d[i]
    ensures IsConsistent(Prefix(d, Selected(d)), Selected(d), sol[Selected(d)], p)
    ensures NonEmptyAfter(Branch(p, d, Selected(d), sol[Selected(d)]), Selected(d))
    ensures MrvArgs(p, Branch(p, d, Selected(d), sol[Selected(d)]))
    ensures AllBitDomains(Branch(p, d, Selected(d), sol[Selected(d)]))
    ensures forall i :: 0 <= i < |d| ==> sol[i] in Branch(p, d, Selected(d), sol[Selected(d)])[i]
    ensures MultiCount(Branch(p, d, Selected(d), sol[Selected(d)])) < MultiCount(d)
  {
    var s := Selected(d);
    var nd := Branch(p, d, s, sol[s]);
    SelectedIsFirstOpenCell(d);
    BranchAdmitsSolution(p, d, s, sol);
    assert NonEmptyAfter(nd, s) by {
      forall i | s < i < |nd|
        ensures nd[i] != []
      {
        assert sol[i] in nd[i];
      }
    }
    BranchShrinks(p, d, s, sol[s]);
    BranchKeepsBitDomains(p, d, s, sol[s]);
  }

  // ---------------------------------------------------------------------------
  // Preprocessing

  /**
   * `preprocess` forces position `pos` of a line of length `len` whose clue is
   * the single run `[L]`: every position when `L == len`, otherwise positions
   * `len - L + 1 .. L - 1` when `2 * L > len`. A forced position inside a
   * line the run fits lies in both the leftmost placement `0 .. L - 1` and the
   * rightmost placement `len - L .. len - 1` of the run.
   */
  predicate Forces(clue: Clue, len: nat, pos: nat)
    ensures Forces(clue, len, pos) ==>
      |clue| == 1 && (clue[0] <= len && pos < len ==> len - clue[0] <= pos < clue[0])
  {
    |clue| == 1 && (clue[0] == len || (clue[0] * 2 > len && len - clue[0] + 1 <= pos < clue[0]))
  }

  /** A single-run clue is no longer than its line, so the forced positions stay inside it. */
  predicate ClueFits(clue: Clue, len: nat)
  {
    |clue| == 1 ==> clue[0] <= len
  }

  predicate PreprocessArgs(p: Puzzle)
  {
    && (forall r :: 0 <= r < p.Height() ==> ClueFits(p.rowClues[r], p.Width()))
    && (forall c :: 0 <= c < p.Width() ==> ClueFits(p.colClues[c], p.Height()))
  }

  /** The domain `preprocess` leaves in row `r`, column `c`: value 1 is always kept. */
  function CellDomain(p: Puzzle, r: nat, c: nat): (dom: Domain)
    requires PreprocessArgs(p) && r < p.Height() && c < p.Width()
    ensures dom == [1] || dom == [0, 1]
  {
    if Forces(p.rowClues[r], p.Width(), c) || Forces(p.colClues[c], p.Height(), r) then [1] else [0, 1]
  }

  /** `preprocess(row_clues, col_clues, width, height)` */
  function Preprocessed(p: Puzzle): (d: seq<Domain>)
    requires PreprocessArgs(p)
    ensures |d| == p.Width() * p.Height()
  {
    seq(p.Width() * p.Height(), i requires 0 <= i < p.Width() * p.Height() =>
      RowInGrid(i, p.Width(), p.Height()); CellDomain(p, i / p.Width(), i % p.Width()))
  }

  /** Each cell's domain is `[1]` if its row or its column forces it, and `[0, 1]` otherwise. */
  lemma PreprocessedCell(p: Puzzle, r: nat, c: nat)
    requires PreprocessArgs(p) && r < p.Height() && c < p.Width()
    ensures CellIndex(r, c, p.Width()) < |Preprocessed(p)|
    ensures Preprocessed(p)[CellIndex(r, c, p.Width())] == CellDomain(p, r, c)
  {
    CellInGrid(r, c, p.Width(), p.Height());
    CellIndexDivMod(r, c, p.Width());
  }

  /** Every domain `preprocess` returns is `[1]` or `[0, 1]`: value 1 is never removed. */
  lemma PreprocessedDomains(p: Puzzle)
    requires PreprocessArgs(p)
    ensures forall i :: 0 <= i < |Preprocessed(p)| ==> Preprocessed(p)[i] == [1] || Preprocessed(p)[i] == [0, 1]
    ensures AllBitDomains(Preprocessed(p))
  {
    forall i | 0 <= i < |Preprocessed(p)|
      ensures Preprocessed(p)[i] == [1] || Preprocessed(p)[i] == [0, 1]
    {
      RowInGrid(i, p.Width(), p.Height());
    }
  }

  /** The preprocessed domains have at most one spare candidate per cell. */
  lemma PreprocessedSlack(p: Puzzle)
    requires PreprocessArgs(p)
    ensures Slack(Preprocessed(p), 0) <= p.Width() * p.Height()
  {
    PreprocessedDomains(p);
    SlackOfSmallDomains(Preprocessed(p), 0);
  }

  /** In a 0/1 line whose runs are `[L]`, every position `preprocess` forces holds a 1. */
  lemma ForcedCellIsFilled(line: seq<int>, clue: Clue, pos: nat)
    requires IsBinary(line) && CheckConstraint(line, clue)
    requires pos < |line| && Forces(clue, |line|, pos)
    ensures line[pos] == 1
  {
    RunsPositive(line);
    var before := SingleRunShape(line, clue[0] as nat);
    var after := |line| - before - clue[0];
    assert line[pos] == (Zeros(before) + Ones(clue[0]) + Zeros(after))[pos];
  }

  /**
   * The classic overlap rule would also force position `len - L`, which every
   * such line fills; `preprocess` starts one position later, so it forces less
   * than it could.
   */
  lemma OverlapStartsOneLate(line: seq<int>, clue: Clue)
    requires IsBinary(line) && |clue| == 1 && CheckConstraint(line, clue)
    requires clue[0] < |line| < clue[0] * 2
    ensures line[|line| - clue[0]] == 1
    ensures !Forces(clue, |line|, |line| - clue[0])
  {
    RunsPositive(line);
    var before := SingleRunShape(line, clue[0] as nat);
    var after := |line| - before - clue[0];
    var pos := |line| - clue[0];
    assert line[pos] == (Zeros(before) + Ones(clue[0]) + Zeros(after))[pos];
  }

  /** Every solution keeps each cell inside the domain `preprocess` gives it. */
  lemma PreprocessKeepsSolutions(p: Puzzle, g: Grid)
    requires IsSolution(g, p)
    ensures PreprocessArgs(p)
    ensures forall i :: 0 <= i < p.Width() * p.Height() ==>
      Flatten(g, p.Width(), p.Height())[i] in Preprocessed(p)[i]
  {
    var width, height := p.Width(), p.Height();
    SolvableCluesFit(p, g);
    var sol := Flatten(g, width, height);
    forall i | 0 <= i < width * height
      ensures sol[i] in Preprocessed(p)[i]
    {
      RowInGrid(i, width, height);
      var r, c := i / width, i % width;
      SplitIndex(i, width);
      PreprocessedCell(p, r, c);
      assert sol[i] == g[r][c];
      if Forces(p.rowClues[r], width, c) {
        ForcedCellIsFilled(g[r], p.rowClues[r], c);
      } else if Forces(p.colClues[c], height, r) {
        ColumnIsBinary(g, p, c);
        ForcedCellIsFilled(Column(g, c), p.colClues[c], r);
      }
    }
  }

  /** A puzzle with a solution has no single-run clue longer than its line. */
  lemma SolvableCluesFit(p: Puzzle, g: Grid)
    requires IsSolution(g, p)
    ensures PreprocessArgs(p)
  {
    forall r | 0 <= r < p.Height()
      ensures ClueFits(p.rowClues[r], p.Width())
    {
      if |p.rowClues[r]| == 1 {
        LineFitsSingleRun(g[r], p.rowClues[r]);
      }
    }
    forall c | 0 <= c < p.Width()
      ensures ClueFits(p.colClues[c], p.Height())
    {
      if |p.colClues[c]| == 1 {
        ColumnIsBinary(g, p, c);
        LineFitsSingleRun(Column(g, c), p.colClues[c]);
      }
    }
  }

  /** The run of a 0/1 line that matches a single-run clue fits in the line. */
  lemma LineFitsSingleRun(line: seq<int>, clue: Clue)
    requires IsBinary(line) && CheckConstraint(line, clue) && |clue| == 1
    ensures clue[0] <= |line|
  {
    RunsPositive(line);
    var before := SingleRunShape(line, clue[0] as nat);
  }

  lemma ColumnIsBinary(g: Grid, p: Puzzle, c: nat)
    requires IsSolution(g, p) && c < p.Width()
    ensures IsBinary(Column(g, c)) && |Column(g, c)| == p.Height()
  {
    forall r | 0 <= r < |g|
      ensures Column(g, c)[r] in {0, 1}
    {
      assert IsBinary(g[r]);
    }
  }

  /**
   * The grid read off values picked from the preprocessed domains has 0/1
   * cells and holds 1 wherever `preprocess` forced it.
   */
  lemma GridWithinPreprocessed(p: Puzzle, r: seq<Domain>)
    requires PreprocessArgs(p) && Picks(r, Preprocessed(p))
    ensures forall row, col :: 0 <= row < p.Height() && 0 <= col < p.Width() ==>
      ToGrid(r, p.Width(), p.Height())[row][col] in CellDomain(p, row, col)
    ensures forall row :: 0 <= row < p.Height() ==> IsBinary(ToGrid(r, p.Width(), p.Height())[row])
  {
    var width, height := p.Width(), p.Height();
    var g := ToGrid(r, width, height);
    forall row, col | 0 <= row < height && 0 <= col < width
      ensures g[row][col] in CellDomain(p, row, col)
    {
      CellInGrid(row, col, width, height);
      PreprocessedCell(p, row, col);
      assert g[row][col] == r[CellIndex(row, col, width)][0];
    }
  }

  // ---------------------------------------------------------------------------
  // The whole run

  /**
   * `solve_nonogram(row_clues, col_clues)`: run `forward_checking` from the
   * preprocessed domains and read the grid off a successful result.
   */
  function SolveMrv(p: Puzzle): (res: (Option<Grid>, nat, nat))
    requires p.IsSquare() && PreprocessArgs(p)
    ensures res.0.Some? ==>
      |res.0.value| == p.Height() && forall r :: 0 <= r < p.Height() ==> |res.0.value[r]| == p.Width()
  {
    var d := Preprocessed(p);
    PreprocessedDomains(p);
    var (result, nodes, backs) := SearchMrv(p, d, 0, 0);
    if Truthy(result) then
      SearchMrvPicks(p, d, 0, 0);
      (Some(ToGrid(result.value, p.Width(), p.Height())), nodes, backs)
    else
      (None, nodes, backs)
  }

  /**
   * Whenever the puzzle has a solution and is not 0 by 0, a grid comes back.
   * Any grid that comes back has 0/1 cells, holds 1 in every cell `preprocess`
   * forced, and took at most one node and one backtrack per cell. A failed
   * run on a puzzle that is not 0 by 0 counts one node and at most two
   * backtracks; the 0-by-0 puzzle counts nothing. Nothing here says the grid
   * matches the clues: see `ImprovedSolverCounterexample`.
   */
  lemma SolveMrvOutcome(p: Puzzle)
    requires p.IsSquare() && PreprocessArgs(p)
    ensures p.Width() > 0 && (exists g :: IsSolution(g, p)) ==> SolveMrv(p).0.Some?
    ensures SolveMrv(p).0.Some? ==>
      && |SolveMrv(p).0.value| == p.Height()
      && (forall r :: 0 <= r < p.Height() ==>
            |SolveMrv(p).0.value[r]| == p.Width() && IsBinary(SolveMrv(p).0.value[r]))
      && (forall r, c :: 0 <= r < p.Height() && 0 <= c < p.Width() && CellDomain(p, r, c) == [1] ==>
            SolveMrv(p).0.value[r][c] == 1)
      && SolveMrv(p).1 <= p.Width() * p.Height()
      && SolveMrv(p).2 <= p.Width() * p.Height()
    ensures SolveMrv(p).0.None? ==> p.Width() == 0 || (SolveMrv(p).1 == 1 && SolveMrv(p).2 <= 2)
  {
    var domains := Preprocessed(p);
    PreprocessedDomains(p);
    var (result, nodes, backs) := SearchMrv(p, domains, 0, 0);
    MrvCounters(p, domains, 0, 0);
    MultiCountAtMostLength(domains);
    PreprocessedSlack(p);
    if Truthy(result) {
      SearchMrvPicks(p, domains, 0, 0);
      GridWithinPreprocessed(p, result.value);
      assert SolveMrv(p) == (Some(ToGrid(result.value, p.Width(), p.Height())), nodes, backs);
    } else {
      assert SolveMrv(p) == (None, nodes, backs);
      if p.Width() > 0 && exists g :: IsSolution(g, p) {
        var g :| IsSolution(g, p);
        FlattenSolution(g, p);
        PreprocessKeepsSolutions(p, g);
        SearchMrvComplete(p, domains, 0, 0, Flatten(g, p.Width(), p.Height()));
        assert false;
      }
      if p.Width() > 0 {
        assert Selected(domains) < |domains| by {
          assert domains != [];
        }
      }
    }
  }

  /**
   * Rows `[[2], [1]]` and columns `[[2], [2]]`: `preprocess` fixes all four
   * cells to 1, so no cell is open, the search returns at once with both
   * counts 0, and the grid of ones breaks the clue of row 1.
   */
  lemma ImprovedSolverCounterexample()
    ensures var p := Puzzle([[2], [1]], [[2], [2]]);
      && Preprocessed(p) == [[1], [1], [1], [1]]
      && SearchMrv(p, Preprocessed(p), 0, 0) == (Some([[1], [1], [1], [1]]), 0, 0)
      && SolveMrv(p) == (Some([[1, 1], [1, 1]]), 0, 0)
      && !IsSolution([[1, 1], [1, 1]], p)
  {
    var p := Puzzle([[2], [1]], [[2], [2]]);
    var d: seq<Domain> := [[1], [1], [1], [1]];
    CounterexamplePreprocessed();
    MultiCountZero(d);
    MrvCounters(p, d, 0, 0);
    CounterexampleGrid();
    CounterexampleRowOne();
  }

  lemma CounterexamplePreprocessed()
    ensures Preprocessed(Puzzle([[2], [1]], [[2], [2]])) == [[1], [1], [1], [1]]
  {
    var p := Puzzle([[2], [1]], [[2], [2]]);
    PreprocessedCell(p, 0, 0);
    PreprocessedCell(p, 0, 1);
    PreprocessedCell(p, 1, 0);
    PreprocessedCell(p, 1, 1);
  }

  lemma CounterexampleGrid()
    ensures ToGrid([[1], [1], [1], [1]], 2, 2) == [[1, 1], [1, 1]]
  {
    var g := ToGrid([[1], [1], [1], [1]], 2, 2);
    assert g[0] == [1, 1];
    assert g[1] == [1, 1];
  }

  lemma CounterexampleRowOne()
    ensures !CheckConstraint([1, 1], [1])
  {
    RunsAfterOnes(2, []);
    assert Ones(2) == [1, 1];
  }

  /**
   * The 1 by 1 puzzle with clues `[[1]]` and `[[1]]`: `preprocess` already
   * fixes the only cell, so the search selects no cell and the run reports the
   * grid `[[1]]` with no node counted.
   */
  lemma ImprovedOneByOne()
    ensures SolveMrv(Puzzle([[1]], [[1]])) == (Some([[1]]), 0, 0)
    ensures IsSolution([[1]], Puzzle([[1]], [[1]]))
  {
    var p := Puzzle([[1]], [[1]]);
    var d: seq<Domain> := [[1]];
    PreprocessedCell(p, 0, 0);
    assert Preprocessed(p) == d;
    MultiCountZero(d);
    MrvCounters(p, d, 0, 0);
    assert SearchMrv(p, Preprocessed(p), 0, 0) == (Some(d), 0, 0);
    var g := ToGrid(d, 1, 1);
    assert g[0] == [1];
    assert g == [[1]];
    RunsAfterOnes(1, []);
    assert Ones(1) == [1];
    assert Column([[1]], 0) == [1];
  }
}
