/**
 * The run-length check both solvers apply to a completed line: the lengths of
 * the maximal runs of 1s, read left to right, must equal the clue. The source
 * computes them with `itertools.groupby`, keeping the groups whose key is 1;
 * `GroupBy` below is that grouping, `RunLengths` keeps the sizes of the 1-groups.
 */
module Runs {

  /** A maximal block of equal consecutive entries of a line. */
  datatype Group = Group(key: int, size: nat)

  /** `n` copies of `x`. */
  function Repeat(x: int, n: nat): (r: seq<int>)
    ensures |r| == n
    ensures forall i :: 0 <= i < n ==> r[i] == x
  {
    if n == 0 then [] else [x] + Repeat(x, n - 1)
  }

  function Zeros(n: nat): seq<int> { Repeat(0, n) }

  function Ones(n: nat): seq<int> { Repeat(1, n) }

  /** Number of entries equal to s[0] at the start of s, before the first different one. */
  function LeadingRun(s: seq<int>): (k: nat)
    requires |s| > 0
    ensures 1 <= k <= |s|
    ensures forall i :: 0 <= i < k ==> s[i] == s[0]
    ensures k < |s| ==> s[k] != s[0]
  {
    if |s| == 1 || s[1] != s[0] then 1 else 1 + LeadingRun(s[1..])
  }

  /** The line cut into maximal blocks of equal values, left to right. */
  function GroupBy(s: seq<int>): (gs: seq<Group>)
    ensures |gs| <= |s|
    ensures gs == [] <==> s == []
    decreases |s|
  {
    if s == [] then []
    else
      var k := LeadingRun(s);
      [Group(s[0], k)] + GroupBy(s[k..])
  }

  /** Writes the blocks out again. */
  function Expand(gs: seq<Group>): seq<int>
  {
    if gs == [] then [] else Repeat(gs[0].key, gs[0].size) + Expand(gs[1..])
  }

  /** Sizes of the blocks of 1s, in order. */
  function OneSizes(gs: seq<Group>): (sizes: seq<nat>)
    ensures |sizes| <= |gs|
  {
    if gs == [] then []
    else (if gs[0].key == 1 then [gs[0].size] else []) + OneSizes(gs[1..])
  }

  /** Lengths of the maximal runs of 1s of a line, left to right. */
  function RunLengths(s: seq<int>): seq<nat>
  {
    OneSizes(GroupBy(s))
  }

  /**
   * `check_constraint`: the line's runs are exactly the clue. A line has at
   * most one run per cell, so a clue with more entries than cells never matches.
   */
  predicate CheckConstraint(line: seq<int>, clue: seq<int>)
    ensures CheckConstraint(line, clue) ==> |clue| <= |line|
  {
    RunLengths(line) == clue
  }

  /** A line of 0/1 cells. */
  predicate IsBinary(s: seq<int>)
  {
    forall i :: 0 <= i < |s| ==> s[i] == 0 || s[i] == 1
  }

  // ---------------------------------------------------------------------------
  // Grouping

  /** Writing the groups out gives back the line. */
  lemma {:induction false} GroupByRoundTrip(s: seq<int>)
    ensures Expand(GroupBy(s)) == s
    decreases |s|
  {
    if s != [] {
      var k := LeadingRun(s);
      ExpandFirstGroup(s[0], k, GroupBy(s[k..]));
      GroupByRoundTrip(s[k..]);
      LeadingRunSplit(s);
    }
  }

  lemma ExpandFirstGroup(x: int, k: nat, rest: seq<Group>)
    ensures Expand([Group(x, k)] + rest) == Repeat(x, k) + Expand(rest)
  {
    assert ([Group(x, k)] + rest)[1..] == rest;
  }

  /** A line is its leading run followed by the rest. */
  lemma LeadingRunSplit(s: seq<int>)
    requires s != []
    ensures s == Repeat(s[0], LeadingRun(s)) + s[LeadingRun(s)..]
  {
    var k := LeadingRun(s);
    var t := Repeat(s[0], k) + s[k..];
    forall i | 0 <= i < |s|
      ensures t[i] == s[i]
    {
      if i >= k {
        assert t[i] == s[k..][i - k];
      }
    }
    assert t == s;
  }

  /** The groups are maximal: none is empty, and neighbouring groups have different keys. */
  lemma {:induction false} GroupByMaximal(s: seq<int>)
    ensures forall j :: 0 <= j < |GroupBy(s)| ==> GroupBy(s)[j].size >= 1
    ensures forall j :: 0 <= j < |GroupBy(s)| - 1 ==> GroupBy(s)[j].key != GroupBy(s)[j + 1].key
    decreases |s|
  {
    if s != [] {
      var k := LeadingRun(s);
      var gs := GroupBy(s);
      GroupByMaximal(s[k..]);
      assert gs[1..] == GroupBy(s[k..]);
      if k < |s| {
        assert gs[1].key == s[k];
      }
    }
  }

  // ---------------------------------------------------------------------------
  // Runs, one step at a time

  lemma RunsUnfold(s: seq<int>)
    requires s != []
    ensures RunLengths(s) == (if s[0] == 1 then [LeadingRun(s)] else []) + RunLengths(s[LeadingRun(s)..])
  {
    var k := LeadingRun(s);
    assert GroupBy(s)[1..] == GroupBy(s[k..]);
  }

  /** A cell that is not 1 does not change the runs after it. */
  lemma RunsDropNonOne(s: seq<int>)
    requires s != [] && s[0] != 1
    ensures RunLengths(s) == RunLengths(s[1..])
  {
    RunsUnfold(s);
    var k := LeadingRun(s);
    if k > 1 {
      assert s[1] == s[0];
      assert LeadingRun(s[1..]) == k - 1;
      RunsUnfold(s[1..]);
      assert s[1..][k - 1..] == s[k..];
    }
  }

  /** Leading empty cells do not change the runs. */
  lemma {:induction false} RunsAfterZeros(n: nat, t: seq<int>)
    ensures RunLengths(Zeros(n) + t) == RunLengths(t)
  {
    if n > 0 {
      var s := Zeros(n) + t;
      assert Zeros(n) == [0] + Zeros(n - 1);
      assert s[0] == 0;
      RunsDropNonOne(s);
      assert s[1..] == Zeros(n - 1) + t;
      RunsAfterZeros(n - 1, t);
    } else {
      assert Zeros(n) + t == t;
    }
  }

  /** A block of `n` 1s followed by a cell that is not 1 is one run of length `n`. */
  lemma RunsAfterOnes(n: nat, t: seq<int>)
    requires n >= 1
    requires t == [] || t[0] != 1
    ensures RunLengths(Ones(n) + t) == [n] + RunLengths(t)
  {
    var s := Ones(n) + t;
    var k := LeadingRun(s);
    if t != [] {
      assert s[n] == t[0];
    }
    assert k == n;
    RunsUnfold(s);
    assert s[k..] == t;
  }

  /** Every run has length at least 1. */
  lemma {:induction false} RunsPositive(s: seq<int>)
    ensures forall j :: 0 <= j < |RunLengths(s)| ==> RunLengths(s)[j] >= 1
    decreases |s|
  {
    if s != [] {
      RunsUnfold(s);
      RunsPositive(s[LeadingRun(s)..]);
    }
  }

  /** A line has no runs exactly when it has no 1 in it. */
  lemma {:induction false} NoRunsIffNoOnes(s: seq<int>)
    ensures RunLengths(s) == [] <==> forall i :: 0 <= i < |s| ==> s[i] != 1
    decreases |s|
  {
    if s != [] {
      if s[0] == 1 {
        RunsUnfold(s);
      } else {
        RunsDropNonOne(s);
        NoRunsIffNoOnes(s[1..]);
        assert forall i :: 1 <= i < |s| ==> s[i] == s[1..][i - 1];
      }
    }
  }

  /** A clue with a length below 1 in it matches no line. */
  lemma ClueBelowOneNeverMatches(line: seq<int>, clue: seq<int>, j: nat)
    requires j < |clue| && clue[j] <= 0
    ensures !CheckConstraint(line, clue)
  {
    RunsPositive(line);
  }

  /** Only the empty clue matches a line without 1s, and the empty clue matches only such lines. */
  lemma EmptyClueMatchesOnlyBlankLines(line: seq<int>, clue: seq<int>)
    ensures (forall i :: 0 <= i < |line| ==> line[i] != 1) ==> (CheckConstraint(line, clue) <==> clue == [])
    ensures CheckConstraint(line, []) ==> forall i :: 0 <= i < |line| ==> line[i] != 1
  {
    NoRunsIffNoOnes(line);
  }

  // ---------------------------------------------------------------------------
  // Placements: the lines a clue describes

  /**
   * The line with `gaps[0]` empty cells, a run of `clue[0]` filled cells,
   * `gaps[1]` empty cells, and so on, ending with `gaps[|clue|]` empty cells.
   */
  function Render(clue: seq<nat>, gaps: seq<nat>): (line: seq<int>)
    requires |gaps| == |clue| + 1
  {
    if clue == [] then Zeros(gaps[0])
    else Zeros(gaps[0]) + Ones(clue[0]) + Render(clue[1..], gaps[1..])
  }

  /** Runs of at least one cell, separated by at least one empty cell. */
  predicate ValidPlacement(clue: seq<nat>, gaps: seq<nat>)
  {
    && |gaps| == |clue| + 1
    && (forall j :: 0 <= j < |clue| ==> clue[j] >= 1)
    && (forall j :: 0 < j < |clue| ==> gaps[j] >= 1)
  }

  lemma BinaryAppend(a: seq<int>, b: seq<int>)
    requires IsBinary(a) && IsBinary(b)
    ensures IsBinary(a + b)
  {
  }

  /** A placement is a 0/1 line. */
  lemma {:induction false} RenderIsBinary(clue: seq<nat>, gaps: seq<nat>)
    requires |gaps| == |clue| + 1
    ensures IsBinary(Render(clue, gaps))
    decreases |clue|
  {
    if clue != [] {
      RenderIsBinary(clue[1..], gaps[1..]);
      BinaryAppend(Zeros(gaps[0]), Ones(clue[0]));
      BinaryAppend(Zeros(gaps[0]) + Ones(clue[0]), Render(clue[1..], gaps[1..]));
    }
  }

  /** Every placement of a clue's runs matches the clue. */
  lemma {:induction false} PlacementMatches(clue: seq<nat>, gaps: seq<nat>)
    requires ValidPlacement(clue, gaps)
    ensures CheckConstraint(Render(clue, gaps), clue)
    decreases |clue|
  {
    if clue == [] {
      NoRunsIffNoOnes(Zeros(gaps[0]));
    } else {
      var rest := Render(clue[1..], gaps[1..]);
      var block := Ones(clue[0]) + rest;
      assert Render(clue, gaps) == Zeros(gaps[0]) + block;
      assert ValidPlacement(clue[1..], gaps[1..]);
      PlacementMatches(clue[1..], gaps[1..]);
      if |clue| > 1 {
        assert clue[1..][1..] == clue[2..] && gaps[1..][1..] == gaps[2..];
        var tail := Ones(clue[1]) + Render(clue[2..], gaps[2..]);
        assert rest == Zeros(gaps[1]) + tail;
        assert gaps[1] >= 1;
        assert rest[0] == 0;
      } else {
        assert rest == Zeros(gaps[1]);
      }
      RunsAfterOnes(clue[0], rest);
      RunsAfterZeros(gaps[0], block);
      assert clue == [clue[0]] + clue[1..];
    }
  }

  lemma ZerosSucc(n: nat)
    ensures Zeros(n + 1) == [0] + Zeros(n)
  {
  }

  /** A placement that does not start with a gap starts with a filled cell. */
  lemma RenderStart(clue: seq<nat>, gaps: seq<nat>)
    requires ValidPlacement(clue, gaps) && clue != []
    ensures |Render(clue, gaps)| > 0
    ensures Render(clue, gaps)[0] == (if gaps[0] > 0 then 0 else 1)
  {
    assert Render(clue, gaps) == Zeros(gaps[0]) + Ones(clue[0]) + Render(clue[1..], gaps[1..]);
  }

  /** One more leading gap cell puts one more 0 in front of the placement. */
  lemma WidenFirstGap(clue: seq<nat>, gaps: seq<nat>)
    requires |gaps| == |clue| + 1
    ensures Render(clue, gaps[0 := gaps[0] + 1]) == [0] + Render(clue, gaps)
  {
    var wider := gaps[0 := gaps[0] + 1];
    ZerosSucc(gaps[0]);
    if clue != [] {
      var after := Ones(clue[0]) + Render(clue[1..], gaps[1..]);
      assert wider[1..] == gaps[1..];
      assert Render(clue, wider) == Zeros(gaps[0] + 1) + after;
      assert Render(clue, gaps) == Zeros(gaps[0]) + after;
    }
  }

  /** A run in front of a placement, with no gap before it. */
  lemma PrependRun(k: nat, clue: seq<nat>, gaps: seq<nat>)
    requires |gaps| == |clue| + 1
    ensures Render([k] + clue, [0] + gaps) == Ones(k) + Render(clue, gaps)
  {
    assert ([k] + clue)[1..] == clue && ([0] + gaps)[1..] == gaps;
  }

  lemma ValidAfterWidening(clue: seq<nat>, gaps: seq<nat>)
    requires ValidPlacement(clue, gaps)
    ensures ValidPlacement(clue, gaps[0 := gaps[0] + 1])
  {
  }

  lemma ValidAfterRun(k: nat, clue: seq<nat>, gaps: seq<nat>)
    requires ValidPlacement(clue, gaps) && k >= 1
    requires clue != [] ==> gaps[0] >= 1
    ensures ValidPlacement([k] + clue, [0] + gaps)
  {
    var c, g := [k] + clue, [0] + gaps;
    forall j | 0 < j < |c|
      ensures g[j] >= 1
    {
      assert g[j] == gaps[j - 1];
    }
  }

  /** Every 0/1 line is a placement of its own runs: the converse of PlacementMatches. */
  lemma {:induction false} LineIsPlacementOfItsRuns(line: seq<int>) returns (gaps: seq<nat>)
    requires IsBinary(line)
    ensures ValidPlacement(RunLengths(line), gaps)
    ensures Render(RunLengths(line), gaps) == line
    decreases |line|
  {
    if line == [] {
      gaps := [0];
    } else if line[0] == 0 {
      var tailGaps := LineIsPlacementOfItsRuns(line[1..]);
      gaps := PlacementAfterEmptyCell(line, tailGaps);
    } else {
      var rest := line[LeadingRun(line)..];
      assert IsBinary(rest);
      var restGaps := LineIsPlacementOfItsRuns(rest);
      gaps := PlacementAfterFirstRun(line, restGaps);
    }
  }

  /** A placement of a line's tail, its first gap widened, places the line when it starts empty. */
  lemma PlacementAfterEmptyCell(line: seq<int>, tailGaps: seq<nat>) returns (gaps: seq<nat>)
    requires line != [] && line[0] == 0
    requires ValidPlacement(RunLengths(line[1..]), tailGaps) && Render(RunLengths(line[1..]), tailGaps) == line[1..]
    ensures ValidPlacement(RunLengths(line), gaps) && Render(RunLengths(line), gaps) == line
  {
    RunsDropNonOne(line);
    gaps := tailGaps[0 := tailGaps[0] + 1];
    WidenFirstGap(RunLengths(line), tailGaps);
    ValidAfterWidening(RunLengths(line), tailGaps);
    assert line == [0] + line[1..];
  }

  /** A placement of what follows a line's first run, behind a zero gap, places the line. */
  lemma PlacementAfterFirstRun(line: seq<int>, restGaps: seq<nat>) returns (gaps: seq<nat>)
    requires line != [] && line[0] == 1
    requires ValidPlacement(RunLengths(line[LeadingRun(line)..]), restGaps)
    requires Render(RunLengths(line[LeadingRun(line)..]), restGaps) == line[LeadingRun(line)..]
    ensures ValidPlacement(RunLengths(line), gaps) && Render(RunLengths(line), gaps) == line
  {
    var k := LeadingRun(line);
    var rest := line[k..];
    RunsUnfold(line);
    gaps := [0] + restGaps;
    if RunLengths(rest) != [] {
      // the cell after the first run is empty, so the next gap is not zero
      RenderStart(RunLengths(rest), restGaps);
      assert rest[0] == line[k] != 1;
    }
    ValidAfterRun(k, RunLengths(rest), restGaps);
    PrependRun(k, RunLengths(rest), restGaps);
    LeadingRunSplit(line);
  }

  /** A 0/1 line matches the single clue [n] exactly when it is one block of n 1s padded with 0s. */
  lemma SingleRunShape(line: seq<int>, n: nat) returns (before: nat)
    requires IsBinary(line)
    requires CheckConstraint(line, [n])
    ensures n >= 1 && before + n <= |line|
    ensures line == Zeros(before) + Ones(n) + Zeros(|line| - before - n)
  {
    var gaps := LineIsPlacementOfItsRuns(line);
    before := gaps[0];
    assert line == Zeros(gaps[0]) + Ones(n) + Zeros(gaps[1]);
  }
}
