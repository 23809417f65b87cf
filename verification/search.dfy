/** Python's `search` and `solve`: reduce, then branch depth-first on the
    unsolved box with the fewest candidates, trying its candidates in string
    order on a copy of the board, and return the first complete board found. */
module Search {
  import opened Topology
  import opened Candidates
  import opened Boards
  import opened Solutions
  import opened EliminateRule
  import opened Reduce

  /** Box `s` comes no later than `c` in the order `search` minimises over
      (solution.py:190): fewer candidates, or as many and an earlier position. */
  predicate FewerFirst(b: Board, s: Cell, c: Cell)
  {
    |b[s]| < |b[c]| || (|b[s]| == |b[c]| && s <= c)
  }

  /** The first of the boxes `0 .. n-1` with more than one candidate in the
      order `FewerFirst`, if there is one. */
  function MinAmong(b: Board, n: nat): (r: Option<Cell>)
    requires n <= 81
    ensures r.None? <==> forall c :: 0 <= c < n ==> |b[c]| <= 1
    ensures r.Some? ==> r.value < n && |b[r.value]| > 1
    ensures r.Some? ==> forall c :: 0 <= c < n && |b[c]| > 1 ==> FewerFirst(b, r.value, c)
  {
    if n == 0 then None
    else
      var m := MinAmong(b, n - 1);
      if |b[n - 1]| <= 1 then m
      else if m.None? || |b[n - 1]| < |b[m.value]| then Some(n - 1)
      else m
  }

  /** The box `search` branches on (solution.py:190): among the unsolved boxes, the first in the order `FewerFirst`. */
  function MinRemaining(b: Board): (s: Cell)
    requires exists c :: 0 <= c < 81 && |b[c]| > 1
    ensures |b[s]| > 1
    ensures forall c :: 0 <= c < 81 && |b[c]| > 1 ==> FewerFirst(b, s, c)
  {
    MinAmong(b, 81).value
  }

  /** The chosen box is the minimum of the pairs (number of candidates, box
      name) that the source compares. */
  lemma MinRemainingIsTupleMin(b: Board, c: Cell)
    requires exists c :: 0 <= c < 81 && |b[c]| > 1
    requires |b[c]| > 1 && c != MinRemaining(b)
    ensures var s := MinRemaining(b);
      |b[s]| < |b[c]| || (|b[s]| == |b[c]| && NameBefore(Name(s), Name(c)))
  {
    IndexOrderIsNameOrder(MinRemaining(b), c);
  }

  /** A board with no empty box that is not complete has a box to branch on. */
  lemma IncompleteHasChoice(b: Board)
    requires !HasEmpty(b) && !Complete(b)
    ensures exists c :: 0 <= c < 81 && |b[c]| > 1
  {
    var c :| 0 <= c < 81 && |b[c]| != 1;
    assert |b[c]| != 0;
  }

  /** Python's `search(values)`, with the dictionary's keys in the order `keys`. */
  function Search(st: State, keys: seq<Cell>): (r: Reply)
    requires IsKeyOrder(keys)
    ensures st.log <= r.log
    ensures r.result.Some? ==>
      Complete(r.result.value) && Consistent(r.result.value) && Shrinks(r.result.value, st.board)
    decreases TotalCandidates(st.board), 1, 0
  {
    var red := ReducePuzzle(st, keys);
    if red.result.None? then red
    else
      var b := red.result.value;
      if Complete(b) then red
      else
        IncompleteHasChoice(b);
        var s := MinRemaining(b);
        TotalShrinks(b, st.board);
        var r := TryBranches(b, s, b[s], red.log, keys);
        if r.result.Some? then
          ShrinksTrans(r.result.value, b, st.board);
          r
        else
          r
  }

  /** The branch loop of `search` (solution.py:193-198): for each candidate still
      to be tried, search a copy of the board with box `s` set to it, and stop
      at the first success. */
  function TryBranches(b: Board, s: Cell, vs: seq<char>, log: seq<Board>, keys: seq<Cell>): (r: Reply)
    requires IsKeyOrder(keys) && |b[s]| > 1
    requires forall v :: v in vs ==> v in b[s]
    ensures log <= r.log
    ensures r.result.Some? ==>
      Complete(r.result.value) && Consistent(r.result.value) && Shrinks(r.result.value, b)
    decreases TotalCandidates(b), 0, |vs|
  {
    if |vs| == 0 then Reply(None, log)
    else
      var child := b[s := [vs[0]]];
      TotalDropsOnFix(b, s, vs[0]);
      var attempt := Search(State(child, log), keys);
      if attempt.result.Some? then
        SingletonSubseq(vs[0], b[s]);
        AssignRefines(State(b, log), s, [vs[0]]);
        ShrinksTrans(attempt.result.value, child, b);
        attempt
      else
        TryBranches(b, s, vs[1..], attempt.log, keys)
  }

  // ---------------------------------------------------------------- completeness

  /** If a valid solution fits the board, `search` finds a board (not
      necessarily that solution: the first complete board in branch order). */
  lemma {:induction false} SearchFindsSolution(st: State, keys: seq<Cell>, sol: seq<char>)
    requires IsKeyOrder(keys)
    requires ValidSolution(sol) && Compatible(sol, st.board)
    ensures Search(st, keys).result.Some?
    decreases TotalCandidates(st.board), 1, 0
  {
    ReduceKeepsSolution(st, keys, sol);
    var red := ReducePuzzle(st, keys);
    var b := red.result.value;
    if !Complete(b) {
      IncompleteHasChoice(b);
      var s := MinRemaining(b);
      TotalShrinks(b, st.board);
      TryBranchesFindsSolution(b, s, b[s], red.log, keys, sol);
    }
  }

  lemma {:induction false} TryBranchesFindsSolution(b: Board, s: Cell, vs: seq<char>, log: seq<Board>, keys: seq<Cell>, sol: seq<char>)
    requires IsKeyOrder(keys) && |b[s]| > 1
    requires forall v :: v in vs ==> v in b[s]
    requires ValidSolution(sol) && Compatible(sol, b) && sol[s] in vs
    ensures TryBranches(b, s, vs, log, keys).result.Some?
    decreases TotalCandidates(b), 0, |vs|
  {
    var child := b[s := [vs[0]]];
    TotalDropsOnFix(b, s, vs[0]);
    if vs[0] == sol[s] {
      SearchFindsSolution(State(child, log), keys, sol);
    } else {
      var attempt := Search(State(child, log), keys);
      if attempt.result.None? {
        TryBranchesFindsSolution(b, s, vs[1..], attempt.log, keys, sol);
      }
    }
  }

  // ---------------------------------------------------------------- solve

  /** The boxes in `boxes` order: the key order of the dictionary `grid_values` builds. */
  function AllCells(): (r: seq<Cell>)
    ensures IsKeyOrder(r)
    ensures forall i :: 0 <= i < 81 ==> r[i] == i
  {
    var r: seq<Cell> := seq(81, i requires 0 <= i < 81 => i);
    assert forall c: Cell :: c in r by {
      forall c: Cell
        ensures c in r
      {
        assert r[c] == c;
      }
    }
    r
  }

  /** Python's `solve(grid)`, starting from the log `log`. */
  function Solve(grid: string, log: seq<Board>): (r: Reply)
    requires |grid| == 81
    ensures log <= r.log
    ensures r.result.Some? ==>
      Complete(r.result.value) && Consistent(r.result.value) &&
      forall c :: 0 <= c < 81 && grid[c] != '.' ==> r.result.value[c] == [grid[c]]
  {
    var b := GridValues(grid);
    var r := Search(State(b, log), AllCells());
    if r.result.Some? then
      var f := r.result.value;
      ShrinksFacts(f, b);
      forall c | 0 <= c < 81 && grid[c] != '.'
        ensures f[c] == [grid[c]]
      {
        SubseqSameLength(f[c], b[c]);
      }
      r
    else
      r
  }

  /** A grid written in '.' and the digits 1-9: a board `solve` returns spells
      out a valid diagonal Sudoku solution that keeps every given. */
  lemma SolveIsValid(grid: string, log: seq<Board>)
    requires |grid| == 81 && forall c :: 0 <= c < 81 ==> grid[c] == '.' || grid[c] in Digits
    requires Solve(grid, log).result.Some?
    ensures ValidSolution(SolutionOf(Solve(grid, log).result.value))
    ensures forall c :: 0 <= c < 81 && grid[c] != '.' ==> SolutionOf(Solve(grid, log).result.value)[c] == grid[c]
  {
    var b := GridValues(grid);
    var f := Solve(grid, log).result.value;
    assert Shrinks(f, b);
    ShrinksFacts(f, b);
    forall c | 0 <= c < 81
      ensures f[c][0] in Digits
    {
      assert f[c][0] in f[c];
    }
    ConsistentCompleteIsValid(f);
  }

  /** A grid that some valid solution completes, agreeing with every given, is solved. */
  lemma SolveFindsSolution(grid: string, log: seq<Board>, sol: seq<char>)
    requires |grid| == 81 && ValidSolution(sol)
    requires forall c :: 0 <= c < 81 && grid[c] != '.' ==> sol[c] == grid[c]
    ensures Solve(grid, log).result.Some?
  {
    GridValuesCompatible(grid, sol);
    SearchFindsSolution(State(GridValues(grid), log), AllCells(), sol);
  }
}
