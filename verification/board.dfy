/** The Sudoku board (Python's `values` dictionary) and its assignment primitive.

    A board maps each of the 81 boxes to its candidate string. A `State` pairs
    the board with the assignment log: the snapshots `assign_value` records,
    oldest first. The log is threaded through every operation as a value,
    instead of living in a process-wide list. */
module Boards {
  import opened Topology
  import opened Candidates

  type Board = b: seq<seq<char>> | |b| == 81 witness seq(81, i => "")

  datatype State = State(board: Board, log: seq<Board>)

  /** Python's `assign_value(values, box, value)`: overwrite one box, and record
      a snapshot of the updated board when the new value is a single character. */
  function Assign(st: State, box: Cell, value: seq<char>): (r: State)
    ensures r.board[box] == value
    ensures forall c :: 0 <= c < 81 && c != box ==> r.board[c] == st.board[c]
    ensures |value| == 1 ==> r.log == st.log + [r.board]
    ensures |value| != 1 ==> r.log == st.log
  {
    var b := st.board[box := value];
    State(b, if |value| == 1 then st.log + [b] else st.log)
  }

  // ---------------------------------------------------------------- shrinking

  /** Every box of `after` holds a subsequence of what it held in `before`. */
  predicate Shrinks(after: Board, before: Board)
  {
    forall c :: 0 <= c < 81 ==> IsSubseq(after[c], before[c])
  }

  /** `r` is `st` with candidates deleted and snapshots appended to the log. */
  predicate Refines(r: State, st: State)
  {
    Shrinks(r.board, st.board) && st.log <= r.log
  }

  lemma ShrinksRefl(b: Board)
    ensures Shrinks(b, b)
  {
    forall c | 0 <= c < 81
      ensures IsSubseq(b[c], b[c])
    {
      SubseqRefl(b[c]);
    }
  }

  lemma ShrinksTrans(a: Board, b: Board, c: Board)
    requires Shrinks(a, b) && Shrinks(b, c)
    ensures Shrinks(a, c)
  {
    forall x | 0 <= x < 81
      ensures IsSubseq(a[x], c[x])
    {
      SubseqTrans(a[x], b[x], c[x]);
    }
  }

  lemma RefinesRefl(st: State)
    ensures Refines(st, st)
  {
    ShrinksRefl(st.board);
  }

  lemma RefinesTrans(a: State, b: State, c: State)
    requires Refines(a, b) && Refines(b, c)
    ensures Refines(a, c)
  {
    ShrinksTrans(a.board, b.board, c.board);
  }

  /** A shrunk board has no box longer than before and no new characters. */
  lemma ShrinksFacts(after: Board, before: Board)
    requires Shrinks(after, before)
    ensures forall c :: 0 <= c < 81 ==> |after[c]| <= |before[c]|
    ensures forall c, x :: 0 <= c < 81 && x in after[c] ==> x in before[c]
  {
    forall c | 0 <= c < 81
      ensures |after[c]| <= |before[c]|
      ensures forall x :: x in after[c] ==> x in before[c]
    {
      SubseqShrinks(after[c], before[c]);
    }
  }

  /** Assigning a subsequence of a box's candidates shrinks the board. */
  lemma AssignRefines(st: State, box: Cell, value: seq<char>)
    requires IsSubseq(value, st.board[box])
    ensures Refines(Assign(st, box, value), st)
  {
    var r := Assign(st, box, value);
    forall c | 0 <= c < 81
      ensures IsSubseq(r.board[c], st.board[c])
    {
      if c != box {
        SubseqRefl(st.board[c]);
      }
    }
  }

  /** A box that ends where it started was not changed in between either. */
  lemma BoxSandwich(a: Board, m: Board, b: Board, c: Cell)
    requires Shrinks(a, m) && Shrinks(m, b) && a[c] == b[c]
    ensures m[c] == b[c]
  {
    SubseqShrinks(a[c], m[c]);
    SubseqSameLength(m[c], b[c]);
  }

  /** A board that ends where it started was not changed in between either. */
  lemma ShrinksSandwich(a: Board, m: Board, b: Board)
    requires Shrinks(a, m) && Shrinks(m, b) && a == b
    ensures m == b
  {
    forall c | 0 <= c < 81
      ensures m[c] == b[c]
    {
      BoxSandwich(a, m, b, c);
    }
  }

  // ---------------------------------------------------------------- counting

  predicate IsSolved(b: Board, c: Cell)
  {
    |b[c]| == 1
  }

  /** A board is complete when every box has exactly one candidate. */
  predicate Complete(b: Board)
  {
    forall c :: 0 <= c < 81 ==> |b[c]| == 1
  }

  /** Some box has no candidate left: the contradiction signal. */
  predicate HasEmpty(b: Board)
  {
    exists c :: 0 <= c < 81 && |b[c]| == 0
  }

  /** How many of the boxes `0 .. n-1` are solved. */
  function SolvedAmong(b: Board, n: nat): (k: nat)
    requires n <= 81
    ensures k <= n
  {
    if n == 0 then 0
    else SolvedAmong(b, n - 1) + (if |b[n - 1]| == 1 then 1 else 0)
  }

  /** The number of solved boxes, which `reduce_puzzle` compares before and after a round (solution.py:143-151). */
  function SolvedCount(b: Board): (k: nat)
    ensures k <= 81
  {
    SolvedAmong(b, 81)
  }

  /** All boxes below `n` solved exactly when the count reaches `n`. */
  lemma {:induction false} SolvedAmongFull(b: Board, n: nat)
    requires n <= 81
    ensures SolvedAmong(b, n) == n <==> forall c :: 0 <= c < n ==> |b[c]| == 1
  {
    if n > 0 {
      SolvedAmongFull(b, n - 1);
    }
  }

  lemma SolvedCountFull(b: Board)
    ensures SolvedCount(b) == 81 <==> Complete(b)
  {
    SolvedAmongFull(b, 81);
  }

  /** When every solved box stays solved the count cannot drop, and it stays
      the same only if no box became newly solved. */
  lemma {:induction false} SolvedAmongMonotone(after: Board, before: Board, n: nat)
    requires n <= 81
    requires forall c :: 0 <= c < n && |before[c]| == 1 ==> |after[c]| == 1
    ensures SolvedAmong(after, n) >= SolvedAmong(before, n)
    ensures SolvedAmong(after, n) == SolvedAmong(before, n) ==>
      forall c :: 0 <= c < n && |after[c]| == 1 ==> |before[c]| == 1
  {
    if n > 0 {
      SolvedAmongMonotone(after, before, n - 1);
    }
  }

  lemma SolvedCountMonotone(after: Board, before: Board)
    requires forall c :: 0 <= c < 81 && |before[c]| == 1 ==> |after[c]| == 1
    ensures SolvedCount(after) >= SolvedCount(before)
    ensures SolvedCount(after) == SolvedCount(before) ==>
      forall c :: 0 <= c < 81 && |after[c]| == 1 ==> |before[c]| == 1
  {
    SolvedAmongMonotone(after, before, 81);
  }

  /** Total number of candidates on boxes `0 .. n-1`. */
  function CandidatesAmong(b: Board, n: nat): (total: nat)
    requires n <= 81
  {
    if n == 0 then 0 else CandidatesAmong(b, n - 1) + |b[n - 1]|
  }

  function TotalCandidates(b: Board): (total: nat)
  {
    CandidatesAmong(b, 81)
  }

  /** Shrinking boxes shrinks the total, strictly if one box strictly shrinks. */
  lemma {:induction false} CandidatesAmongMonotone(a: Board, b: Board, n: nat, s: int)
    requires n <= 81
    requires forall c :: 0 <= c < n ==> |a[c]| <= |b[c]|
    ensures CandidatesAmong(a, n) <= CandidatesAmong(b, n)
    ensures 0 <= s < n && |a[s]| < |b[s]| ==> CandidatesAmong(a, n) < CandidatesAmong(b, n)
  {
    if n > 0 {
      CandidatesAmongMonotone(a, b, n - 1, s);
    }
  }

  lemma TotalShrinks(after: Board, before: Board)
    requires Shrinks(after, before)
    ensures TotalCandidates(after) <= TotalCandidates(before)
  {
    ShrinksFacts(after, before);
    CandidatesAmongMonotone(after, before, 81, 0);
  }

  /** Fixing an unsolved box to one candidate strictly lowers the total. */
  lemma TotalDropsOnFix(b: Board, s: Cell, v: char)
    requires |b[s]| > 1
    ensures TotalCandidates(b[s := [v]]) < TotalCandidates(b)
  {
    CandidatesAmongMonotone(b[s := [v]], b, 81, s);
  }

  /** An empty box stays empty on a shrunk board. */
  lemma EmptyStaysEmpty(after: Board, before: Board)
    requires Shrinks(after, before) && HasEmpty(before)
    ensures HasEmpty(after)
  {
    var c :| 0 <= c < 81 && |before[c]| == 0;
    SubseqShrinks(after[c], before[c]);
  }
  // ---------------------------------------------------------------- consistency

  /** No solved box shares its digit with a peer. */
  predicate Consistent(b: Board)
  {
    forall x, p :: 0 <= x < 81 && p in Peers(x) && |b[x]| == 1 ==> b[x][0] !in b[p]
  }

  // ---------------------------------------------------------------- parsing

  /** Python's `grid_values(grid)`: box `i` (the `i`-th of `boxes`) gets the
      `i`-th character of the grid, except that '.' gets every digit. */
  function GridValues(grid: string): (b: Board)
    requires |grid| == 81
    ensures forall i :: 0 <= i < 81 ==> b[i] == if grid[i] == '.' then Digits else [grid[i]]
  {
    seq(81, i requires 0 <= i < 81 => if grid[i] == '.' then Digits else [grid[i]])
  }

}
