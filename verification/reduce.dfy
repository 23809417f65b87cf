/** Python's `reduce_puzzle`: alternate `eliminate` and `only_choice` until a
    round leaves the number of solved boxes unchanged, giving up as soon as a
    round leaves some box without candidates. */
module Reduce {
  import opened Topology
  import opened Boards
  import opened Solutions
  import opened EliminateRule
  import opened OnlyChoiceRule

  datatype Option<T> = None | Some(value: T)

  /** A board or the failure value (`False` / `None`), together with the log
      as it stands afterwards: the log keeps the snapshots of failed attempts. */
  datatype Reply = Reply(result: Option<Board>, log: seq<Board>)

  /** One pass of the loop body: `eliminate`, then `only_choice`. */
  function Round(st: State, keys: seq<Cell>): (r: State)
    ensures Refines(r, st)
  {
    var e := Eliminate(st, keys);
    var r := OnlyChoice(e);
    RefinesTrans(r, e, st);
    r
  }

  /** A round that empties no box keeps every solved box solved, so the solved
      count cannot drop; if it stays the same, no box became solved. */
  lemma RoundKeepsSolved(st: State, keys: seq<Cell>)
    requires !HasEmpty(Round(st, keys).board)
    ensures SolvedCount(Round(st, keys).board) >= SolvedCount(st.board)
    ensures SolvedCount(Round(st, keys).board) == SolvedCount(st.board) ==>
      forall c :: 0 <= c < 81 && |Round(st, keys).board[c]| == 1 ==> |st.board[c]| == 1
  {
    var f := Round(st, keys).board;
    ShrinksFacts(f, st.board);
    SolvedCountMonotone(f, st.board);
  }

  /** In a round that stalls without emptying a box, `only_choice` changed nothing. */
  lemma StalledOnlyChoice(st: State, keys: seq<Cell>)
    requires !HasEmpty(Round(st, keys).board)
    requires SolvedCount(Round(st, keys).board) == SolvedCount(st.board)
    ensures Round(st, keys).board == Eliminate(st, keys).board
  {
    var e := Eliminate(st, keys);
    var f := OnlyChoice(e);
    RoundKeepsSolved(st, keys);
    ShrinksFacts(e.board, st.board);
    forall c | 0 <= c < 81
      ensures f.board[c] == e.board[c]
    {
    }
  }

  /** The board of a round that stalls without emptying a box is a fixpoint of
      both rules: no solved box shares its digit with a peer, and no unit has a
      digit whose single place is still undecided. */
  lemma StalledRound(st: State, keys: seq<Cell>)
    requires IsKeyOrder(keys)
    requires !HasEmpty(Round(st, keys).board)
    requires SolvedCount(Round(st, keys).board) == SolvedCount(st.board)
    ensures Consistent(Round(st, keys).board)
    ensures NoHiddenSingle(Round(st, keys).board)
  {
    var e := Eliminate(st, keys);
    var f := Round(st, keys).board;
    StalledOnlyChoice(st, keys);
    OnlyChoiceFixpoint(e);
    RoundKeepsSolved(st, keys);
    forall x: Cell, p | p in Peers(x) && |f[x]| == 1
      ensures f[x][0] !in f[p]
    {
      EliminateClearsPeers(st, keys, x, p);
    }
  }

  /** Python's `reduce_puzzle(values)`, the dictionary's keys visited in the order `keys`. */
  function ReducePuzzle(st: State, keys: seq<Cell>): (r: Reply)
    requires IsKeyOrder(keys)
    ensures st.log <= r.log
    ensures r.result.Some? ==>
      Shrinks(r.result.value, st.board) && !HasEmpty(r.result.value) &&
      Consistent(r.result.value) && NoHiddenSingle(r.result.value)
    ensures HasEmpty(st.board) ==> r.result.None?
    decreases 81 - SolvedCount(st.board)
  {
    var next := Round(st, keys);
    if HasEmpty(next.board) then
      Reply(None, next.log)
    else if SolvedCount(next.board) == SolvedCount(st.board) then
      StalledRound(st, keys);
      Reply(Some(next.board), next.log)
    else
      RoundKeepsSolved(st, keys);
      assert !HasEmpty(st.board) by {
        if HasEmpty(st.board) {
          EmptyStaysEmpty(next.board, st.board);
        }
      }
      var r := ReducePuzzle(next, keys);
      if r.result.Some? then
        ShrinksTrans(r.result.value, next.board, st.board);
        r
      else
        r
  }

  /** A round never removes the digit a valid solution puts in a box. */
  lemma RoundKeepsSolution(st: State, keys: seq<Cell>, sol: seq<char>)
    requires ValidSolution(sol) && Compatible(sol, st.board)
    ensures Compatible(sol, Round(st, keys).board)
  {
    EliminateKeepsSolution(st, keys, sol);
    OnlyChoiceKeepsSolution(Eliminate(st, keys), sol);
  }

  /** `reduce_puzzle` fails only on boards that no valid solution fits, and a
      board it returns still fits every valid solution the input fitted. */
  lemma {:induction false} ReduceKeepsSolution(st: State, keys: seq<Cell>, sol: seq<char>)
    requires IsKeyOrder(keys)
    requires ValidSolution(sol) && Compatible(sol, st.board)
    ensures ReducePuzzle(st, keys).result.Some?
    ensures Compatible(sol, ReducePuzzle(st, keys).result.value)
    decreases 81 - SolvedCount(st.board)
  {
    var next := Round(st, keys);
    RoundKeepsSolution(st, keys, sol);
    CompatibleHasNoEmpty(sol, next.board);
    if SolvedCount(next.board) == SolvedCount(st.board) {
      assert ReducePuzzle(st, keys).result == Some(next.board);
    } else {
      RoundKeepsSolved(st, keys);
      CompatibleHasNoEmpty(sol, st.board);
      ReduceKeepsSolution(next, keys, sol);
      assert ReducePuzzle(st, keys).result == ReducePuzzle(next, keys).result;
    }
  }
}
