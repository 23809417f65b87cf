/** Python's `only_choice`: for every unit and every digit, when exactly one
    box of the unit can still hold the digit, the box is set to that digit.

    The places of a digit are recomputed on the current board before every
    (unit, digit) step, so earlier steps of the sweep are seen by later ones. */
module OnlyChoiceRule {
  import opened Topology
  import opened Candidates
  import opened Boards
  import opened Solutions

  /** The boxes of `u` that still hold `d`, in unit order (solution.py:123). */
  function Places(b: Board, u: seq<Cell>, d: char): (r: seq<Cell>)
    ensures forall x :: x in r <==> x in u && d in b[x]
  {
    if |u| == 0 then []
    else if d in b[u[0]] then [u[0]] + Places(b, u[1..], d)
    else Places(b, u[1..], d)
  }

  /** `x` is the one box of `u` where `d` still fits. */
  predicate OnlyPlace(b: Board, u: seq<Cell>, d: char, x: Cell)
  {
    x in u && d in b[x] && forall y :: y in u && d in b[y] ==> y == x
  }

  /** In a unit without repeated boxes, a digit with a single place has a
      one-element place list. */
  lemma {:induction false} PlacesOfOnlyPlace(b: Board, u: seq<Cell>, d: char, x: Cell)
    requires Distinct(u)
    requires OnlyPlace(b, u, d, x)
    ensures Places(b, u, d) == [x]
    decreases |u|
  {
    var rest := Places(b, u[1..], d);
    if u[0] == x {
      assert x !in u[1..];
      if |rest| > 0 {
        assert rest[0] in rest;
      }
    } else {
      PlacesOfOnlyPlace(b, u[1..], d, x);
    }
  }

  /** One step for unit `k` and digit `d` (solution.py:123-127): when exactly one box of the unit can hold `d`, assign `d` to it. */
  function Step(st: State, k: int, d: char): (r: State)
    requires 0 <= k < 29
    ensures forall x: Cell :: OnlyPlace(st.board, Unitlist()[k], d, x) ==>
      r.board == st.board[x := [d]] && r.log == st.log + [r.board]
    ensures (forall x: Cell :: !OnlyPlace(st.board, Unitlist()[k], d, x)) ==> r == st
  {
    var places := Places(st.board, Unitlist()[k], d);
    if |places| == 1 then
      assert places[0] in places;
      assert OnlyPlace(st.board, Unitlist()[k], d, places[0]);
      Assign(st, places[0], [d])
    else
      assert forall x: Cell :: OnlyPlace(st.board, Unitlist()[k], d, x) ==> places == [x] by {
        forall x: Cell | OnlyPlace(st.board, Unitlist()[k], d, x) {
          PlacesOfOnlyPlace(st.board, Unitlist()[k], d, x);
        }
      }
      st
  }

  /** Every box that changed went from several candidates to one of them. */
  predicate OnlyFills(after: Board, before: Board)
  {
    forall c :: 0 <= c < 81 && after[c] != before[c] ==>
      |before[c]| > 1 && |after[c]| == 1 && after[c][0] in before[c]
  }

  lemma OnlyFillsTrans(a: Board, m: Board, b: Board)
    requires OnlyFills(a, m) && OnlyFills(m, b)
    ensures OnlyFills(a, b)
  {
  }

  lemma StepFills(st: State, k: int, d: char)
    requires 0 <= k < 29
    ensures Refines(Step(st, k, d), st)
    ensures OnlyFills(Step(st, k, d).board, st.board)
  {
    var b := st.board;
    if x: Cell :| OnlyPlace(b, Unitlist()[k], d, x) {
      SingletonSubseq(d, b[x]);
      AssignRefines(st, x, [d]);
    } else {
      RefinesRefl(st);
    }
  }

  /** The steps of one unit for the digits `ds`, in order (solution.py:121-127). */
  function StepDigits(st: State, k: int, ds: seq<char>): (r: State)
    requires 0 <= k < 29
    ensures Refines(r, st)
    ensures OnlyFills(r.board, st.board)
    decreases |ds|
  {
    if |ds| == 0 then
      RefinesRefl(st);
      st
    else
      var mid := Step(st, k, ds[0]);
      StepFills(st, k, ds[0]);
      var r := StepDigits(mid, k, ds[1..]);
      RefinesTrans(r, mid, st);
      OnlyFillsTrans(r.board, mid.board, st.board);
      r
  }

  /** The steps of the units from `k` on, each for all nine digits (solution.py:120-127). */
  function StepUnits(st: State, k: nat): (r: State)
    requires k <= 29
    ensures Refines(r, st)
    ensures OnlyFills(r.board, st.board)
    decreases 29 - k
  {
    if k == 29 then
      RefinesRefl(st);
      st
    else
      var mid := StepDigits(st, k, Digits);
      var r := StepUnits(mid, k + 1);
      RefinesTrans(r, mid, st);
      OnlyFillsTrans(r.board, mid.board, st.board);
      r
  }

  /** Python's `only_choice(values)`. */
  function OnlyChoice(st: State): (r: State)
    ensures Refines(r, st)
    ensures OnlyFills(r.board, st.board)
  {
    StepUnits(st, 0)
  }

  // ---------------------------------------------------------------- fixpoint

  /** No unit has a digit whose single place is still undecided. */
  ghost predicate NoHiddenSingle(b: Board)
  {
    forall k, d, x: Cell :: 0 <= k < 29 && d in Digits && OnlyPlace(b, Unitlist()[k], d, x) ==> b[x] == [d]
  }

  /** Every single place of the digits `ds` in unit `k` is already decided. */
  ghost predicate SinglesDecided(b: Board, k: int, ds: seq<char>)
    requires 0 <= k < 29
  {
    forall d, x: Cell :: d in ds && OnlyPlace(b, Unitlist()[k], d, x) ==> b[x] == [d]
  }

  /** The same for every digit of the units `k ..` of `unitlist`. */
  ghost predicate SinglesDecidedFrom(b: Board, k: nat)
    requires k <= 29
  {
    forall j :: k <= j < 29 ==> SinglesDecided(b, j, Digits)
  }

  lemma {:induction false} StepDigitsFixpoint(st: State, k: int, ds: seq<char>)
    requires 0 <= k < 29
    ensures StepDigits(st, k, ds).board == st.board <==> SinglesDecided(st.board, k, ds)
    decreases |ds|
  {
    if |ds| > 0 {
      var b := st.board;
      var mid := Step(st, k, ds[0]);
      var r := StepDigits(mid, k, ds[1..]);
      StepDigitsFixpoint(mid, k, ds[1..]);
      StepFills(st, k, ds[0]);
      if r.board == b {
        ShrinksSandwich(r.board, mid.board, b);
      } else if mid.board == b {
        // the remaining digits found an undecided single place on `b`
      } else {
        var x: Cell :| OnlyPlace(b, Unitlist()[k], ds[0], x);
        assert b[x] != [ds[0]];
      }
    }
  }

  lemma SinglesDecidedFromStep(b: Board, k: nat)
    requires k < 29
    ensures SinglesDecidedFrom(b, k) <==> SinglesDecided(b, k, Digits) && SinglesDecidedFrom(b, k + 1)
  {
  }

  lemma {:induction false} StepUnitsFixpoint(st: State, k: nat)
    requires k <= 29
    ensures StepUnits(st, k).board == st.board <==> SinglesDecidedFrom(st.board, k)
    decreases 29 - k
  {
    if k < 29 {
      var b := st.board;
      var mid := StepDigits(st, k, Digits);
      var r := StepUnits(mid, k + 1);
      assert r == StepUnits(st, k);
      StepUnitsFixpoint(mid, k + 1);
      StepDigitsFixpoint(st, k, Digits);
      SinglesDecidedFromStep(b, k);
      if r.board == b {
        ShrinksSandwich(r.board, mid.board, b);
      } else if mid.board == b {
        assert !SinglesDecidedFrom(b, k + 1);
      } else {
        assert !SinglesDecided(b, k, Digits);
      }
    }
  }

  /** `only_choice` leaves a board unchanged exactly when no unit has a digit
      with a single, still undecided, place. */
  lemma OnlyChoiceFixpoint(st: State)
    ensures OnlyChoice(st).board == st.board <==> NoHiddenSingle(st.board)
  {
    StepUnitsFixpoint(st, 0);
    DecidedEverywhere(st.board);
  }

  /** Every unit deciding its single places is the same as no hidden single. */
  lemma DecidedEverywhere(b: Board)
    ensures SinglesDecidedFrom(b, 0) <==> NoHiddenSingle(b)
  {
    if SinglesDecidedFrom(b, 0) {
      forall k, d, x: Cell | 0 <= k < 29 && d in Digits && OnlyPlace(b, Unitlist()[k], d, x)
        ensures b[x] == [d]
      {
        assert SinglesDecided(b, k, Digits);
      }
    }
  }

  // ---------------------------------------------------------------- soundness

  lemma StepKeepsSolution(st: State, k: int, d: char, sol: seq<char>)
    requires 0 <= k < 29 && d in Digits
    requires ValidSolution(sol) && Compatible(sol, st.board)
    ensures Compatible(sol, Step(st, k, d).board)
  {
    var u := Unitlist()[k];
    if x: Cell :| OnlyPlace(st.board, u, d, x) {
      SolutionUnitHasDigit(sol, k, d);
      var i :| 0 <= i < 9 && sol[u[i]] == d;
      assert u[i] == x;
    }
  }

  lemma {:induction false} StepDigitsKeepsSolution(st: State, k: int, ds: seq<char>, sol: seq<char>)
    requires 0 <= k < 29 && forall d :: d in ds ==> d in Digits
    requires ValidSolution(sol) && Compatible(sol, st.board)
    ensures Compatible(sol, StepDigits(st, k, ds).board)
    decreases |ds|
  {
    if |ds| > 0 {
      StepKeepsSolution(st, k, ds[0], sol);
      StepDigitsKeepsSolution(Step(st, k, ds[0]), k, ds[1..], sol);
    }
  }

  lemma {:induction false} StepUnitsKeepsSolution(st: State, k: nat, sol: seq<char>)
    requires k <= 29
    requires ValidSolution(sol) && Compatible(sol, st.board)
    ensures Compatible(sol, StepUnits(st, k).board)
    decreases 29 - k
  {
    if k < 29 {
      StepDigitsKeepsSolution(st, k, Digits, sol);
      StepUnitsKeepsSolution(StepDigits(st, k, Digits), k + 1, sol);
    }
  }

  /** `only_choice` never removes the digit a valid solution puts in a box. */
  lemma OnlyChoiceKeepsSolution(st: State, sol: seq<char>)
    requires ValidSolution(sol) && Compatible(sol, st.board)
    ensures Compatible(sol, OnlyChoice(st).board)
  {
    StepUnitsKeepsSolution(st, 0, sol);
  }
}
