/** Python's `naked_twins`: when two boxes of a unit hold the same value, the
    characters of that value are deleted from every other box of the unit.

    For each unit the boxes with exactly two candidates are listed once, when
    the unit's turn comes; each pair of the list is then compared on the
    current board, in the order `(L[0], L[1]), (L[0], L[2]), ..., (L[1], L[2]), ...`. */
module NakedTwinsRule {
  import opened Topology
  import opened Candidates
  import opened Boards
  import opened Solutions

  /** The boxes of `u` with exactly two candidates, in unit order (solution.py:28). */
  function TwoOptionBoxes(b: Board, u: seq<Cell>): (r: seq<Cell>)
    ensures forall x :: x in r <==> x in u && |b[x]| == 2
    ensures Distinct(u) ==> Distinct(r)
  {
    if |u| == 0 then []
    else if |b[u[0]]| == 2 then
      var rest := TwoOptionBoxes(b, u[1..]);
      assert Distinct(u) ==> u[0] !in u[1..];
      [u[0]] + rest
    else TwoOptionBoxes(b, u[1..])
  }

  /** Delete each character of `ds` from box `c`, one assignment per character (solution.py:42-44). */
  function RemoveDigits(st: State, c: Cell, ds: seq<char>): (r: State)
    ensures Refines(r, st)
    ensures forall e :: 0 <= e < 81 && e != c ==> r.board[e] == st.board[e]
    ensures forall ch :: ch in r.board[c] <==> ch in st.board[c] && ch !in ds
    decreases |ds|
  {
    if |ds| == 0 then
      RefinesRefl(st);
      st
    else
      var value := RemoveChar(st.board[c], ds[0]);
      RemoveCharIsSubseq(st.board[c], ds[0]);
      AssignRefines(st, c, value);
      var mid := Assign(st, c, value);
      var r := RemoveDigits(mid, c, ds[1..]);
      RefinesTrans(r, mid, st);
      r
  }

  /** Every box of `u` other than `x` and `y` lost exactly the characters of `x`'s value. */
  predicate Cleared(after: Board, before: Board, u: seq<Cell>, x: Cell, y: Cell)
  {
    forall c, ch :: c in u && c != x && c != y ==>
      (ch in after[c] <==> ch in before[c] && ch !in before[x])
  }

  lemma ClearedAt(after: Board, before: Board, u: seq<Cell>, x: Cell, y: Cell, c: Cell, ch: char)
    requires Cleared(after, before, u, x, y) && c in u && c != x && c != y
    ensures ch in after[c] <==> ch in before[c] && ch !in before[x]
  {
  }

  /** Skipping a twin at the head of `u` clears nothing the tail does not. */
  lemma ClearedTail(after: Board, before: Board, u: seq<Cell>, x: Cell, y: Cell)
    requires |u| > 0 && (u[0] == x || u[0] == y)
    requires Cleared(after, before, u[1..], x, y)
    ensures Cleared(after, before, u, x, y)
  {
    forall c, ch | c in u && c != x && c != y
      ensures ch in after[c] <==> ch in before[c] && ch !in before[x]
    {
      assert c in u[1..];
    }
  }

  /** Clearing the head of `u` and then the tail clears all of `u`. */
  lemma ClearedStep(after: Board, mid: Board, before: Board, u: seq<Cell>, x: Cell, y: Cell)
    requires |u| > 0 && u[0] != x && u[0] != y && mid[x] == before[x]
    requires forall ch :: ch in mid[u[0]] <==> ch in before[u[0]] && ch !in before[x]
    requires forall e :: 0 <= e < 81 && e != u[0] ==> mid[e] == before[e]
    requires forall e :: 0 <= e < 81 && (e !in u[1..] || e == x || e == y) ==> after[e] == mid[e]
    requires Cleared(after, mid, u[1..], x, y)
    ensures Cleared(after, before, u, x, y)
  {
    forall c, ch | c in u && c != x && c != y
      ensures ch in after[c] <==> ch in before[c] && ch !in before[x]
    {
      if c in u[1..] {
        assert ch in after[c] <==> ch in mid[c] && ch !in mid[x];
        if c == u[0] {
          assert ch in mid[c] <==> ch in before[c] && ch !in before[x];
        } else {
          assert mid[c] == before[c];
        }
      } else {
        assert c == u[0] && after[c] == mid[c];
      }
    }
  }

  /** Delete the value of `x` from every box of the unit except `x` and `y`
      (solution.py:39-44). The value of `x` is read afresh for every box, and no
      cleared box is `x`, so it never changes. */
  function ClearOthers(st: State, u: seq<Cell>, x: Cell, y: Cell): (r: State)
    ensures Refines(r, st)
    ensures forall c :: 0 <= c < 81 && (c !in u || c == x || c == y) ==> r.board[c] == st.board[c]
    ensures Cleared(r.board, st.board, u, x, y)
    decreases |u|
  {
    if |u| == 0 then
      RefinesRefl(st);
      st
    else if u[0] == x || u[0] == y then
      var r := ClearOthers(st, u[1..], x, y);
      ClearedTail(r.board, st.board, u, x, y);
      r
    else
      var mid := RemoveDigits(st, u[0], st.board[x]);
      var r := ClearOthers(mid, u[1..], x, y);
      RefinesTrans(r, mid, st);
      ClearedStep(r.board, mid.board, st.board, u, x, y);
      r
  }

  /** Compare the current values of `x` and `y`; when they are equal, clear that value from the rest of the unit (solution.py:34-44). */
  function TwinPair(st: State, u: seq<Cell>, x: Cell, y: Cell): (r: State)
    ensures Refines(r, st)
    ensures forall c :: 0 <= c < 81 && (c !in u || c == x || c == y) ==> r.board[c] == st.board[c]
    ensures st.board[x] == st.board[y] ==> Cleared(r.board, st.board, u, x, y)
    ensures st.board[x] != st.board[y] ==> r == st
  {
    if st.board[x] == st.board[y] then ClearOthers(st, u, x, y)
    else
      RefinesRefl(st);
      st
  }

  /** The inner pair loop (solution.py:33-44): `x` against each later two-candidate box of `alts`. */
  function TwinAlts(st: State, u: seq<Cell>, x: Cell, alts: seq<Cell>): (r: State)
    ensures Refines(r, st)
    ensures forall c :: 0 <= c < 81 && c !in u ==> r.board[c] == st.board[c]
    decreases |alts|
  {
    if |alts| == 0 then
      RefinesRefl(st);
      st
    else
      var mid := TwinPair(st, u, x, alts[0]);
      var r := TwinAlts(mid, u, x, alts[1..]);
      RefinesTrans(r, mid, st);
      r
  }

  /** The outer pair loop (solution.py:30-44): every box of `boxes` against the boxes after it. */
  function TwinPairs(st: State, u: seq<Cell>, boxes: seq<Cell>): (r: State)
    ensures Refines(r, st)
    ensures forall c :: 0 <= c < 81 && c !in u ==> r.board[c] == st.board[c]
    decreases |boxes|
  {
    if |boxes| == 0 then
      RefinesRefl(st);
      st
    else
      var mid := TwinAlts(st, u, boxes[0], boxes[1..]);
      var r := TwinPairs(mid, u, boxes[1..]);
      RefinesTrans(r, mid, st);
      r
  }

  /** The pass of `naked_twins` over unit `k` (solution.py:26-44). */
  function TwinUnit(st: State, k: int): (r: State)
    requires 0 <= k < 29
    ensures Refines(r, st)
    ensures forall c :: 0 <= c < 81 && c !in Unitlist()[k] ==> r.board[c] == st.board[c]
  {
    var u := Unitlist()[k];
    TwinPairs(st, u, TwoOptionBoxes(st.board, u))
  }

  function TwinUnits(st: State, k: nat): (r: State)
    requires k <= 29
    ensures Refines(r, st)
    decreases 29 - k
  {
    if k == 29 then
      RefinesRefl(st);
      st
    else
      var mid := TwinUnit(st, k);
      var r := TwinUnits(mid, k + 1);
      RefinesTrans(r, mid, st);
      r
  }

  /** Python's `naked_twins(values)`. */
  function NakedTwins(st: State): (r: State)
    ensures Refines(r, st)
  {
    TwinUnits(st, 0)
  }

  // ---------------------------------------------------------------- what the twins clear

  lemma {:induction false} TwinAltsClears(st: State, u: seq<Cell>, x: Cell, alts: seq<Cell>, y: Cell, c: Cell)
    requires y in alts && x != y && c in u && c != x && c != y
    requires st.board[x] == st.board[y]
    requires TwinAlts(st, u, x, alts).board[x] == st.board[x]
    requires TwinAlts(st, u, x, alts).board[y] == st.board[y]
    ensures forall ch :: ch in st.board[x] ==> ch !in TwinAlts(st, u, x, alts).board[c]
    decreases |alts|
  {
    var mid := TwinPair(st, u, x, alts[0]);
    var r := TwinAlts(mid, u, x, alts[1..]);
    BoxSandwich(r.board, mid.board, st.board, x);
    BoxSandwich(r.board, mid.board, st.board, y);
    if alts[0] == y {
      ShrinksFacts(r.board, mid.board);
    } else {
      TwinAltsClears(mid, u, x, alts[1..], y, c);
    }
  }

  lemma {:induction false} TwinPairsClears(st: State, u: seq<Cell>, boxes: seq<Cell>, x: Cell, y: Cell, c: Cell)
    requires x in boxes && y in boxes && x != y && c in u && c != x && c != y
    requires st.board[x] == st.board[y]
    requires TwinPairs(st, u, boxes).board[x] == st.board[x]
    requires TwinPairs(st, u, boxes).board[y] == st.board[y]
    ensures forall ch :: ch in st.board[x] ==> ch !in TwinPairs(st, u, boxes).board[c]
    decreases |boxes|
  {
    var mid := TwinAlts(st, u, boxes[0], boxes[1..]);
    var r := TwinPairs(mid, u, boxes[1..]);
    BoxSandwich(r.board, mid.board, st.board, x);
    BoxSandwich(r.board, mid.board, st.board, y);
    ShrinksFacts(r.board, mid.board);
    if boxes[0] == x {
      TwinAltsClears(st, u, x, boxes[1..], y, c);
    } else if boxes[0] == y {
      TwinAltsClears(st, u, y, boxes[1..], x, c);
    } else {
      TwinPairsClears(mid, u, boxes[1..], x, y, c);
    }
  }

  /** Two boxes of a unit holding the same two candidates when the unit's turn
      comes, and still holding them after it, leave neither candidate in any
      other box of the unit. */
  lemma NakedTwinsClearUnit(st: State, k: int, x: Cell, y: Cell, c: Cell)
    requires 0 <= k < 29
    requires x in Unitlist()[k] && y in Unitlist()[k] && c in Unitlist()[k]
    requires x != y && c != x && c != y
    requires |st.board[x]| == 2 && st.board[x] == st.board[y]
    requires TwinUnit(st, k).board[x] == st.board[x] && TwinUnit(st, k).board[y] == st.board[y]
    ensures st.board[x][0] !in TwinUnit(st, k).board[c]
    ensures st.board[x][1] !in TwinUnit(st, k).board[c]
  {
    var u := Unitlist()[k];
    TwinPairsClears(st, u, TwoOptionBoxes(st.board, u), x, y, c);
  }

  lemma HeadIsMember(s: seq<char>)
    requires |s| > 0
    ensures s[0] in s
  {
  }

  /** The clearing reaches boxes that are already solved: a solved box holding
      one of the twins' digits is left empty. */
  lemma TwinPairEmptiesSolvedBox(st: State, u: seq<Cell>, x: Cell, y: Cell, c: Cell)
    requires st.board[x] == st.board[y] && |st.board[x]| == 2
    requires c in u && c != x && c != y && st.board[c] == [st.board[x][0]]
    ensures TwinPair(st, u, x, y).board[c] == []
  {
    var r := TwinPair(st, u, x, y);
    HeadIsMember(st.board[x]);
    if |r.board[c]| > 0 {
      HeadIsMember(r.board[c]);
      ClearedAt(r.board, st.board, u, x, y, c, r.board[c][0]);
      assert false;
    }
  }

  // ---------------------------------------------------------------- soundness

  /** Two different members of a string of at most two characters are all of it. */
  lemma TwoOfTwo(v: seq<char>, a: char, b: char, ch: char)
    requires |v| <= 2 && a in v && b in v && a != b && ch in v
    ensures ch == a || ch == b
  {
    assert v == [v[0], v[1]];
  }

  /** Two different boxes of a unit that share a value of at most two
      candidates hold, between them, both digits a valid solution puts there. */
  lemma TwinDigitsAreTheirs(sol: seq<char>, b: Board, k: int, x: Cell, y: Cell, ch: char)
    requires 0 <= k < 29 && x in Unitlist()[k] && y in Unitlist()[k] && x != y
    requires ValidSolution(sol) && Compatible(sol, b)
    requires b[x] == b[y] && |b[x]| <= 2 && ch in b[x]
    ensures ch == sol[x] || ch == sol[y]
  {
    PeersAreUnitMates(x, y);
    SolutionPeersDiffer(sol, x, y);
    TwoOfTwo(b[x], sol[x], sol[y], ch);
  }

  lemma TwinPairKeepsSolution(st: State, k: int, x: Cell, y: Cell, sol: seq<char>)
    requires 0 <= k < 29 && x in Unitlist()[k] && y in Unitlist()[k] && x != y
    requires |st.board[x]| <= 2
    requires ValidSolution(sol) && Compatible(sol, st.board)
    ensures Compatible(sol, TwinPair(st, Unitlist()[k], x, y).board)
  {
    var u := Unitlist()[k];
    var r := TwinPair(st, u, x, y);
    if st.board[x] == st.board[y] {
      forall c | 0 <= c < 81
        ensures sol[c] in r.board[c]
      {
        if c in u && c != x && c != y {
          TwinDigitNotOthers(st.board, k, x, y, c, sol);
        }
      }
    }
  }

  /** A third box of the unit never needs a digit of the twins. */
  lemma TwinDigitNotOthers(b: Board, k: int, x: Cell, y: Cell, c: Cell, sol: seq<char>)
    requires 0 <= k < 29 && x in Unitlist()[k] && y in Unitlist()[k] && c in Unitlist()[k]
    requires x != y && c != x && c != y && |b[x]| <= 2 && b[x] == b[y]
    requires ValidSolution(sol) && Compatible(sol, b)
    ensures sol[c] !in b[x]
  {
    PeersAreUnitMates(x, c);
    PeersAreUnitMates(y, c);
    SolutionPeersDiffer(sol, c, x);
    SolutionPeersDiffer(sol, c, y);
    if sol[c] in b[x] {
      TwinDigitsAreTheirs(sol, b, k, x, y, sol[c]);
    }
  }

  lemma {:induction false} TwinAltsKeepsSolution(st: State, k: int, x: Cell, alts: seq<Cell>, sol: seq<char>)
    requires 0 <= k < 29 && x in Unitlist()[k] && x !in alts
    requires forall a :: a in alts ==> a in Unitlist()[k]
    requires |st.board[x]| <= 2
    requires ValidSolution(sol) && Compatible(sol, st.board)
    ensures Compatible(sol, TwinAlts(st, Unitlist()[k], x, alts).board)
    decreases |alts|
  {
    if |alts| > 0 {
      var u := Unitlist()[k];
      TwinPairKeepsSolution(st, k, x, alts[0], sol);
      var mid := TwinPair(st, u, x, alts[0]);
      ShrinksFacts(mid.board, st.board);
      TwinAltsKeepsSolution(mid, k, x, alts[1..], sol);
    }
  }

  lemma {:induction false} TwinPairsKeepsSolution(st: State, k: int, boxes: seq<Cell>, sol: seq<char>)
    requires 0 <= k < 29 && Distinct(boxes)
    requires forall a :: a in boxes ==> a in Unitlist()[k] && |st.board[a]| <= 2
    requires ValidSolution(sol) && Compatible(sol, st.board)
    ensures Compatible(sol, TwinPairs(st, Unitlist()[k], boxes).board)
    decreases |boxes|
  {
    if |boxes| > 0 {
      var u := Unitlist()[k];
      assert boxes[0] !in boxes[1..];
      TwinAltsKeepsSolution(st, k, boxes[0], boxes[1..], sol);
      var mid := TwinAlts(st, u, boxes[0], boxes[1..]);
      ShrinksFacts(mid.board, st.board);
      TwinPairsKeepsSolution(mid, k, boxes[1..], sol);
    }
  }

  lemma {:induction false} TwinUnitsKeepsSolution(st: State, k: nat, sol: seq<char>)
    requires k <= 29
    requires ValidSolution(sol) && Compatible(sol, st.board)
    ensures Compatible(sol, TwinUnits(st, k).board)
    decreases 29 - k
  {
    if k < 29 {
      var u := Unitlist()[k];
      assert Distinct(u);
      TwinPairsKeepsSolution(st, k, TwoOptionBoxes(st.board, u), sol);
      TwinUnitsKeepsSolution(TwinUnit(st, k), k + 1, sol);
    }
  }

  /** The naked-twins rule never removes the digit a valid solution puts in a box. */
  lemma NakedTwinsKeepsSolution(st: State, sol: seq<char>)
    requires ValidSolution(sol) && Compatible(sol, st.board)
    ensures Compatible(sol, NakedTwins(st).board)
  {
    TwinUnitsKeepsSolution(st, 0, sol);
  }
}
