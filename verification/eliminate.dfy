/** Python's `eliminate`: one sweep that removes every solved box's digit
    from all of its peers.

    The boxes to sweep are those solved when the sweep starts, taken in the
    board's key order `keys`; each one's digit is re-read when its turn comes,
    so a box emptied earlier in the sweep removes nothing. */
module EliminateRule {
  import opened Topology
  import opened Candidates
  import opened Boards
  import opened Solutions

  /** The inner loop of `eliminate` (solution.py:108-110): delete `digit` from each box of `ps` in turn, through `Assign`. */
  function ElimPeers(st: State, digit: seq<char>, ps: seq<Cell>): (r: State)
    requires |digit| <= 1
    ensures Refines(r, st)
    ensures forall c :: 0 <= c < 81 && c !in ps ==> r.board[c] == st.board[c]
    ensures |digit| == 1 ==> forall c :: c in ps ==> digit[0] !in r.board[c]
    decreases |ps|
  {
    if |ps| == 0 then
      RefinesRefl(st);
      st
    else
      var p := ps[0];
      var value := Strip(st.board[p], digit);
      StripIsSubseq(st.board[p], digit);
      AssignRefines(st, p, value);
      var mid := Assign(st, p, value);
      var r := ElimPeers(mid, digit, ps[1..]);
      RefinesTrans(r, mid, st);
      ShrinksFacts(r.board, mid.board);
      r
  }

  /** The boxes of `keys` that are solved on `b`, in key order. */
  function SolvedBoxes(b: Board, keys: seq<Cell>): (r: seq<Cell>)
    ensures forall x :: x in r <==> x in keys && |b[x]| == 1
    ensures forall i :: 0 <= i < |r| ==> |b[r[i]]| == 1
    ensures |r| <= |keys|
    ensures Distinct(keys) ==> Distinct(r)
  {
    if |keys| == 0 then []
    else if |b[keys[0]]| == 1 then [keys[0]] + SolvedBoxes(b, keys[1..])
    else SolvedBoxes(b, keys[1..])
  }

  /** The outer loop of `eliminate` (solution.py:106-110): for each box of `todo`, read its current value and delete it from every peer. */
  function ElimBoxes(st: State, todo: seq<Cell>): (r: State)
    requires forall i :: 0 <= i < |todo| ==> |st.board[todo[i]]| <= 1
    ensures Refines(r, st)
    decreases |todo|
  {
    if |todo| == 0 then
      RefinesRefl(st);
      st
    else
      var x := todo[0];
      var mid := ElimPeers(st, st.board[x], PeerList(x));
      ShrinksFacts(mid.board, st.board);
      var r := ElimBoxes(mid, todo[1..]);
      RefinesTrans(r, mid, st);
      r
  }

  /** Python's `eliminate(values)`, visiting the dictionary's keys in the order `keys`. */
  function Eliminate(st: State, keys: seq<Cell>): (r: State)
    ensures Refines(r, st)
  {
    ElimBoxes(st, SolvedBoxes(st.board, keys))
  }

  /** A key order lists every box exactly once. */
  predicate IsKeyOrder(keys: seq<Cell>)
  {
    |keys| == 81 && forall c: Cell :: c in keys
  }

  // ---------------------------------------------------------------- what a sweep achieves

  /** After sweeping `todo`, a box of `todo` that is still solved shares its
      digit with none of its peers. */
  lemma {:induction false} ElimBoxesClearsPeers(st: State, todo: seq<Cell>, i: int, p: Cell)
    requires forall j :: 0 <= j < |todo| ==> |st.board[todo[j]]| <= 1
    requires 0 <= i < |todo| && p in Peers(todo[i])
    requires |ElimBoxes(st, todo).board[todo[i]]| == 1
    ensures ElimBoxes(st, todo).board[todo[i]][0] !in ElimBoxes(st, todo).board[p]
    decreases |todo|
  {
    var x := todo[0];
    var mid := ElimPeers(st, st.board[x], PeerList(x));
    ShrinksFacts(mid.board, st.board);
    var r := ElimBoxes(mid, todo[1..]);
    assert r == ElimBoxes(st, todo);
    if i > 0 {
      ElimBoxesClearsPeers(mid, todo[1..], i - 1, p);
    } else {
      SweptBoxStaysClear(st, x, r.board, p);
    }
  }

  /** A box whose digit was swept from its peers, and that is still solved
      after further shrinking, still shares its digit with none of them. */
  lemma SweptBoxStaysClear(st: State, x: Cell, after: Board, p: Cell)
    requires |st.board[x]| <= 1 && p in Peers(x)
    requires Shrinks(after, ElimPeers(st, st.board[x], PeerList(x)).board)
    requires |after[x]| == 1
    ensures after[x][0] !in after[p]
  {
    var mid := ElimPeers(st, st.board[x], PeerList(x));
    ShrinksFacts(after, mid.board);
    assert x !in Peers(x);
    assert mid.board[x] == st.board[x];
    SubseqSameLength(after[x], mid.board[x]);
    assert p in PeerList(x);
  }

  /** After an elimination sweep, a box that was solved before it and is still
      solved after it shares its digit with none of its peers. */
  lemma EliminateClearsPeers(st: State, keys: seq<Cell>, x: Cell, p: Cell)
    requires IsKeyOrder(keys)
    requires |st.board[x]| == 1 && p in Peers(x)
    requires |Eliminate(st, keys).board[x]| == 1
    ensures Eliminate(st, keys).board[x][0] !in Eliminate(st, keys).board[p]
  {
    var todo := SolvedBoxes(st.board, keys);
    assert x in todo;
    var i :| 0 <= i < |todo| && todo[i] == x;
    ElimBoxesClearsPeers(st, todo, i, p);
  }

  // ---------------------------------------------------------------- idempotence

  lemma {:induction false} ElimPeersNoChange(st: State, digit: seq<char>, ps: seq<Cell>)
    requires |digit| <= 1
    requires |digit| == 1 ==> forall c :: c in ps ==> digit[0] !in st.board[c]
    ensures ElimPeers(st, digit, ps).board == st.board
    decreases |ps|
  {
    if |ps| > 0 {
      var p := ps[0];
      if |digit| == 1 {
        RemoveAbsentChar(st.board[p], digit[0]);
      }
      assert st.board[p := Strip(st.board[p], digit)] == st.board;
      ElimPeersNoChange(Assign(st, p, Strip(st.board[p], digit)), digit, ps[1..]);
    }
  }

  lemma {:induction false} ElimBoxesNoChange(st: State, todo: seq<Cell>)
    requires forall i :: 0 <= i < |todo| ==> |st.board[todo[i]]| <= 1
    requires Consistent(st.board)
    ensures ElimBoxes(st, todo).board == st.board
    decreases |todo|
  {
    if |todo| > 0 {
      var x := todo[0];
      ElimPeersNoChange(st, st.board[x], PeerList(x));
      var mid := ElimPeers(st, st.board[x], PeerList(x));
      ElimBoxesNoChange(mid, todo[1..]);
    }
  }

  /** In a sweep that changes nothing, the first box's pass changed nothing either. */
  lemma ElimBoxesUnchangedHead(st: State, todo: seq<Cell>)
    requires forall j :: 0 <= j < |todo| ==> |st.board[todo[j]]| <= 1
    requires |todo| > 0 && ElimBoxes(st, todo).board == st.board
    ensures ElimPeers(st, st.board[todo[0]], PeerList(todo[0])).board == st.board
    ensures ElimBoxes(ElimPeers(st, st.board[todo[0]], PeerList(todo[0])), todo[1..]).board == st.board
  {
    var x := todo[0];
    var mid := ElimPeers(st, st.board[x], PeerList(x));
    ShrinksFacts(mid.board, st.board);
    var r := ElimBoxes(mid, todo[1..]);
    assert r == ElimBoxes(st, todo);
    ShrinksSandwich(r.board, mid.board, st.board);
  }

  /** A pass over the peers `ps` that changes nothing found the digit already absent from them. */
  lemma ElimPeersUnchanged(st: State, digit: seq<char>, ps: seq<Cell>, p: Cell)
    requires |digit| == 1 && p in ps
    requires ElimPeers(st, digit, ps).board == st.board
    ensures digit[0] !in st.board[p]
  {
  }

  /** A sweep that changes nothing found every digit it swept already absent
      from the peers. */
  lemma {:induction false} ElimBoxesUnchanged(st: State, todo: seq<Cell>, i: int, p: Cell)
    requires forall j :: 0 <= j < |todo| ==> |st.board[todo[j]]| <= 1
    requires ElimBoxes(st, todo).board == st.board
    requires 0 <= i < |todo| && p in PeerList(todo[i]) && |st.board[todo[i]]| == 1
    ensures st.board[todo[i]][0] !in st.board[p]
    decreases |todo|
  {
    var x := todo[0];
    if i > 0 {
      ElimBoxesUnchangedHead(st, todo);
      var mid := ElimPeers(st, st.board[x], PeerList(x));
      assert todo[1..][i - 1] == todo[i];
      ElimBoxesUnchanged(mid, todo[1..], i - 1, p);
    } else {
      ElimBoxesUnchangedHead(st, todo);
      ElimPeersUnchanged(st, st.board[x], PeerList(x), p);
    }
  }

  /** A sweep leaves the board unchanged (only the log may grow) exactly when
      no solved box shares its digit with a peer. */
  lemma EliminateFixpoint(st: State, keys: seq<Cell>)
    requires IsKeyOrder(keys)
    ensures Eliminate(st, keys).board == st.board <==> Consistent(st.board)
  {
    var todo := SolvedBoxes(st.board, keys);
    if Consistent(st.board) {
      ElimBoxesNoChange(st, todo);
    }
    if Eliminate(st, keys).board == st.board {
      forall x: Cell, p | p in Peers(x) && |st.board[x]| == 1
        ensures st.board[x][0] !in st.board[p]
      {
        assert x in todo;
        var i :| 0 <= i < |todo| && todo[i] == x;
        assert p in PeerList(x);
        ElimBoxesUnchanged(st, todo, i, p);
      }
    }
  }

  // ---------------------------------------------------------------- what a sweep removes

  /** A listed peer loses the digit and keeps every other character it held, as `replace(digit, '')` does; listing a peer twice changes nothing more. */
  lemma {:induction false} ElimPeersContents(st: State, digit: seq<char>, ps: seq<Cell>, c: Cell, ch: char)
    requires |digit| <= 1 && c in ps
    ensures ch in ElimPeers(st, digit, ps).board[c] <==> ch in st.board[c] && ch !in digit
    decreases |ps|
  {
    var p := ps[0];
    var mid := Assign(st, p, Strip(st.board[p], digit));
    if p == c {
      StripContents(st.board[c], digit, ch);
      if c in ps[1..] {
        ElimPeersContents(mid, digit, ps[1..], c, ch);
      }
    } else {
      assert c in ps[1..];
      ElimPeersContents(mid, digit, ps[1..], c, ch);
    }
  }

  /** A character the inner loop removes from a box is the digit being eliminated, and the box is one of the listed peers. */
  lemma ElimPeersOnlyDigit(st: State, digit: seq<char>, ps: seq<Cell>, c: Cell, ch: char)
    requires |digit| <= 1
    requires ch in st.board[c] && ch !in ElimPeers(st, digit, ps).board[c]
    ensures c in ps && digit == [ch]
  {
    if c in ps {
      ElimPeersContents(st, digit, ps, c, ch);
    }
  }

  /** A box still solved with `ch` after shrinking was solved with `ch` before, when it held at most one candidate. */
  lemma SolvedBefore(after: Board, before: Board, y: Cell, ch: char)
    requires Shrinks(after, before) && after[y] == [ch] && |before[y]| <= 1
    ensures before[y] == [ch]
  {
    ShrinksFacts(after, before);
    assert ch in after[y];
    assert before[y][0] in before[y];
  }

  /** A character the outer loop removes from a box is the value, at the start, of a swept box of which it is a peer. */
  lemma {:induction false} ElimBoxesOnlyPeerDigits(st: State, todo: seq<Cell>, c: Cell, ch: char)
    requires forall i :: 0 <= i < |todo| ==> |st.board[todo[i]]| <= 1
    requires ch in st.board[c] && ch !in ElimBoxes(st, todo).board[c]
    ensures exists i :: 0 <= i < |todo| && c in PeerList(todo[i]) && st.board[todo[i]] == [ch]
    decreases |todo|
  {
    var x := todo[0];
    var mid := ElimPeers(st, st.board[x], PeerList(x));
    if ch !in mid.board[c] {
      ElimPeersOnlyDigit(st, st.board[x], PeerList(x), c, ch);
    } else {
      var rest := todo[1..];
      assert forall i :: 0 <= i < |rest| ==> |mid.board[rest[i]]| <= 1 by {
        ShrinksFacts(mid.board, st.board);
      }
      assert ElimBoxes(st, todo) == ElimBoxes(mid, rest);
      ElimBoxesOnlyPeerDigits(mid, rest, c, ch);
      var i :| 0 <= i < |rest| && c in PeerList(rest[i]) && mid.board[rest[i]] == [ch];
      assert rest[i] == todo[i + 1];
      SolvedBefore(mid.board, st.board, rest[i], ch);
    }
  }

  /** `eliminate` deletes a candidate from a box only when, at the start, some peer of that box was solved with that digit; with `EliminateClearsPeers` this pins the sweep down from both sides. */
  lemma EliminateOnlyPeerDigits(st: State, keys: seq<Cell>, c: Cell, ch: char)
    requires ch in st.board[c] && ch !in Eliminate(st, keys).board[c]
    ensures exists x :: x in Peers(c) && st.board[x] == [ch]
  {
    var todo := SolvedBoxes(st.board, keys);
    ElimBoxesOnlyPeerDigits(st, todo, c, ch);
    var i :| 0 <= i < |todo| && c in PeerList(todo[i]) && st.board[todo[i]] == [ch];
    var x := todo[i];
    PeersSymmetric(c, x);
    assert x in Peers(c);
  }

  // ---------------------------------------------------------------- soundness

  lemma {:induction false} ElimPeersKeepsSolution(st: State, digit: seq<char>, ps: seq<Cell>, sol: seq<char>)
    requires |digit| <= 1 && Compatible(sol, st.board)
    requires |digit| == 1 ==> forall c :: c in ps ==> sol[c] != digit[0]
    ensures Compatible(sol, ElimPeers(st, digit, ps).board)
    decreases |ps|
  {
    if |ps| > 0 {
      var p := ps[0];
      ElimPeersKeepsSolution(Assign(st, p, Strip(st.board[p], digit)), digit, ps[1..], sol);
    }
  }

  lemma {:induction false} ElimBoxesKeepsSolution(st: State, todo: seq<Cell>, sol: seq<char>)
    requires forall i :: 0 <= i < |todo| ==> |st.board[todo[i]]| <= 1
    requires ValidSolution(sol) && Compatible(sol, st.board)
    ensures Compatible(sol, ElimBoxes(st, todo).board)
    decreases |todo|
  {
    if |todo| > 0 {
      var x := todo[0];
      var digit := st.board[x];
      assert |digit| == 1 && digit[0] == sol[x] by {
        assert sol[x] in digit;
      }
      forall c | c in PeerList(x)
        ensures sol[c] != digit[0]
      {
        SolutionPeersDiffer(sol, x, c);
      }
      ElimPeersKeepsSolution(st, digit, PeerList(x), sol);
      var mid := ElimPeers(st, digit, PeerList(x));
      ShrinksFacts(mid.board, st.board);
      ElimBoxesKeepsSolution(mid, todo[1..], sol);
    }
  }

  /** Elimination never removes the digit a valid solution puts in a box. */
  lemma EliminateKeepsSolution(st: State, keys: seq<Cell>, sol: seq<char>)
    requires ValidSolution(sol) && Compatible(sol, st.board)
    ensures Compatible(sol, Eliminate(st, keys).board)
  {
    ElimBoxesKeepsSolution(st, SolvedBoxes(st.board, keys), sol);
  }
}
