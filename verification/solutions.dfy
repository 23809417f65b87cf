/** What a solved diagonal Sudoku is, and how a board can still admit one.

    A solution is written as a string of 81 characters, one per box. It is
    valid when every one of the 29 units holds each digit 1-9 exactly once. */
module Solutions {
  import opened Topology
  import opened Candidates
  import opened Boards

  /** The nine characters a solution puts in unit `k`, in unit order. */
  function UnitValues(sol: seq<char>, k: int): (vals: seq<char>)
    requires |sol| == 81 && 0 <= k < 29
    ensures |vals| == 9
  {
    seq(9, i requires 0 <= i < 9 => sol[Unitlist()[k][i]])
  }

  /** Every unit is a permutation of the digits 1-9. */
  predicate ValidSolution(sol: seq<char>)
  {
    |sol| == 81 && forall k :: 0 <= k < 29 ==> multiset(UnitValues(sol, k)) == multiset(Digits)
  }

  /** The solution keeps, in every box, one of the box's candidates. */
  predicate Compatible(sol: seq<char>, b: Board)
  {
    |sol| == 81 && forall c :: 0 <= c < 81 ==> sol[c] in b[c]
  }

  /** A board some solution fits has no empty box. */
  lemma CompatibleHasNoEmpty(sol: seq<char>, b: Board)
    requires Compatible(sol, b)
    ensures !HasEmpty(b)
  {
    forall c | 0 <= c < 81
      ensures |b[c]| != 0
    {
      assert sol[c] in b[c];
    }
  }

  /** The solution a complete board spells out. */
  function SolutionOf(b: Board): (sol: seq<char>)
    requires Complete(b)
    ensures |sol| == 81
    ensures forall c :: 0 <= c < 81 ==> b[c] == [sol[c]]
  {
    seq(81, c requires 0 <= c < 81 => b[c][0])
  }

  // ---------------------------------------------------------------- counting lemmas

  lemma {:induction false} DistinctMultiplicity(s: seq<char>, x: char)
    requires Distinct(s)
    ensures multiset(s)[x] == if x in s then 1 else 0
    decreases |s|
  {
    if |s| > 0 {
      assert s == [s[0]] + s[1..];
      DistinctMultiplicity(s[1..], x);
    }
  }

  lemma {:induction false} DistinctCardinality(s: seq<char>)
    requires Distinct(s)
    ensures |set x | x in s| == |s|
    decreases |s|
  {
    if |s| > 0 {
      DistinctCardinality(s[1..]);
      assert (set x | x in s) == {s[0]} + (set x | x in s[1..]);
    }
  }

  lemma SubsetOfSameSize(a: set<char>, b: set<char>)
    requires a <= b && |a| >= |b|
    ensures a == b
  {
    assert b == a + (b - a);
    assert |b| == |a| + |b - a|;
  }

  /** `|ds|` distinct members of a repetition-free `ds` are a permutation of
      `ds`: the pigeonhole step. */
  lemma DistinctMembersArePermutation(vals: seq<char>, ds: seq<char>)
    requires Distinct(ds) && Distinct(vals) && |vals| == |ds|
    requires forall i :: 0 <= i < |vals| ==> vals[i] in ds
    ensures multiset(vals) == multiset(ds)
  {
    DistinctCardinality(vals);
    DistinctCardinality(ds);
    var sv, sd := set x | x in vals, set x | x in ds;
    assert sv <= sd by {
      forall x | x in sv
        ensures x in sd
      {
        var i :| 0 <= i < |vals| && vals[i] == x;
      }
    }
    SubsetOfSameSize(sv, sd);
    forall x
      ensures multiset(vals)[x] == multiset(ds)[x]
    {
      assert x in vals <==> x in sv;
      assert x in ds <==> x in sd;
      DistinctMultiplicity(vals, x);
      DistinctMultiplicity(ds, x);
    }
  }

  /** A permutation of a repetition-free `ds` repeats nothing and misses nothing of `ds`. */
  lemma PermutationIsDistinct(vals: seq<char>, ds: seq<char>)
    requires Distinct(ds) && multiset(vals) == multiset(ds)
    ensures Distinct(vals)
    ensures forall d :: d in ds <==> d in vals
  {
    forall d
      ensures d in ds <==> d in vals
    {
      assert d in vals <==> d in multiset(vals);
      assert d in ds <==> d in multiset(ds);
    }
    forall i, j | 0 <= i < j < |vals|
      ensures vals[i] != vals[j]
    {
      if vals[i] == vals[j] {
        var x := vals[i];
        assert vals == vals[..i] + [x] + vals[i + 1..j] + [x] + vals[j + 1..];
        assert multiset(vals)[x] >= 2;
        DistinctMultiplicity(ds, x);
        assert false;
      }
    }
  }

  lemma DigitsDistinct()
    ensures Distinct(Digits) && |Digits| == 9
  {
    DigitsAreTheDigitChars();
  }

  // ---------------------------------------------------------------- valid solutions

  /** In a valid solution the nine boxes of a unit hold nine different digits. */
  lemma SolutionUnitDistinct(sol: seq<char>, k: int, i: int, j: int)
    requires ValidSolution(sol) && 0 <= k < 29 && 0 <= i < 9 && 0 <= j < 9 && i != j
    ensures sol[Unitlist()[k][i]] != sol[Unitlist()[k][j]]
  {
    var vals := UnitValues(sol, k);
    DigitsDistinct();
    PermutationIsDistinct(vals, Digits);
    if i < j {
      assert vals[i] != vals[j];
    } else {
      assert vals[j] != vals[i];
    }
  }

  /** In a valid solution two peers never hold the same digit. */
  lemma SolutionPeersDiffer(sol: seq<char>, c: Cell, p: Cell)
    requires ValidSolution(sol)
    requires p in Peers(c)
    ensures sol[c] != sol[p]
  {
    PeersAreUnitMates(c, p);
    var k :| 0 <= k < 29 && c in Unitlist()[k] && p in Unitlist()[k];
    var u := Unitlist()[k];
    var i :| 0 <= i < 9 && u[i] == c;
    var j :| 0 <= j < 9 && u[j] == p;
    SolutionUnitDistinct(sol, k, i, j);
  }

  /** In a valid solution every unit holds every digit somewhere. */
  lemma SolutionUnitHasDigit(sol: seq<char>, k: int, d: char)
    requires ValidSolution(sol) && 0 <= k < 29 && d in Digits
    ensures exists i :: 0 <= i < 9 && sol[Unitlist()[k][i]] == d
  {
    var vals := UnitValues(sol, k);
    DigitsDistinct();
    PermutationIsDistinct(vals, Digits);
    var i :| 0 <= i < 9 && vals[i] == d;
  }

  /** A complete board whose peers all differ and whose boxes are all digits
      spells out a valid solution. */
  lemma ConsistentCompleteIsValid(b: Board)
    requires Complete(b) && Consistent(b)
    requires forall c :: 0 <= c < 81 ==> b[c][0] in Digits
    ensures ValidSolution(SolutionOf(b))
  {
    var sol := SolutionOf(b);
    DigitsDistinct();
    forall k | 0 <= k < 29
      ensures multiset(UnitValues(sol, k)) == multiset(Digits)
    {
      var vals := UnitValues(sol, k);
      forall i, j | 0 <= i < j < 9
        ensures vals[i] != vals[j]
      {
        UnitMatesArePeers(k, i, j);
      }
      forall i | 0 <= i < 9
        ensures vals[i] in Digits
      {
        assert vals[i] == b[Unitlist()[k][i]][0];
      }
      DistinctMembersArePermutation(vals, Digits);
    }
  }

  /** Every box of a valid solution holds a digit. */
  lemma SolutionDigits(sol: seq<char>, c: Cell)
    requires ValidSolution(sol)
    ensures sol[c] in Digits
  {
    var k := c / 9;
    UnitMembership(k, c);
    var u := Unitlist()[k];
    var i :| 0 <= i < 9 && u[i] == c;
    var vals := UnitValues(sol, k);
    assert vals[i] == sol[c];
    assert sol[c] in multiset(vals);
  }

  /** A valid solution fits the parsed grid exactly when it agrees with every given. */
  lemma GridValuesCompatible(grid: string, sol: seq<char>)
    requires |grid| == 81 && ValidSolution(sol)
    ensures Compatible(sol, GridValues(grid)) <==>
      forall c :: 0 <= c < 81 && grid[c] != '.' ==> sol[c] == grid[c]
  {
    forall c: Cell
      ensures sol[c] in Digits
    {
      SolutionDigits(sol, c);
    }
  }
}
