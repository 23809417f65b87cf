/** The fixed structure of a diagonal Sudoku: the 81 boxes, the 29 units
    (9 rows, 9 columns, 9 squares, 2 diagonals) and the peers of every box.

    A box is represented by its row-major index: box `c` sits in row `c / 9`
    and column `c % 9`, and its name is `Name(c)` ("A1" is 0, "I9" is 80). */
module Topology {

  type Cell = c: int | 0 <= c < 81

  const Rows: string := "ABCDEFGHI"
  const Cols: string := "123456789"

  /** The candidate alphabet of a box: an unconstrained box holds exactly this string. */
  const Digits: string := "123456789"

  lemma RowCode(i: int)
    requires 0 <= i < 9
    ensures Rows[i] as int == 65 + i
  {
    assert Rows == seq(9, k requires 0 <= k < 9 => (65 + k) as char);
  }

  lemma ColCode(i: int)
    requires 0 <= i < 9
    ensures Cols[i] as int == 49 + i
    ensures Digits[i] == Cols[i]
  {
    assert Cols == seq(9, k requires 0 <= k < 9 => (49 + k) as char);
  }

  predicate IsDigit(ch: char) {
    '1' <= ch <= '9'
  }

  /** The digit alphabet is exactly the characters '1'..'9', each once. */
  lemma DigitsAreTheDigitChars()
    ensures forall ch :: ch in Digits <==> IsDigit(ch)
    ensures forall i, j :: 0 <= i < j < 9 ==> Digits[i] != Digits[j]
  {
    assert Digits == seq(9, k requires 0 <= k < 9 => (49 + k) as char);
    forall ch | IsDigit(ch)
      ensures ch in Digits
    {
      assert Digits[ch as int - 49] == ch;
    }
  }

  // ---------------------------------------------------------------- names

  /** Python's `cross(A, B)`: every `a + b`, with `A` varying slowest. */
  function Cross(a: string, b: string): (r: seq<string>)
    ensures |r| == |a| * |b|
  {
    if |a| == 0 then []
    else seq(|b|, j requires 0 <= j < |b| => [a[0], b[j]]) + Cross(a[1..], b)
  }

  /** Entry `i * |b| + j` of the cross product pairs the `i`-th of `a` with the `j`-th of `b`. */
  lemma {:induction false} CrossIndex(a: string, b: string, i: int, j: int)
    requires 0 <= i < |a| && 0 <= j < |b|
    ensures i * |b| + j < |Cross(a, b)|
    ensures Cross(a, b)[i * |b| + j] == [a[i], b[j]]
    decreases i
  {
    if i > 0 {
      CrossIndex(a[1..], b, i - 1, j);
      assert i * |b| + j == |b| + ((i - 1) * |b| + j);
    }
  }

  /** The name of box `c`, e.g. "C7" for 24. */
  function Name(c: Cell): (r: string)
  {
    [Rows[c / 9], Cols[c % 9]]
  }

  lemma NameOf(c: Cell, row: int, col: int)
    requires 0 <= row < 9 && 0 <= col < 9 && c == row * 9 + col
    ensures Name(c) == [Rows[row], Cols[col]]
  {
    assert c / 9 == row && c % 9 == col;
  }

  /** Python's `boxes = cross(rows, cols)` lists box `c` at position `c`. */
  lemma BoxesAreNamedInIndexOrder(c: Cell)
    ensures |Cross(Rows, Cols)| == 81
    ensures Cross(Rows, Cols)[c] == Name(c)
  {
    CrossIndex(Rows, Cols, c / 9, c % 9);
  }

  /** Python's ordering of two two-letter box names. */
  predicate NameBefore(x: string, y: string)
    requires |x| == 2 && |y| == 2
  {
    x[0] < y[0] || (x[0] == y[0] && x[1] < y[1])
  }

  /** Comparing box names is comparing box indices, so "smallest name" is "smallest index". */
  lemma IndexOrderIsNameOrder(a: Cell, b: Cell)
    ensures a < b <==> NameBefore(Name(a), Name(b))
  {
    RowCode(a / 9);
    RowCode(b / 9);
    ColCode(a % 9);
    ColCode(b % 9);
  }

  // ---------------------------------------------------------------- units

  function RowUnit(r: int): (u: seq<Cell>)
    requires 0 <= r < 9
  {
    seq(9, j requires 0 <= j < 9 => r * 9 + j)
  }

  function ColumnUnit(c: int): (u: seq<Cell>)
    requires 0 <= c < 9
  {
    seq(9, i requires 0 <= i < 9 => i * 9 + c)
  }

  /** The `k`-th three-by-three square, squares numbered row-major. */
  function SquareUnit(k: int): (u: seq<Cell>)
    requires 0 <= k < 9
  {
    seq(9, i requires 0 <= i < 9 => (3 * (k / 3) + i / 3) * 9 + 3 * (k % 3) + i % 3)
  }

  /** A1, B2, ..., I9. */
  function MainDiagonal(): (u: seq<Cell>)
  {
    seq(9, i requires 0 <= i < 9 => i * 9 + i)
  }

  /** I1, H2, ..., A9: the reversed rows zipped with the columns. */
  function AntiDiagonal(): (u: seq<Cell>)
  {
    seq(9, i requires 0 <= i < 9 => (8 - i) * 9 + i)
  }

  /** Python's `unitlist`: rows, then columns, then squares, then the two diagonals. */
  function Unitlist(): (r: seq<seq<Cell>>)
    ensures |r| == 29
    ensures forall k :: 0 <= k < 29 ==> |r[k]| == 9
    ensures forall k, i, j :: 0 <= k < 29 && 0 <= i < j < 9 ==> r[k][i] != r[k][j]
  {
    seq(9, r requires 0 <= r < 9 => RowUnit(r))
    + seq(9, c requires 0 <= c < 9 => ColumnUnit(c))
    + seq(9, k requires 0 <= k < 9 => SquareUnit(k))
    + [MainDiagonal(), AntiDiagonal()]
  }

  /** Python's `row_units`, `column_units`, `square_units` and `diag_units`, from box names. */
  function SourceRowUnits(): (r: seq<seq<string>>)
  {
    seq(9, r requires 0 <= r < 9 => Cross([Rows[r]], Cols))
  }

  function SourceColumnUnits(): (r: seq<seq<string>>)
  {
    seq(9, c requires 0 <= c < 9 => Cross(Rows, [Cols[c]]))
  }

  function SourceSquareUnits(): (r: seq<seq<string>>)
  {
    seq(9, q requires 0 <= q < 9 => Cross(Rows[3 * (q / 3)..3 * (q / 3) + 3], Cols[3 * (q % 3)..3 * (q % 3) + 3]))
  }

  function SourceDiagonalUnits(): (r: seq<seq<string>>)
  {
    [seq(9, i requires 0 <= i < 9 => [Rows[i], Cols[i]]),
     seq(9, i requires 0 <= i < 9 => [Rows[8 - i], Cols[i]])]
  }

  /** The unitlist as the source builds it, from box names. */
  function SourceUnitlist(): (r: seq<seq<string>>)
  {
    SourceRowUnits() + SourceColumnUnits() + SourceSquareUnits() + SourceDiagonalUnits()
  }

  /** The `k`-th unit of the unitlist, by kind. */
  function UnitKind(k: int): (u: seq<Cell>)
    requires 0 <= k < 29
  {
    if k < 9 then RowUnit(k)
    else if k < 18 then ColumnUnit(k - 9)
    else if k < 27 then SquareUnit(k - 18)
    else if k == 27 then MainDiagonal()
    else AntiDiagonal()
  }

  lemma UnitAt(k: int)
    requires 0 <= k < 29
    ensures Unitlist()[k] == UnitKind(k)
  {
  }

  /** Index `k` of the concatenated source unitlist, by kind. */
  lemma SourceAt(k: int)
    requires 0 <= k < 29
    ensures |SourceUnitlist()| == 29
    ensures k < 9 ==> SourceUnitlist()[k] == SourceRowUnits()[k]
    ensures 9 <= k < 18 ==> SourceUnitlist()[k] == SourceColumnUnits()[k - 9]
    ensures 18 <= k < 27 ==> SourceUnitlist()[k] == SourceSquareUnits()[k - 18]
    ensures 27 <= k ==> SourceUnitlist()[k] == SourceDiagonalUnits()[k - 27]
  {
    var a := SourceRowUnits() + SourceColumnUnits();
    var b := a + SourceSquareUnits();
    assert |a| == 18 && |b| == 27;
    assert SourceUnitlist() == b + SourceDiagonalUnits();
  }

  /** Entry `3a + b` of the cross product of a block of three rows and three columns. */
  lemma CrossBlock(br: int, bc: int, a: int, b: int)
    requires 0 <= br < 3 && 0 <= bc < 3 && 0 <= a < 3 && 0 <= b < 3
    ensures |Cross(Rows[3 * br..3 * br + 3], Cols[3 * bc..3 * bc + 3])| == 9
    ensures Cross(Rows[3 * br..3 * br + 3], Cols[3 * bc..3 * bc + 3])[3 * a + b] == [Rows[3 * br + a], Cols[3 * bc + b]]
  {
    CrossIndex(Rows[3 * br..3 * br + 3], Cols[3 * bc..3 * bc + 3], a, b);
  }

  lemma SquareSourceIs(q: int)
    requires 0 <= q < 9
    ensures SourceSquareUnits()[q] == Cross(Rows[3 * (q / 3)..3 * (q / 3) + 3], Cols[3 * (q % 3)..3 * (q % 3) + 3])
  {
  }

  lemma SquareSourceAt(q: int, i: int)
    requires 0 <= q < 9 && 0 <= i < 9
    ensures |SourceSquareUnits()[q]| == 9
    ensures SourceSquareUnits()[q][i] == [Rows[3 * (q / 3) + i / 3], Cols[3 * (q % 3) + i % 3]]
  {
    var br, bc, a, b := q / 3, q % 3, i / 3, i % 3;
    var block := Cross(Rows[3 * br..3 * br + 3], Cols[3 * bc..3 * bc + 3]);
    SquareSourceIs(q);
    CrossBlock(br, bc, a, b);
    DivModThree(i);
    assert SourceSquareUnits()[q][i] == block[3 * a + b];
  }

  lemma DivModThree(i: int)
    requires 0 <= i < 9
    ensures i == 3 * (i / 3) + i % 3
  {
  }

  lemma SquareNameAt(q: int, i: int)
    requires 0 <= q < 9 && 0 <= i < 9
    ensures Name(SquareUnit(q)[i]) == [Rows[3 * (q / 3) + i / 3], Cols[3 * (q % 3) + i % 3]]
  {
    var c := SquareUnit(q)[i];
    NameOf(c, 3 * (q / 3) + i / 3, 3 * (q % 3) + i % 3);
  }

  lemma SquareMatchesSource(q: int, i: int)
    requires 0 <= q < 9 && 0 <= i < 9
    ensures |SourceSquareUnits()[q]| == 9
    ensures Name(SquareUnit(q)[i]) == SourceSquareUnits()[q][i]
  {
    SquareSourceAt(q, i);
    SquareNameAt(q, i);
  }

  lemma RowMatchesSource(r: int, i: int)
    requires 0 <= r < 9 && 0 <= i < 9
    ensures |SourceRowUnits()[r]| == 9
    ensures Name(RowUnit(r)[i]) == SourceRowUnits()[r][i]
  {
    CrossIndex([Rows[r]], Cols, 0, i);
    NameOf(RowUnit(r)[i], r, i);
  }

  lemma ColumnMatchesSource(c: int, i: int)
    requires 0 <= c < 9 && 0 <= i < 9
    ensures |SourceColumnUnits()[c]| == 9
    ensures Name(ColumnUnit(c)[i]) == SourceColumnUnits()[c][i]
  {
    CrossIndex(Rows, [Cols[c]], i, 0);
    NameOf(ColumnUnit(c)[i], i, c);
  }

  lemma DiagonalMatchesSource(d: int, i: int)
    requires 0 <= d < 2 && 0 <= i < 9
    ensures |SourceDiagonalUnits()[d]| == 9
    ensures Name(UnitKind(27 + d)[i]) == SourceDiagonalUnits()[d][i]
  {
    if d == 0 {
      NameOf(MainDiagonal()[i], i, i);
    } else {
      NameOf(AntiDiagonal()[i], 8 - i, i);
    }
  }

  /** Unit `k` of both unitlists, for one kind of unit at a time. */
  lemma KindMatchesSource(k: int, i: int)
    requires 0 <= k < 29 && 0 <= i < 9
    ensures |SourceUnitlist()| == 29 && |SourceUnitlist()[k]| == 9
    ensures Name(UnitKind(k)[i]) == SourceUnitlist()[k][i]
  {
    SourceAt(k);
    if k < 9 {
      RowMatchesSource(k, i);
    } else if k < 18 {
      ColumnMatchesSource(k - 9, i);
    } else if k < 27 {
      SquareMatchesSource(k - 18, i);
    } else {
      DiagonalMatchesSource(k - 27, i);
    }
  }

  /** The index-based units name exactly the boxes of the source's name-based units, in order. */
  lemma UnitlistMatchesSource(k: int, i: int)
    requires 0 <= k < 29 && 0 <= i < 9
    ensures |SourceUnitlist()| == 29 && |SourceUnitlist()[k]| == 9
    ensures Name(Unitlist()[k][i]) == SourceUnitlist()[k][i]
  {
    UnitAt(k);
    KindMatchesSource(k, i);
  }

  /** Which cells a unit holds, in terms of row and column coordinates. */
  predicate InUnit(k: int, c: Cell)
    requires 0 <= k < 29
  {
    if k < 9 then c / 9 == k
    else if k < 18 then c % 9 == k - 9
    else if k < 27 then (c / 9) / 3 == (k - 18) / 3 && (c % 9) / 3 == (k - 18) % 3
    else if k == 27 then c / 9 == c % 9
    else c / 9 + c % 9 == 8
  }

  lemma SquareMembership(q: int, c: Cell)
    requires 0 <= q < 9
    ensures c in SquareUnit(q) <==> (c / 9) / 3 == q / 3 && (c % 9) / 3 == q % 3
  {
    var u := SquareUnit(q);
    var row, col := c / 9, c % 9;
    if (c / 9) / 3 == q / 3 && (c % 9) / 3 == q % 3 {
      var i := (row % 3) * 3 + col % 3;
      assert i / 3 == row % 3 && i % 3 == col % 3;
      assert u[i] == c;
    }
    if c in u {
      var i :| 0 <= i < 9 && u[i] == c;
      assert c == (3 * (q / 3) + i / 3) * 9 + (3 * (q % 3) + i % 3);
      NameOf(c, 3 * (q / 3) + i / 3, 3 * (q % 3) + i % 3);
      assert row == 3 * (q / 3) + i / 3 && col == 3 * (q % 3) + i % 3;
    }
  }

  lemma LineMembership(k: int, c: Cell)
    requires 0 <= k < 18
    ensures c in UnitKind(k) <==> InUnit(k, c)
  {
    var row, col := c / 9, c % 9;
    assert c == row * 9 + col;
    if InUnit(k, c) {
      if k < 9 {
        assert RowUnit(k)[col] == c;
      } else {
        assert ColumnUnit(k - 9)[row] == c;
      }
    }
  }

  lemma DiagonalMembership(k: int, c: Cell)
    requires 27 <= k < 29
    ensures c in UnitKind(k) <==> InUnit(k, c)
  {
    var row, col := c / 9, c % 9;
    assert c == row * 9 + col;
    if InUnit(k, c) {
      if k == 27 {
        assert MainDiagonal()[row] == c;
      } else {
        assert AntiDiagonal()[col] == c;
      }
    }
  }

  lemma UnitMembership(k: int, c: Cell)
    requires 0 <= k < 29
    ensures c in Unitlist()[k] <==> InUnit(k, c)
  {
    UnitAt(k);
    if k < 18 {
      LineMembership(k, c);
    } else if k < 27 {
      SquareMembership(k - 18, c);
    } else {
      DiagonalMembership(k, c);
    }
  }

  // ---------------------------------------------------------------- peers

  function UnitsFrom(s: Cell, k: nat): (r: seq<seq<Cell>>)
    requires k <= 29
    ensures forall u :: u in r <==> exists j :: k <= j < 29 && u == Unitlist()[j] && s in u
    decreases 29 - k
  {
    if k == 29 then []
    else if s in Unitlist()[k] then [Unitlist()[k]] + UnitsFrom(s, k + 1)
    else UnitsFrom(s, k + 1)
  }

  /** Python's `units[s]`: the units containing `s`, in unitlist order. */
  function Units(s: Cell): (r: seq<seq<Cell>>)
    ensures forall u :: u in r <==> u in Unitlist() && s in u
  {
    UnitsFrom(s, 0)
  }

  /** Python's `peers[s]`: every box of a unit containing `s`, except `s` itself. */
  function Peers(s: Cell): (r: set<Cell>)
  {
    (set u, p | u in Units(s) && p in u :: p) - {s}
  }

  /** Two boxes are peers exactly when they are distinct and some unit holds both. */
  lemma PeersAreUnitMates(s: Cell, p: Cell)
    ensures p in Peers(s) <==> p != s && exists k :: 0 <= k < 29 && s in Unitlist()[k] && p in Unitlist()[k]
  {
    if p != s && exists k :: 0 <= k < 29 && s in Unitlist()[k] && p in Unitlist()[k] {
      var k :| 0 <= k < 29 && s in Unitlist()[k] && p in Unitlist()[k];
      assert Unitlist()[k] in Units(s);
    }
  }

  /** A box is never its own peer, and peerhood is symmetric. */
  lemma PeersSymmetric(s: Cell, p: Cell)
    ensures s !in Peers(s)
    ensures p in Peers(s) <==> s in Peers(p)
  {
    PeersAreUnitMates(s, p);
    PeersAreUnitMates(p, s);
  }

  /** Two distinct boxes of any unit are peers of each other. */
  lemma UnitMatesArePeers(k: int, i: int, j: int)
    requires 0 <= k < 29 && 0 <= i < 9 && 0 <= j < 9 && i != j
    ensures Unitlist()[k][j] in Peers(Unitlist()[k][i])
  {
    PeersAreUnitMates(Unitlist()[k][i], Unitlist()[k][j]);
  }

  /** Boxes on the same row, column, square or diagonal. */
  predicate SameRowColumnSquareOrDiagonal(a: Cell, b: Cell)
  {
    || a / 9 == b / 9
    || a % 9 == b % 9
    || ((a / 9) / 3 == (b / 9) / 3 && (a % 9) / 3 == (b % 9) / 3)
    || (a / 9 == a % 9 && b / 9 == b % 9)
    || (a / 9 + a % 9 == 8 && b / 9 + b % 9 == 8)
  }

  lemma SharedUnitIsSameLine(k: int, a: Cell, b: Cell)
    requires 0 <= k < 29 && InUnit(k, a) && InUnit(k, b)
    ensures SameRowColumnSquareOrDiagonal(a, b)
  {
  }

  /** The unit that holds two boxes on the same row, column, square or diagonal. */
  lemma SameLineHasUnit(a: Cell, b: Cell) returns (k: int)
    requires SameRowColumnSquareOrDiagonal(a, b)
    ensures 0 <= k < 29 && InUnit(k, a) && InUnit(k, b)
  {
    if a / 9 == b / 9 {
      k := a / 9;
    } else if a % 9 == b % 9 {
      k := 9 + a % 9;
    } else if (a / 9) / 3 == (b / 9) / 3 && (a % 9) / 3 == (b % 9) / 3 {
      k := 18 + 3 * ((a / 9) / 3) + (a % 9) / 3;
    } else if a / 9 == a % 9 && b / 9 == b % 9 {
      k := 27;
    } else {
      k := 28;
    }
  }

  /** The peers computed from the unitlist agree with the coordinate description of the board. */
  lemma PeersByCoordinates(s: Cell, p: Cell)
    ensures p in Peers(s) <==> p != s && SameRowColumnSquareOrDiagonal(s, p)
  {
    PeersAreUnitMates(s, p);
    if p in Peers(s) {
      var k :| 0 <= k < 29 && s in Unitlist()[k] && p in Unitlist()[k];
      UnitMembership(k, s);
      UnitMembership(k, p);
      SharedUnitIsSameLine(k, s, p);
    }
    if p != s && SameRowColumnSquareOrDiagonal(s, p) {
      var k := SameLineHasUnit(s, p);
      UnitMembership(k, s);
      UnitMembership(k, p);
    }
  }

  function PeersFrom(s: Cell, lo: nat): (r: seq<Cell>)
    requires lo <= 81
    ensures forall p :: p in r <==> lo <= p && p in Peers(s)
    ensures forall i, j :: 0 <= i < j < |r| ==> r[i] < r[j]
    ensures forall i :: 0 <= i < |r| ==> lo <= r[i]
    decreases 81 - lo
  {
    if lo == 81 then []
    else if lo in Peers(s) then [lo] + PeersFrom(s, lo + 1)
    else PeersFrom(s, lo + 1)
  }

  /** The peers of `s` in ascending order, each once: the order in which the model visits `peers[s]`. */
  function PeerList(s: Cell): (r: seq<Cell>)
    ensures forall p :: p in r <==> p in Peers(s)
    ensures forall i, j :: 0 <= i < j < |r| ==> r[i] != r[j]
  {
    PeersFrom(s, 0)
  }
}
