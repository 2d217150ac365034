/** The 3x3 board as a value: cells, the eight winning lines, the terminal
    tests, and the empty cells enumerated in row-major order. */
module Board {

  datatype Cell = Empty | X | O

  /** A mark a player places (the source's "X" and "O"). */
  type Mark = c: Cell | c != Empty witness X

  type Coord = i: int | 0 <= i < 3

  /** A move (row, column), the source's tuple (i, j). */
  datatype Pos = Pos(row: Coord, col: Coord)

  type Grid = b: seq<seq<Cell>> | |b| == 3 && |b[0]| == 3 && |b[1]| == 3 && |b[2]| == 3
    witness [[Empty, Empty, Empty], [Empty, Empty, Empty], [Empty, Empty, Empty]]

  const EmptyGrid: Grid := [[Empty, Empty, Empty], [Empty, Empty, Empty], [Empty, Empty, Empty]]

  function At(b: Grid, p: Pos): Cell {
    b[p.row][p.col]
  }

  /** The board with cell p set to c (a placement, or its undo with c == Empty). */
  function Place(b: Grid, p: Pos, c: Cell): (r: Grid)
    ensures At(r, p) == c
    ensures forall q :: q != p ==> At(r, q) == At(b, q)
  {
    b[p.row := b[p.row][p.col := c]]
  }

  /** Two boards that agree on every cell are the same board. */
  lemma GridExt(g: Grid, h: Grid)
    requires forall p :: At(g, p) == At(h, p)
    ensures g == h
  {
    forall i: Coord
      ensures g[i] == h[i]
    {
      assert At(g, Pos(i, 0)) == At(h, Pos(i, 0));
      assert At(g, Pos(i, 1)) == At(h, Pos(i, 1));
      assert At(g, Pos(i, 2)) == At(h, Pos(i, 2));
    }
  }

  /** Writing a cell and then writing back what it held is the identity. */
  lemma PlaceUndo(b: Grid, p: Pos, c: Cell)
    ensures Place(Place(b, p, c), p, At(b, p)) == b
  {
    GridExt(Place(Place(b, p, c), p, At(b, p)), b);
  }

  // ---------------------------------------------------------------------
  // Lines and terminal tests

  /** Three cells in a row, column or diagonal. */
  datatype Line = Line(p: Pos, q: Pos, r: Pos)

  /** The eight lines: three rows, three columns, the main diagonal and the anti-diagonal. */
  const Lines: seq<Line> := [
    Line(Pos(0, 0), Pos(0, 1), Pos(0, 2)),
    Line(Pos(1, 0), Pos(1, 1), Pos(1, 2)),
    Line(Pos(2, 0), Pos(2, 1), Pos(2, 2)),
    Line(Pos(0, 0), Pos(1, 0), Pos(2, 0)),
    Line(Pos(0, 1), Pos(1, 1), Pos(2, 1)),
    Line(Pos(0, 2), Pos(1, 2), Pos(2, 2)),
    Line(Pos(0, 0), Pos(1, 1), Pos(2, 2)),
    Line(Pos(0, 2), Pos(1, 1), Pos(2, 0))
  ]

  predicate Owns(b: Grid, l: Line, m: Mark) {
    At(b, l.p) == m && At(b, l.q) == m && At(b, l.r) == m
  }

  /** Player m has three in a line. */
  predicate Wins(b: Grid, m: Mark) {
    exists k | 0 <= k < |Lines| :: Owns(b, Lines[k], m)
  }

  /** No cell is empty. */
  predicate Full(b: Grid) {
    forall i, j | 0 <= i < 3 && 0 <= j < 3 :: b[i][j] != Empty
  }

  predicate Over(b: Grid) {
    Wins(b, X) || Wins(b, O) || Full(b)
  }

  /** The static score of a board: 1 if X has a line, else -1 if O has one, else 0. */
  function Value(b: Grid): (v: int)
    ensures -1 <= v <= 1
  {
    if Wins(b, X) then 1 else if Wins(b, O) then -1 else 0
  }

  /** Row i holds three m. */
  predicate RowOf(b: Grid, i: Coord, m: Mark) {
    b[i][0] == m && b[i][1] == m && b[i][2] == m
  }

  /** Column j holds three m. */
  predicate ColumnOf(b: Grid, j: Coord, m: Mark) {
    b[0][j] == m && b[1][j] == m && b[2][j] == m
  }

  /** The table of lines says the same as "some row, some column, or one of
      the two diagonals holds three m". */
  lemma WinsIffLine(b: Grid, m: Mark)
    ensures Wins(b, m) <==>
      (exists i: Coord :: RowOf(b, i, m)) ||
      (exists j: Coord :: ColumnOf(b, j, m)) ||
      (b[0][0] == m && b[1][1] == m && b[2][2] == m) ||
      (b[0][2] == m && b[1][1] == m && b[2][0] == m)
  {
    if Wins(b, m) {
      var k :| 0 <= k < |Lines| && Owns(b, Lines[k], m);
      if k < 3 {
        assert RowOf(b, k, m);
      } else if k < 6 {
        assert ColumnOf(b, k - 3, m);
      }
    }
    if i: Coord :| RowOf(b, i, m) {
      assert Owns(b, Lines[i], m);
    }
    if j: Coord :| ColumnOf(b, j, m) {
      assert Owns(b, Lines[j + 3], m);
    }
    if b[0][0] == m && b[1][1] == m && b[2][2] == m {
      assert Owns(b, Lines[6], m);
    }
    if b[0][2] == m && b[1][1] == m && b[2][0] == m {
      assert Owns(b, Lines[7], m);
    }
  }

  /** Placing one player's mark never gives the other player a line. */
  lemma PlaceNoNewLine(b: Grid, p: Pos, c: Mark, m: Mark)
    requires c != m
    ensures Wins(Place(b, p, c), m) ==> Wins(b, m)
  {
    if Wins(Place(b, p, c), m) {
      var k :| 0 <= k < |Lines| && Owns(Place(b, p, c), Lines[k], m);
      assert Owns(b, Lines[k], m);
    }
  }

  /** On a board where neither side has a line, one placement cannot give both sides one. */
  lemma NoDoubleWin(b: Grid, p: Pos, c: Mark)
    requires !Wins(b, X) && !Wins(b, O)
    ensures !(Wins(Place(b, p, c), X) && Wins(Place(b, p, c), O))
  {
    if c == X {
      PlaceNoNewLine(b, p, c, O);
    } else {
      PlaceNoNewLine(b, p, c, X);
    }
  }

  // ---------------------------------------------------------------------
  // Row-major enumeration

  /** The row-major index of a cell. */
  function Index(p: Pos): nat {
    3 * p.row + p.col
  }

  /** The empty cells among the first j of row i, left to right: what the
      inner loop of get_possible_moves appends for row i after j steps. */
  function RowMoves(b: Grid, i: Coord, j: nat): seq<Pos>
    requires j <= 3
  {
    if j == 0 then []
    else RowMoves(b, i, j - 1) + (if b[i][j - 1] == Empty then [Pos(i, j - 1)] else [])
  }

  /** The empty cells of the first i rows, in row-major order. */
  function RowsMoves(b: Grid, i: nat): seq<Pos>
    requires i <= 3
  {
    if i == 0 then [] else RowsMoves(b, i - 1) + RowMoves(b, i - 1, 3)
  }

  function Moves(b: Grid): seq<Pos> {
    RowsMoves(b, 3)
  }

  lemma {:induction false} RowMovesExact(b: Grid, i: Coord, j: nat)
    requires j <= 3
    ensures forall p :: p in RowMoves(b, i, j) <==> p.row == i && p.col < j && At(b, p) == Empty
    ensures forall k | 0 <= k < |RowMoves(b, i, j)| :: RowMoves(b, i, j)[k].row == i && RowMoves(b, i, j)[k].col < j
    ensures forall k, l | 0 <= k < l < |RowMoves(b, i, j)| :: RowMoves(b, i, j)[k].col < RowMoves(b, i, j)[l].col
  {
    if j > 0 {
      RowMovesExact(b, i, j - 1);
    }
  }

  lemma {:induction false} RowsMovesExact(b: Grid, i: nat)
    requires i <= 3
    ensures forall p :: p in RowsMoves(b, i) <==> p.row < i && At(b, p) == Empty
    ensures forall k | 0 <= k < |RowsMoves(b, i)| :: RowsMoves(b, i)[k].row < i
    ensures forall k, l | 0 <= k < l < |RowsMoves(b, i)| :: Index(RowsMoves(b, i)[k]) < Index(RowsMoves(b, i)[l])
  {
    if i > 0 {
      RowsMovesExact(b, i - 1);
      RowMovesExact(b, i - 1, 3);
      var front, row := RowsMoves(b, i - 1), RowMoves(b, i - 1, 3);
      assert RowsMoves(b, i) == front + row;
      forall k, l | 0 <= k < l < |front + row|
        ensures Index((front + row)[k]) < Index((front + row)[l])
      {
        if k >= |front| {
          assert (front + row)[k] == row[k - |front|] && (front + row)[l] == row[l - |front|];
        } else if l >= |front| {
          assert (front + row)[l] == row[l - |front|];
        }
      }
    }
  }

  /** get_possible_moves lists exactly the empty cells, in strictly increasing
      row-major order (so each one once). */
  lemma MovesExact(b: Grid)
    ensures forall p :: p in Moves(b) <==> At(b, p) == Empty
    ensures forall i, j | 0 <= i < j < |Moves(b)| :: Index(Moves(b)[i]) < Index(Moves(b)[j])
  {
    RowsMovesExact(b, 3);
  }

  /** Row-major order of two possible moves is the order of their positions in the list. */
  lemma MovesOrder(b: Grid, i: nat, j: nat)
    requires i < |Moves(b)| && j < |Moves(b)|
    ensures Index(Moves(b)[i]) < Index(Moves(b)[j]) <==> i < j
  {
    MovesExact(b);
    if j < i {
      assert Index(Moves(b)[j]) < Index(Moves(b)[i]);
    }
  }

  lemma MoveIsEmpty(b: Grid, k: nat)
    requires k < |Moves(b)|
    ensures At(b, Moves(b)[k]) == Empty
  {
    MovesExact(b);
    assert Moves(b)[k] in Moves(b);
  }

  lemma FullIffNoMoves(b: Grid)
    ensures Full(b) <==> Moves(b) == []
  {
    MovesExact(b);
    if Moves(b) != [] {
      assert At(b, Moves(b)[0]) == Empty;
    }
    if !Full(b) {
      var i, j :| 0 <= i < 3 && 0 <= j < 3 && b[i][j] == Empty;
      assert Pos(i, j) in Moves(b);
    }
  }

  // ---------------------------------------------------------------------
  // Counting cells

  /** How many cells hold c. */
  function Count(b: Grid, c: Cell): nat {
    multiset(b[0])[c] + multiset(b[1])[c] + multiset(b[2])[c]
  }

  lemma {:induction false} CellsSum(s: seq<Cell>)
    ensures multiset(s)[Empty] + multiset(s)[X] + multiset(s)[O] == |s|
  {
    if s != [] {
      var t, c := s[..|s| - 1], s[|s| - 1];
      CellsSum(t);
      assert s == t + [c];
      assert multiset(s) == multiset(t) + multiset{c};
      match c
      case Empty =>
      case X =>
      case O =>
    }
  }

  lemma {:induction false} RowMovesCount(b: Grid, i: Coord, j: nat)
    requires j <= 3
    ensures |RowMoves(b, i, j)| == multiset(b[i][..j])[Empty]
  {
    if j > 0 {
      RowMovesCount(b, i, j - 1);
      var front, c := b[i][..j - 1], b[i][j - 1];
      assert b[i][..j] == front + [c];
      assert multiset(b[i][..j]) == multiset(front) + multiset{c};
    }
  }

  /** The number of possible moves is the number of empty cells, and it plus
      the number of occupied cells is nine. */
  lemma MovesCount(b: Grid)
    ensures |Moves(b)| == Count(b, Empty)
    ensures |Moves(b)| + Count(b, X) + Count(b, O) == 9
  {
    forall i: Coord
      ensures |RowMoves(b, i, 3)| == multiset(b[i])[Empty]
    {
      RowMovesCount(b, i, 3);
      assert b[i][..3] == b[i];
    }
    assert RowsMoves(b, 1) == RowMoves(b, 0, 3);
    assert RowsMoves(b, 2) == RowMoves(b, 0, 3) + RowMoves(b, 1, 3);
    assert Moves(b) == RowMoves(b, 0, 3) + RowMoves(b, 1, 3) + RowMoves(b, 2, 3);
    CellsSum(b[0]);
    CellsSum(b[1]);
    CellsSum(b[2]);
  }

  /** Placing a mark on an empty cell adds one to that mark's count and
      takes one from the empty cells, and leaves the other mark's count alone. */
  lemma PlaceCounts(b: Grid, p: Pos, m: Mark)
    requires At(b, p) == Empty
    ensures Count(Place(b, p, m), m) == Count(b, m) + 1
    ensures forall c: Cell | c != m && c != Empty :: Count(Place(b, p, m), c) == Count(b, c)
    ensures Count(Place(b, p, m), Empty) + 1 == Count(b, Empty)
  {
    var row := b[p.row];
    assert multiset(row[p.col := m]) == multiset(row) - multiset{Empty} + multiset{m};
  }

  /** Each real placement removes exactly one possible move. */
  lemma PlaceShrinksMoves(b: Grid, p: Pos, m: Mark)
    requires At(b, p) == Empty
    ensures |Moves(Place(b, p, m))| + 1 == |Moves(b)|
  {
    PlaceCounts(b, p, m);
    MovesCount(b);
    MovesCount(Place(b, p, m));
  }
}
