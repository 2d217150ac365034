/** game.py's TicTacToeGame without its view: the board held in a 3x3 array
    and the player to move, the queries over them, the in-place minimax search
    that writes and undoes marks, and make_move with the computer's reply. */
module Game {
  import opened Board
  import opened Options
  import Search

  /** What make_move leaves behind: the board and current_player. */
  datatype State = State(grid: Grid, player: Mark)

  /** switch_player: "X" if the current player is "O", else "O". */
  function Other(p: Mark): (q: Mark)
    ensures q != p
  {
    if p == O then X else O
  }

  /** make_move(row, column) on board values: nothing on an occupied cell;
      otherwise the player's mark goes there, the game stops if it is over,
      and else the turn passes, and when it passes to O the computer's chosen
      move is made the same way. */
  function Play(s: State, m: Pos): State
    decreases |Moves(s.grid)|
  {
    if At(s.grid, m) != Empty then s
    else
      var g := Place(s.grid, m, s.player);
      if Over(g) then State(g, s.player)
      else if Other(s.player) != O then State(g, Other(s.player))
      else
        PlaceShrinksMoves(s.grid, m, s.player);
        Search.NotOverHasMoves(g);
        Search.BestMoveSpec(g);
        Play(State(g, O), Search.BestMove(g).value)
  }

  /** Play on an occupied cell is a no-op; on an empty cell it puts the
      player's mark there and never overwrites an existing mark; and besides
      that cell at most one other cell changes, from empty to O (the reply). */
  lemma PlayFrame(s: State, m: Pos)
    ensures At(s.grid, m) != Empty ==> Play(s, m) == s
    ensures At(s.grid, m) == Empty ==> At(Play(s, m).grid, m) == s.player
    ensures forall q | At(s.grid, q) != Empty :: At(Play(s, m).grid, q) == At(s.grid, q)
    ensures forall q | q != m && At(Play(s, m).grid, q) != At(s.grid, q) ::
      At(s.grid, q) == Empty && At(Play(s, m).grid, q) == O
    ensures forall q1, q2 | q1 != m && q2 != m &&
      At(Play(s, m).grid, q1) != At(s.grid, q1) && At(Play(s, m).grid, q2) != At(s.grid, q2) :: q1 == q2
    decreases |Moves(s.grid)|
  {
    if At(s.grid, m) == Empty {
      var g := Place(s.grid, m, s.player);
      if !Over(g) && Other(s.player) == O {
        PlaceShrinksMoves(s.grid, m, s.player);
        Search.NotOverHasMoves(g);
        Search.BestMoveSpec(g);
        var r := Search.BestMove(g).value;
        assert At(g, r) == Empty;
        assert Play(s, m) == State(Place(g, r, O), O) || Play(s, m) == State(Place(g, r, O), X);
      }
    }
  }

  /** The turn after a placement on an empty cell: it stays with the mover if
      that placement ends the game; it passes from O to X; and from X it
      passes to O, whose reply is one O on the empty cell get_best_move
      chooses, after which the turn is X's unless the reply ends the game. */
  lemma PlayTurn(s: State, m: Pos)
    requires At(s.grid, m) == Empty
    ensures var g := Place(s.grid, m, s.player);
      (Over(g) ==> Play(s, m) == State(g, s.player)) &&
      (!Over(g) && s.player == O ==> Play(s, m) == State(g, X)) &&
      (!Over(g) && s.player == X ==>
        Search.BestMove(g).Some? && At(g, Search.BestMove(g).value) == Empty &&
        Play(s, m).grid == Place(g, Search.BestMove(g).value, O) &&
        Play(s, m).player == (if Over(Play(s, m).grid) then O else X))
  {
    var g := Place(s.grid, m, s.player);
    if !Over(g) && s.player == X {
      PlaceShrinksMoves(s.grid, m, s.player);
      Search.NotOverHasMoves(g);
      Search.BestMoveSpec(g);
      var r := Search.BestMove(g).value;
      assert At(Place(g, r, O), r) == O;
    }
  }

  /** The states a game passes through from reset_game on: neither player
      has a line while play goes on, X is to move, and both have placed the
      same number of marks; once over, at most one player has a line and the
      counts say who moved last (X one ahead and still current, or level with
      O current). */
  ghost predicate Consistent(s: State) {
    var nx, no := Count(s.grid, X), Count(s.grid, O);
    !(Wins(s.grid, X) && Wins(s.grid, O)) &&
    if !Over(s.grid) then s.player == X && nx == no
    else (s.player == X && nx == no + 1) || (s.player == O && nx == no)
  }

  lemma ResetConsistent()
    ensures Consistent(State(EmptyGrid, X))
  {
    assert forall p :: At(EmptyGrid, p) == Empty;
    assert !Wins(EmptyGrid, X) && !Wins(EmptyGrid, O);
    assert !Full(EmptyGrid) by {
      assert EmptyGrid[0][0] == Empty;
    }
    assert forall i: Coord :: X !in EmptyGrid[i] && O !in EmptyGrid[i];
  }

  /** One placement of the player to move, from a consistent ongoing state. */
  lemma PlaceConsistent(s: State, m: Pos)
    requires Consistent(s) && !Over(s.grid) && At(s.grid, m) == Empty
    ensures var g := Place(s.grid, m, s.player);
      !(Wins(g, X) && Wins(g, O)) &&
      Count(g, X) == Count(s.grid, X) + 1 && Count(g, O) == Count(s.grid, O)
  {
    NoDoubleWin(s.grid, m, s.player);
    PlaceCounts(s.grid, m, s.player);
  }

  /** make_move on an ongoing game keeps it consistent, whether the human's
      move ends it, the computer's reply ends it, or play goes on. */
  lemma PlayConsistent(s: State, m: Pos)
    requires Consistent(s) && !Over(s.grid)
    ensures Consistent(Play(s, m))
  {
    if At(s.grid, m) == Empty {
      var g := Place(s.grid, m, s.player);
      PlaceConsistent(s, m);
      if !Over(g) {
        PlaceShrinksMoves(s.grid, m, s.player);
        Search.NotOverHasMoves(g);
        Search.BestMoveSpec(g);
        var r := Search.BestMove(g).value;
        var g2 := Place(g, r, O);
        NoDoubleWin(g, r, O);
        PlaceCounts(g, r, O);
        if !Over(g2) {
          assert Play(s, m) == State(g2, X);
        } else {
          assert Play(s, m) == State(g2, O);
        }
      }
    }
  }

  /** Rows and columns of a 3x3 array read the same as those of the board it holds. */
  lemma LinesOnArray(a: array2<Cell>, g: Grid, m: Mark)
    requires a.Length0 == 3 && a.Length1 == 3
    requires forall i, j | 0 <= i < 3 && 0 <= j < 3 :: g[i][j] == a[i, j]
    ensures forall i | 0 <= i < 3 :: RowOf(g, i, m) == (a[i, 0] == m && a[i, 1] == m && a[i, 2] == m)
    ensures forall j | 0 <= j < 3 :: ColumnOf(g, j, m) == (a[0, j] == m && a[1, j] == m && a[2, j] == m)
  {
  }

  class TicTacToeGame {
    var board: array2<Cell>
    var currentPlayer: Mark

    ghost predicate Valid()
      reads this
    {
      board.Length0 == 3 && board.Length1 == 3
    }

    /** The array's contents as a board value. */
    ghost function Cells(): (g: Grid)
      requires Valid()
      reads this, board
      ensures forall i, j | 0 <= i < 3 && 0 <= j < 3 :: g[i][j] == board[i, j]
    {
      [[board[0, 0], board[0, 1], board[0, 2]],
       [board[1, 0], board[1, 1], board[1, 2]],
       [board[2, 0], board[2, 1], board[2, 2]]]
    }

    /** __init__: an empty board with X to move. */
    constructor ()
      ensures Valid() && fresh(board)
      ensures Cells() == EmptyGrid && currentPlayer == X
    {
      currentPlayer := X;
      board := new Cell[3, 3]((i, j) => Empty);
    }

    /** check_win: a full row, a full column, or either diagonal of m. */
    predicate CheckWin(m: Mark)
      requires Valid()
      reads this, board
      ensures CheckWin(m) <==> Wins(Cells(), m)
    {
      WinsIffLine(Cells(), m);
      LinesOnArray(board, Cells(), m);
      (exists i | 0 <= i < 3 :: board[i, 0] == m && board[i, 1] == m && board[i, 2] == m) ||
      (exists j | 0 <= j < 3 :: board[0, j] == m && board[1, j] == m && board[2, j] == m) ||
      (board[0, 0] == m && board[1, 1] == m && board[2, 2] == m) ||
      (board[0, 2] == m && board[1, 1] == m && board[2, 0] == m)
    }

    /** check_tie: no cell is empty, that is, there is no possible move. */
    predicate CheckTie()
      requires Valid()
      reads this, board
      ensures CheckTie() <==> Full(Cells())
      ensures CheckTie() <==> Moves(Cells()) == []
    {
      FullIffNoMoves(Cells());
      forall i, j | 0 <= i < 3 && 0 <= j < 3 :: board[i, j] != Empty
    }

    predicate IsGameOver()
      requires Valid()
      reads this, board
      ensures IsGameOver() <==> Over(Cells())
    {
      CheckWin(X) || CheckWin(O) || CheckTie()
    }

    /** evaluate: 1 when X has a line, -1 when O has one and X does not, else 0. */
    function Evaluate(): (v: int)
      requires Valid()
      reads this, board
      ensures v == Value(Cells())
      ensures v == 1 <==> Wins(Cells(), X)
      ensures v == -1 <==> !Wins(Cells(), X) && Wins(Cells(), O)
      ensures v == 0 <==> !Wins(Cells(), X) && !Wins(Cells(), O)
    {
      if CheckWin(X) then 1 else if CheckWin(O) then -1 else 0
    }

    /** get_possible_moves: the empty cells in row-major order. */
    method GetPossibleMoves() returns (moves: seq<Pos>)
      requires Valid()
      ensures moves == Moves(Cells())
    {
      ghost var b := Cells();
      moves := [];
      for i := 0 to 3
        invariant moves == RowsMoves(b, i)
      {
        for j := 0 to 3
          invariant moves == RowsMoves(b, i) + RowMoves(b, i, j)
        {
          assert b[i][j] == board[i, j];
          if board[i, j] == Empty {
            moves := moves + [Pos(i, j)];
          }
        }
      }
    }

    /** Writes c into one cell; the array afterwards holds Place(old board, p, c). */
    method SetCell(p: Pos, c: Cell)
      requires Valid()
      modifies board
      ensures Cells() == Place(old(Cells()), p, c)
    {
      board[p.row, p.col] := c;
      GridExt(Cells(), Place(old(Cells()), p, c));
    }

    /** Places mark at the empty cell move, runs minimax below it and clears
        the cell again: the apply/evaluate/undo step of minimax's and
        get_best_move's loops. */
    method TryMove(move: Pos, mark: Mark, depth: nat, maximizing: bool) returns (eval: int)
      requires Valid() && At(Cells(), move) == Empty
      modifies board
      ensures Cells() == old(Cells())
      ensures eval == Search.Minimax(Place(old(Cells()), move, mark), depth, maximizing)
      decreases depth, 1
    {
      ghost var b := Cells();
      SetCell(move, mark);
      eval := Minimax(depth, maximizing);
      SetCell(move, Empty);
      PlaceUndo(b, move, mark);
    }

    /** minimax: the search value of the board. The array is used as
        scratch space: each candidate mark is placed, searched below and
        cleared again, so the board is left exactly as it was found. */
    method Minimax(depth: nat, maximizing: bool) returns (score: int)
      requires Valid()
      modifies board
      ensures Cells() == old(Cells())
      ensures score == Search.Minimax(old(Cells()), depth, maximizing)
      ensures Over(old(Cells())) || depth == 0 ==> score == Value(old(Cells()))
      decreases depth, 0
    {
      if IsGameOver() || depth == 0 {
        return Evaluate();
      }
      if maximizing {
        score := MaxEval(depth - 1);
      } else {
        score := MinEval(depth - 1);
      }
    }

    /** The is_maximizing branch of minimax: the running max_eval over the
        possible moves, X placed at each, minimax(depth, False) below. */
    method MaxEval(depth: nat) returns (maxEval: int)
      requires Valid()
      modifies board
      ensures Cells() == old(Cells())
      ensures maxEval == Search.MaxOver(old(Cells()), Moves(old(Cells())), depth, Search.NegInf)
      decreases depth, 3
    {
      ghost var b := Cells();
      var moves := GetPossibleMoves();
      assert moves[0..] == moves;
      ghost var target := Search.MaxOver(b, moves, depth, Search.NegInf);
      maxEval := Search.NegInf;
      for i := 0 to |moves|
        invariant Cells() == b
        invariant Search.MaxOver(b, moves[i..], depth, maxEval) == target
      {
        var eval := MaxStep(b, moves, i, depth, maxEval);
        maxEval := Search.Max(maxEval, eval);
      }
    }

    /** The minimizing branch of minimax: the running min_eval over the
        possible moves, O placed at each, minimax(depth, True) below. */
    method MinEval(depth: nat) returns (minEval: int)
      requires Valid()
      modifies board
      ensures Cells() == old(Cells())
      ensures minEval == Search.MinOver(old(Cells()), Moves(old(Cells())), depth, Search.PosInf)
      decreases depth, 3
    {
      ghost var b := Cells();
      var moves := GetPossibleMoves();
      assert moves[0..] == moves;
      ghost var target := Search.MinOver(b, moves, depth, Search.PosInf);
      minEval := Search.PosInf;
      for i := 0 to |moves|
        invariant Cells() == b
        invariant Search.MinOver(b, moves[i..], depth, minEval) == target
      {
        var eval := MinStep(b, moves, i, depth, minEval);
        minEval := Search.Min(minEval, eval);
      }
    }

    /** One turn of max_eval's loop: X tried at the i-th possible move. */
    method MaxStep(ghost b: Grid, moves: seq<Pos>, i: nat, depth: nat, ghost maxEval: int) returns (eval: int)
      requires Valid() && Cells() == b && moves == Moves(b) && i < |moves|
      modifies board
      ensures Cells() == b
      ensures Search.MaxOver(b, moves[i..], depth, maxEval) == Search.MaxOver(b, moves[i + 1..], depth, Search.Max(maxEval, eval))
      decreases depth, 2
    {
      MoveIsEmpty(b, i);
      eval := TryMove(moves[i], X, depth, false);
      ghost var rest := moves[i..];
      assert rest[0] == moves[i] && rest[1..] == moves[i + 1..];
      assert Search.MaxOver(b, rest, depth, maxEval) ==
        Search.MaxOver(b, rest[1..], depth, Search.Max(maxEval, Search.Minimax(Place(b, rest[0], X), depth, false)));
    }

    /** One turn of min_eval's loop: O tried at the i-th possible move. */
    method MinStep(ghost b: Grid, moves: seq<Pos>, i: nat, depth: nat, ghost minEval: int) returns (eval: int)
      requires Valid() && Cells() == b && moves == Moves(b) && i < |moves|
      modifies board
      ensures Cells() == b
      ensures Search.MinOver(b, moves[i..], depth, minEval) == Search.MinOver(b, moves[i + 1..], depth, Search.Min(minEval, eval))
      decreases depth, 2
    {
      MoveIsEmpty(b, i);
      eval := TryMove(moves[i], O, depth, true);
      ghost var rest := moves[i..];
      assert rest[0] == moves[i] && rest[1..] == moves[i + 1..];
      assert Search.MinOver(b, rest, depth, minEval) ==
        Search.MinOver(b, rest[1..], depth, Search.Min(minEval, Search.Minimax(Place(b, rest[0], O), depth, true)));
    }

    /** One turn of get_best_move's loop: X tried at the i-th possible move
        and scored by minimax(3, False). */
    method ScoreMove(ghost b: Grid, moves: seq<Pos>, i: nat) returns (eval: int)
      requires Valid() && Cells() == b && moves == Moves(b) && i < |moves|
      modifies board
      ensures Cells() == b
      ensures eval == Search.Scores(b, moves)[i]
    {
      MoveIsEmpty(b, i);
      eval := TryMove(moves[i], X, Search.Lookahead, false);
      Search.ScoresAt(b, moves);
    }

    /** get_best_move: for each empty cell in row-major order, X is placed
        there, minimax(3, False) scores it and the cell is cleared; the first
        cell of strictly greatest score wins. The board is left unchanged. */
    method GetBestMove() returns (bestMove: Option<Pos>)
      requires Valid()
      modifies board
      ensures Cells() == old(Cells())
      ensures bestMove == Search.BestMove(old(Cells()))
    {
      ghost var b := Cells();
      bestMove := None;
      var bestEval := Search.NegInf;
      var moves := GetPossibleMoves();
      ghost var ss := Search.Scores(b, moves);
      assert moves[0..] == moves && ss[0..] == ss;
      ghost var target := Search.BestMove(b);
      for i := 0 to |moves|
        invariant Cells() == b
        invariant Search.Pick(moves[i..], ss[i..], bestEval, bestMove) == target
      {
        var move := moves[i];
        var eval := ScoreMove(b, moves, i);
        ghost var rest, restScores := moves[i..], ss[i..];
        assert rest[0] == move && rest[1..] == moves[i + 1..];
        assert restScores[0] == eval && restScores[1..] == ss[i + 1..];
        assert Search.Pick(rest, restScores, bestEval, bestMove) ==
          if eval > bestEval then Search.Pick(moves[i + 1..], ss[i + 1..], eval, Some(move))
          else Search.Pick(moves[i + 1..], ss[i + 1..], bestEval, bestMove);
        if eval > bestEval {
          bestEval := eval;
          bestMove := Some(move);
        }
      }
    }

    /** switch_player without the label update. */
    method SwitchPlayer()
      modifies this`currentPlayer
      ensures currentPlayer == Other(old(currentPlayer))
    {
      currentPlayer := if currentPlayer == O then X else O;
    }

    /** make_move(row, column): see Play. */
    method MakeMove(row: Coord, column: Coord)
      requires Valid()
      modifies this, board
      ensures Valid() && board == old(board)
      ensures State(Cells(), currentPlayer) == Play(State(old(Cells()), old(currentPlayer)), Pos(row, column))
      decreases |Moves(Cells())|
    {
      var m := Pos(row, column);
      ghost var s := State(Cells(), currentPlayer);
      if board[row, column] == Empty {
        SetCell(m, currentPlayer);
        if IsGameOver() {
          return;
        }
        SwitchPlayer();
        if currentPlayer == O {
          ghost var g := Cells();
          PlaceShrinksMoves(s.grid, m, s.player);
          Search.NotOverHasMoves(g);
          Search.BestMoveSpec(g);
          var aiMove := GetBestMove();
          MakeMove(aiMove.value.row, aiMove.value.col);
        }
      }
    }

    /** reset_game, board and turn part: a fresh empty board with X to move. */
    method ResetGame()
      modifies this
      ensures Valid() && fresh(board)
      ensures Cells() == EmptyGrid && currentPlayer == X
    {
      board := new Cell[3, 3]((i, j) => Empty);
      currentPlayer := X;
    }
  }
}
