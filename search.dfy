/** The decision engine as pure functions over board values: fixed-depth
    minimax and the top-level choice of the computer's move. */
module Search {
  import opened Board
  import opened Options

  /** Stand-ins for float('-inf') and float('inf'): below and above every real score. */
  const NegInf: int := -2
  const PosInf: int := 2

  /** The plies get_best_move searches below each candidate move. */
  const Lookahead: nat := 3

  function Max(a: int, b: int): int { if a >= b then a else b }
  function Min(a: int, b: int): int { if a <= b then a else b }

  /** minimax(depth, is_maximizing) on board b: the static value at a terminal
      board or at depth 0; otherwise the best score over the empty cells, with
      X placed when maximizing and O placed when minimizing. */
  function Minimax(b: Grid, depth: nat, maximizing: bool): int
    decreases depth, 0
  {
    if Over(b) || depth == 0 then Value(b)
    else if maximizing then MaxOver(b, Moves(b), depth - 1, NegInf)
    else MinOver(b, Moves(b), depth - 1, PosInf)
  }

  /** The running max_eval of the maximizing loop, from acc, over the moves ms. */
  function MaxOver(b: Grid, ms: seq<Pos>, depth: nat, acc: int): int
    decreases depth, |ms|
  {
    if ms == [] then acc
    else MaxOver(b, ms[1..], depth, Max(acc, Minimax(Place(b, ms[0], X), depth, false)))
  }

  /** The running min_eval of the minimizing loop, from acc, over the moves ms. */
  function MinOver(b: Grid, ms: seq<Pos>, depth: nat, acc: int): int
    decreases depth, |ms|
  {
    if ms == [] then acc
    else MinOver(b, ms[1..], depth, Min(acc, Minimax(Place(b, ms[0], O), depth, true)))
  }

  /** The score get_best_move gives candidate p: X hypothesised at p, then
      minimax with O to move. */
  function Score(b: Grid, p: Pos): int {
    Minimax(Place(b, p, X), Lookahead, false)
  }

  /** The scores of the moves ms, in order. */
  function Scores(b: Grid, ms: seq<Pos>): (ss: seq<int>)
    ensures |ss| == |ms|
  {
    if ms == [] then [] else [Score(b, ms[0])] + Scores(b, ms[1..])
  }

  /** The k-th score is the score of the k-th move. */
  lemma {:induction false} ScoresAt(b: Grid, ms: seq<Pos>)
    ensures forall k | 0 <= k < |ms| :: Scores(b, ms)[k] == Score(b, ms[k])
  {
    if ms != [] {
      ScoresAt(b, ms[1..]);
    }
  }

  /** The loop of get_best_move from (bestEval, best) over moves ms with
      scores ss: a move replaces the best so far only when its score is
      strictly greater. */
  function Pick(ms: seq<Pos>, ss: seq<int>, bestEval: int, best: Option<Pos>): Option<Pos>
    requires |ss| == |ms|
  {
    if ms == [] then best
    else if ss[0] > bestEval then Pick(ms[1..], ss[1..], ss[0], Some(ms[0]))
    else Pick(ms[1..], ss[1..], bestEval, best)
  }

  function BestMove(b: Grid): Option<Pos> {
    Pick(Moves(b), Scores(b, Moves(b)), NegInf, None)
  }

  // ---------------------------------------------------------------------
  // Score bounds

  lemma NotOverHasMoves(b: Grid)
    requires !Over(b)
    ensures Moves(b) != []
  {
    FullIffNoMoves(b);
  }

  /** Every minimax score is -1, 0 or 1: the sentinels never escape. */
  lemma {:induction false} MinimaxRange(b: Grid, depth: nat, maximizing: bool)
    ensures -1 <= Minimax(b, depth, maximizing) <= 1
    decreases depth, 0
  {
    if !(Over(b) || depth == 0) {
      NotOverHasMoves(b);
      if maximizing {
        MaxOverRange(b, Moves(b), depth - 1, NegInf);
      } else {
        MinOverRange(b, Moves(b), depth - 1, PosInf);
      }
    }
  }

  lemma {:induction false} MaxOverRange(b: Grid, ms: seq<Pos>, depth: nat, acc: int)
    requires NegInf <= acc <= 1
    requires ms != [] || acc != NegInf
    ensures -1 <= MaxOver(b, ms, depth, acc) <= 1
    decreases depth, |ms|
  {
    if ms != [] {
      MinimaxRange(Place(b, ms[0], X), depth, false);
      MaxOverRange(b, ms[1..], depth, Max(acc, Minimax(Place(b, ms[0], X), depth, false)));
    }
  }

  lemma {:induction false} MinOverRange(b: Grid, ms: seq<Pos>, depth: nat, acc: int)
    requires -1 <= acc <= PosInf
    requires ms != [] || acc != PosInf
    ensures -1 <= MinOver(b, ms, depth, acc) <= 1
    decreases depth, |ms|
  {
    if ms != [] {
      MinimaxRange(Place(b, ms[0], O), depth, true);
      MinOverRange(b, ms[1..], depth, Min(acc, Minimax(Place(b, ms[0], O), depth, true)));
    }
  }

  // ---------------------------------------------------------------------
  // The folds compute a maximum and a minimum

  /** MaxOver is the largest of acc and the scores of the moves. */
  lemma {:induction false} MaxOverIsMax(b: Grid, ms: seq<Pos>, depth: nat, acc: int)
    ensures MaxOver(b, ms, depth, acc) >= acc
    ensures forall k | 0 <= k < |ms| ::
      MaxOver(b, ms, depth, acc) >= Minimax(Place(b, ms[k], X), depth, false)
    ensures MaxOver(b, ms, depth, acc) == acc ||
      exists k | 0 <= k < |ms| :: MaxOver(b, ms, depth, acc) == Minimax(Place(b, ms[k], X), depth, false)
    decreases |ms|
  {
    if ms != [] {
      var acc' := Max(acc, Minimax(Place(b, ms[0], X), depth, false));
      MaxOverIsMax(b, ms[1..], depth, acc');
      var r := MaxOver(b, ms, depth, acc);
      assert forall k | 1 <= k < |ms| :: ms[k] == ms[1..][k - 1];
      if r != acc && r != acc' {
        var k :| 0 <= k < |ms[1..]| && r == Minimax(Place(b, ms[1..][k], X), depth, false);
        assert r == Minimax(Place(b, ms[k + 1], X), depth, false);
      }
    }
  }

  /** MinOver is the smallest of acc and the scores of the moves. */
  lemma {:induction false} MinOverIsMin(b: Grid, ms: seq<Pos>, depth: nat, acc: int)
    ensures MinOver(b, ms, depth, acc) <= acc
    ensures forall k | 0 <= k < |ms| ::
      MinOver(b, ms, depth, acc) <= Minimax(Place(b, ms[k], O), depth, true)
    ensures MinOver(b, ms, depth, acc) == acc ||
      exists k | 0 <= k < |ms| :: MinOver(b, ms, depth, acc) == Minimax(Place(b, ms[k], O), depth, true)
    decreases |ms|
  {
    if ms != [] {
      var acc' := Min(acc, Minimax(Place(b, ms[0], O), depth, true));
      MinOverIsMin(b, ms[1..], depth, acc');
      var r := MinOver(b, ms, depth, acc);
      assert forall k | 1 <= k < |ms| :: ms[k] == ms[1..][k - 1];
      if r != acc && r != acc' {
        var k :| 0 <= k < |ms[1..]| && r == Minimax(Place(b, ms[1..][k], O), depth, true);
        assert r == Minimax(Place(b, ms[k + 1], O), depth, true);
      }
    }
  }

  /** Away from the base case, with X to place, minimax is the maximum of the
      scores one ply down over the empty cells, and some empty cell attains it. */
  lemma MaximizingIsMax(b: Grid, depth: nat)
    requires !Over(b) && depth > 0
    ensures forall p | At(b, p) == Empty :: Minimax(Place(b, p, X), depth - 1, false) <= Minimax(b, depth, true)
    ensures exists p | At(b, p) == Empty :: Minimax(Place(b, p, X), depth - 1, false) == Minimax(b, depth, true)
  {
    var ms := Moves(b);
    var v := MaxOver(b, ms, depth - 1, NegInf);
    assert Minimax(b, depth, true) == v;
    MinimaxRange(b, depth, true);
    MovesExact(b);
    MaxOverIsMax(b, ms, depth - 1, NegInf);
    forall p | At(b, p) == Empty
      ensures Minimax(Place(b, p, X), depth - 1, false) <= v
    {
      assert p in ms;
      var k :| 0 <= k < |ms| && ms[k] == p;
    }
    var k :| 0 <= k < |ms| && v == Minimax(Place(b, ms[k], X), depth - 1, false);
    assert At(b, ms[k]) == Empty;
  }

  /** Away from the base case, with O to place, minimax is the minimum of the
      scores one ply down over the empty cells, and some empty cell attains it. */
  lemma MinimizingIsMin(b: Grid, depth: nat)
    requires !Over(b) && depth > 0
    ensures forall p | At(b, p) == Empty :: Minimax(Place(b, p, O), depth - 1, true) >= Minimax(b, depth, false)
    ensures exists p | At(b, p) == Empty :: Minimax(Place(b, p, O), depth - 1, true) == Minimax(b, depth, false)
  {
    var ms := Moves(b);
    var v := MinOver(b, ms, depth - 1, PosInf);
    assert Minimax(b, depth, false) == v;
    MinimaxRange(b, depth, false);
    MovesExact(b);
    MinOverIsMin(b, ms, depth - 1, PosInf);
    forall p | At(b, p) == Empty
      ensures Minimax(Place(b, p, O), depth - 1, true) >= v
    {
      assert p in ms;
      var k :| 0 <= k < |ms| && ms[k] == p;
    }
    var k :| 0 <= k < |ms| && v == Minimax(Place(b, ms[k], O), depth - 1, true);
    assert At(b, ms[k]) == Empty;
  }

  // ---------------------------------------------------------------------
  // The chosen move

  /** Score k of ss is a greatest one and every earlier score is strictly less. */
  ghost predicate FirstMax(ss: seq<int>, k: nat) {
    k < |ss| &&
    (forall j | 0 <= j < |ss| :: ss[j] <= ss[k]) &&
    (forall j | 0 <= j < k :: ss[j] < ss[k])
  }

  /** Some score of ss is above e. */
  ghost predicate Beats(ss: seq<int>, e: int) {
    exists k | 0 <= k < |ss| :: ss[k] > e
  }

  /** A first greatest score of the tail, above the head, is a first greatest score of the whole. */
  lemma FirstMaxCons(ss: seq<int>, k: nat)
    requires ss != [] && FirstMax(ss[1..], k) && ss[0] < ss[1..][k]
    ensures FirstMax(ss, k + 1)
  {
    assert forall j | 1 <= j < |ss| :: ss[j] == ss[1..][j - 1];
  }

  /** When no score beats bestEval, Pick keeps the incumbent. */
  lemma {:induction false} PickKeeps(ms: seq<Pos>, ss: seq<int>, bestEval: int, best: Option<Pos>)
    requires |ss| == |ms|
    requires !Beats(ss, bestEval)
    ensures Pick(ms, ss, bestEval, best) == best
  {
    if ms != [] {
      assert forall k | 1 <= k < |ss| :: ss[k] == ss[1..][k - 1];
      PickKeeps(ms[1..], ss[1..], bestEval, best);
    }
  }

  /** When some score beats bestEval, Pick returns the move of the first greatest score. */
  lemma {:induction false} PickFirstMax(ms: seq<Pos>, ss: seq<int>, bestEval: int, best: Option<Pos>)
    requires |ss| == |ms|
    requires Beats(ss, bestEval)
    ensures exists k: nat :: FirstMax(ss, k) && Pick(ms, ss, bestEval, best) == Some(ms[k])
  {
    var tl, stl := ms[1..], ss[1..];
    assert forall k | 1 <= k < |ss| :: ss[k] == stl[k - 1] && ms[k] == tl[k - 1];
    if ss[0] > bestEval {
      if Beats(stl, ss[0]) {
        PickFirstMax(tl, stl, ss[0], Some(ms[0]));
        var k: nat :| FirstMax(stl, k) && Pick(tl, stl, ss[0], Some(ms[0])) == Some(tl[k]);
        var k1 :| 0 <= k1 < |stl| && stl[k1] > ss[0];
        assert stl[k] >= stl[k1];
        FirstMaxCons(ss, k);
      } else {
        PickKeeps(tl, stl, ss[0], Some(ms[0]));
        assert FirstMax(ss, 0);
      }
    } else {
      var k0 :| 0 <= k0 < |ss| && ss[k0] > bestEval;
      assert stl[k0 - 1] > bestEval;
      PickFirstMax(tl, stl, bestEval, best);
      var k: nat :| FirstMax(stl, k) && Pick(tl, stl, bestEval, best) == Some(tl[k]);
      assert stl[k] >= stl[k0 - 1];
      FirstMaxCons(ss, k);
    }
  }

  /** On a board with an empty cell, get_best_move returns an empty cell of
      greatest score, the first such in row-major order; on a full board it
      returns None. */
  lemma BestMoveSpec(b: Grid)
    ensures Moves(b) == [] <==> BestMove(b) == None
    ensures Moves(b) != [] ==> BestMove(b).Some? && At(b, BestMove(b).value) == Empty
    ensures Moves(b) != [] ==> forall p | At(b, p) == Empty :: Score(b, p) <= Score(b, BestMove(b).value)
    ensures Moves(b) != [] ==> forall p | At(b, p) == Empty && Index(p) < Index(BestMove(b).value) ::
      Score(b, p) < Score(b, BestMove(b).value)
  {
    var ms := Moves(b);
    MovesExact(b);
    if ms != [] {
      MinimaxRange(Place(b, ms[0], X), Lookahead, false);
      var ss := Scores(b, ms);
      ScoresAt(b, ms);
      assert ss[0] > NegInf;
      PickFirstMax(ms, ss, NegInf, None);
      var k: nat :| FirstMax(ss, k) && BestMove(b) == Some(ms[k]);
      forall p | At(b, p) == Empty
        ensures Score(b, p) <= Score(b, ms[k])
        ensures Index(p) < Index(ms[k]) ==> Score(b, p) < Score(b, ms[k])
      {
        assert p in ms;
        var j :| 0 <= j < |ms| && ms[j] == p;
        MovesOrder(b, j, k);
        assert ss[j] == Score(b, p);
      }
    }
  }
}
