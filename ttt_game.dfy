/** A tic-tac-toe position and its exhaustive search (ttt/gamestate.go). States are values: a
    move builds a new state from a copy of the board and never changes the old one. */
module TttGame {
  import W = Wrappers
  import opened Points
  import opened TttPlayers
  import opened TttResults
  import opened TttBoards

  /** A move of tic-tac-toe names the cell to mark; P is the only field the game reads. */
  datatype Move = Move(P: Point)

  datatype GameState = GameState(board: Grid, turn: Player, lastMove: W.Option<Move>)

  /** NewGameState: an empty board, X to move, no move yet. */
  function NewGameState(): (gs: GameState)
    ensures gs.turn == X && gs.lastMove.None?
    ensures forall p :: Get(gs.board, p) == None
  {
    GameState(map[], X, W.None)
  }

  /** Winner: X if X has three in a row, else O if O has, else None. */
  function Winner(gs: GameState): Player
  {
    if Has3InARow(gs.board, X) then X else if Has3InARow(gs.board, O) then O else None
  }

  /** Winner checks X before O: X wins whenever X has a line, O only when X has none, and
      nobody when neither has one. */
  lemma WinnerRule(gs: GameState)
    ensures Winner(gs) == X <==> ThreeInARow(gs.board, X)
    ensures Winner(gs) == O <==> !ThreeInARow(gs.board, X) && ThreeInARow(gs.board, O)
    ensures Winner(gs) == None <==> !ThreeInARow(gs.board, X) && !ThreeInARow(gs.board, O)
  {
    Has3InARowIsRule(gs.board, X);
    Has3InARowIsRule(gs.board, O);
  }

  /** IsOver: somebody has won, or no cell of the grid is empty. */
  predicate IsOver(gs: GameState)
  {
    Winner(gs) != None || EmptyCells(gs.board) == {}
  }

  lemma IsOverRule(gs: GameState)
    ensures IsOver(gs) <==>
              ThreeInARow(gs.board, X) || ThreeInARow(gs.board, O)
              || forall k: nat | k < 9 :: Get(gs.board, Cell(k)) != None
  {
    WinnerRule(gs);
    if forall k: nat | k < 9 :: Get(gs.board, Cell(k)) != None {
      assert EmptyCells(gs.board) == {};
    }
    if EmptyCells(gs.board) == {} {
      forall k: nat | k < 9
        ensures Get(gs.board, Cell(k)) != None
      {
        assert k !in EmptyCells(gs.board);
      }
    }
  }

  /** IsValidMove: the cell is empty and the game goes on. The cell is not checked against the
      grid; only on-grid cells are ever offered. */
  predicate IsValidMove(gs: GameState, m: Move)
  {
    Get(gs.board, m.P) == None && !IsOver(gs)
  }

  /** The valid moves among the cells from position k on, in row-major order. */
  function LegalFrom(gs: GameState, k: nat): seq<Move>
    requires k <= 9
    decreases 9 - k
  {
    if k == 9 then []
    else (if IsValidMove(gs, Move(Cell(k))) then [Move(Cell(k))] else []) + LegalFrom(gs, k + 1)
  }

  /** GetAllLegalMoves, as a value. */
  function Legal(gs: GameState): seq<Move>
  {
    LegalFrom(gs, 0)
  }

  /** Moves in strictly increasing row-major order of their cells. */
  predicate RowMajor(ms: seq<Move>)
  {
    forall a, b :: 0 <= a < b < |ms| ==> Before(ms[a].P, ms[b].P)
  }

  lemma {:induction false} LegalFromFacts(gs: GameState, k: nat)
    requires k <= 9
    ensures forall m :: m in LegalFrom(gs, k) <==> IsOnGrid(m.P) && k <= CellIndex(m.P) && IsValidMove(gs, m)
    ensures RowMajor(LegalFrom(gs, k))
    ensures IsOver(gs) ==> LegalFrom(gs, k) == []
    decreases 9 - k
  {
    if k < 9 {
      LegalFromFacts(gs, k + 1);
      var rest := LegalFrom(gs, k + 1);
      forall m | m in rest
        ensures Before(Cell(k), m.P)
      {
        CellsInOrder(k, CellIndex(m.P));
      }
      forall m: Move | IsOnGrid(m.P) && k <= CellIndex(m.P) && IsValidMove(gs, m)
        ensures m in LegalFrom(gs, k)
      {
        if CellIndex(m.P) == k {
          assert m == Move(Cell(k));
        }
      }
    }
  }

  /** The legal moves are exactly the valid on-grid moves, listed in row-major order. */
  lemma LegalMovesExactly(gs: GameState)
    ensures forall m :: m in Legal(gs) <==> IsOnGrid(m.P) && IsValidMove(gs, m)
    ensures RowMajor(Legal(gs))
    ensures IsOver(gs) ==> Legal(gs) == []
  {
    LegalFromFacts(gs, 0);
  }

  /** A game that is not over has a legal move, and a finished one has none. */
  lemma LegalEmptyIffOver(gs: GameState)
    ensures Legal(gs) == [] <==> IsOver(gs)
  {
    LegalMovesExactly(gs);
    if !IsOver(gs) {
      var k :| k in EmptyCells(gs.board);
      assert Move(Cell(k)) in Legal(gs);
    }
  }

  /** One step of the row-major scan: the cell at position k is listed first when it is valid. */
  lemma LegalFromStep(gs: GameState, k: nat, move: Move, moves: seq<Move>)
    requires k < 9 && move == Move(Cell(k))
    ensures moves + LegalFrom(gs, k)
            == (if IsValidMove(gs, move) then moves + [move] else moves) + LegalFrom(gs, k + 1)
  {
    var head, rest := if IsValidMove(gs, move) then [move] else [], LegalFrom(gs, k + 1);
    assert LegalFrom(gs, k) == head + rest;
    assert moves + (head + rest) == (moves + head) + rest;
    assert moves + head == if IsValidMove(gs, move) then moves + [move] else moves;
  }

  /** GetAllLegalMoves: every cell of every row, checked in turn. */
  method GetAllLegalMoves(gs: GameState) returns (moves: seq<Move>)
    ensures moves == Legal(gs)
  {
    moves := [];
    var row := 1;
    while row <= BOARD_SIZE
      invariant 1 <= row <= BOARD_SIZE + 1
      invariant moves + LegalFrom(gs, 3 * (row - 1)) == Legal(gs)
    {
      var col := 1;
      while col <= BOARD_SIZE
        invariant 1 <= col <= BOARD_SIZE + 1
        invariant moves + LegalFrom(gs, 3 * (row - 1) + col - 1) == Legal(gs)
      {
        var move := Move(Point(row, col));
        var k := 3 * (row - 1) + col - 1;
        CellAt(row, col);
        LegalFromStep(gs, k, move, moves);
        if IsValidMove(gs, move) {
          moves := moves + [move];
        }
        col := col + 1;
      }
      row := row + 1;
    }
    assert moves + LegalFrom(gs, 9) == moves;
  }

  /** ApplyMove: the mover's mark on a copy of the board, the turn to the other side, and the
      move remembered. None where Go panics in Place. */
  function ApplyMove(gs: GameState, m: Move): W.Option<GameState>
  {
    match PlaceIn(gs.board, gs.turn, m.P)
    case None => W.None
    case Some(next) => W.Some(GameState(next, Other(gs.turn), W.Some(m)))
  }

  /** A move is accepted exactly on an empty on-grid cell; then it marks that cell with the
      mover, leaves every other cell as it was, and passes the turn. Legal moves are always
      accepted. */
  lemma ApplyMoveFacts(gs: GameState, m: Move)
    ensures ApplyMove(gs, m).Some? <==> IsOnGrid(m.P) && Get(gs.board, m.P) == None
    ensures m in Legal(gs) ==> ApplyMove(gs, m).Some?
    ensures ApplyMove(gs, m).Some? ==>
              var next := ApplyMove(gs, m).value;
              Get(next.board, m.P) == gs.turn && next.turn == Other(gs.turn) && next.lastMove == W.Some(m)
              && forall q :: q != m.P ==> Get(next.board, q) == Get(gs.board, q)
  {
    LegalMovesExactly(gs);
    PlaceSetsOneCell(gs.board, gs.turn, m.P);
  }

  /** ApplyMove on the board object: copy, then place on the copy. The receiver's board is
      left as it was, and the copy holds the board of the new state. */
  method ApplyMoveOn(b: Board, gs: GameState, m: Move) returns (ok: bool, next: Board)
    requires b.grid == gs.board
    ensures fresh(next)
    ensures b.grid == gs.board
    ensures ok <==> ApplyMove(gs, m).Some?
    ensures ok ==> next.grid == ApplyMove(gs, m).value.board
  {
    next := b.DeepCopy();
    ok := next.Place(gs.turn, m.P);
  }

  /** Twice the number of empty cells, plus one while the turn is None: every accepted move
      lowers it, since a mark fills a cell and None can only move once. */
  function Measure(gs: GameState): nat
  {
    2 * |EmptyCells(gs.board)| + (if gs.turn == None then 1 else 0)
  }

  lemma MeasureDrops(gs: GameState, m: Move)
    requires ApplyMove(gs, m).Some?
    ensures Measure(ApplyMove(gs, m).value) < Measure(gs)
  {
    PlaceShrinksEmpty(gs.board, gs.turn, m.P);
  }

  /** The result of a finished game for the player to move: Go's switch tries the mover first,
      then None, so a turn of None on a drawn board reads as a win. */
  function Outcome(gs: GameState): GameResult
  {
    var w := Winner(gs);
    if w == gs.turn then Win else if w == None then Draw else Loss
  }

  /** The best of best and the values of ms[i..], keeping the earlier one on ties. */
  function BestFrom(value: Move -> GameResult, ms: seq<Move>, i: nat, best: GameResult): (r: GameResult)
    requires i <= |ms|
    ensures best <= r
    ensures forall j :: i <= j < |ms| ==> value(ms[j]) <= r
    ensures r == best || exists j :: i <= j < |ms| && r == value(ms[j])
    decreases |ms| - i
  {
    if i == |ms| then best
    else BestFrom(value, ms, i + 1, if value(ms[i]) > best then value(ms[i]) else best)
  }

  /** BestResult: a finished game is scored by Outcome; otherwise the best, starting from Loss,
      of the reversed results of the opponent after each legal move. */
  function BestResult(gs: GameState): GameResult
    decreases Measure(gs), 2
  {
    if IsOver(gs) then Outcome(gs) else BestFrom(ResultOf(gs), Legal(gs), 0, Loss)
  }

  function ResultOf(gs: GameState): Move -> GameResult
    decreases Measure(gs), 1
  {
    (m: Move) => Ours(gs, m)
  }

  /** What a move is worth to the mover: the reverse of the opponent's best result. */
  function Ours(gs: GameState, m: Move): GameResult
    decreases Measure(gs), 0
  {
    match ApplyMove(gs, m)
    case None => Loss
    case Some(next) =>
      MeasureDrops(gs, m);
      Reverse(BestResult(next))
  }

  /** BestResult is the negamax value: on a finished game, Win, Draw or Loss as the winner is the
      mover, nobody or somebody else; otherwise at least as good as every legal move, and
      reached by one of them. */
  lemma BestResultIsMax(gs: GameState)
    ensures IsOver(gs) ==> BestResult(gs) == Outcome(gs)
    ensures !IsOver(gs) ==> forall m :: m in Legal(gs) ==> Ours(gs, m) <= BestResult(gs)
    ensures !IsOver(gs) ==> exists m :: m in Legal(gs) && BestResult(gs) == Ours(gs, m)
  {
    if !IsOver(gs) {
      var ms := Legal(gs);
      var value := ResultOf(gs);
      assert forall m :: value(m) == Ours(gs, m);
      forall m | m in ms
        ensures Ours(gs, m) <= BestResult(gs)
      {
        var j :| 0 <= j < |ms| && ms[j] == m;
        assert value(ms[j]) <= BestResult(gs);
      }
      if BestResult(gs) == Loss {
        LegalEmptyIffOver(gs);
        assert Ours(gs, ms[0]) <= Loss;
        assert BestResult(gs) == Ours(gs, ms[0]);
      } else {
        var j :| 0 <= j < |ms| && BestResult(gs) == value(ms[j]);
        assert BestResult(gs) == Ours(gs, ms[j]);
      }
    }
  }

  /** Every position is worth one of the three outcomes. */
  lemma BestResultIsOutcome(gs: GameState)
    ensures IsOutcome(BestResult(gs))
  {
    BestResultIsMax(gs);
  }

  /** The move is accepted, and the opponent's best result afterwards is r. */
  predicate LeavesOpponent(gs: GameState, m: Move, r: GameResult)
  {
    ApplyMove(gs, m).Some? && BestResult(ApplyMove(gs, m).value) == r
  }

  /** The mover wins with best play exactly when the game is already won by the mover, or some
      legal move leaves the opponent lost with best play. */
  lemma WinIffSomeMoveBeatsOpponent(gs: GameState)
    ensures BestResult(gs) == Win <==>
              (IsOver(gs) && Outcome(gs) == Win)
              || (!IsOver(gs) && exists m :: m in Legal(gs) && LeavesOpponent(gs, m, Loss))
  {
    BestResultIsMax(gs);
    if !IsOver(gs) {
      LegalMovesExactly(gs);
      forall m | m in Legal(gs)
        ensures Ours(gs, m) == Reverse(BestResult(ApplyMove(gs, m).value))
      {
        ApplyMoveFacts(gs, m);
      }
      if exists m :: m in Legal(gs) && LeavesOpponent(gs, m, Loss) {
        var m :| m in Legal(gs) && LeavesOpponent(gs, m, Loss);
        assert Ours(gs, m) == Win;
      }
      if BestResult(gs) == Win {
        var m :| m in Legal(gs) && BestResult(gs) == Ours(gs, m);
        var next := ApplyMove(gs, m).value;
        BestResultIsOutcome(next);
        assert BestResult(next) == Loss;
      }
    }
  }

  /** The first of ms[i..] that ok accepts, if any. */
  function FirstWhere(ok: Move -> bool, ms: seq<Move>, i: nat): (r: W.Option<Move>)
    requires i <= |ms|
    ensures r.None? <==> forall j :: i <= j < |ms| ==> !ok(ms[j])
    ensures r.Some? ==>
              exists j :: i <= j < |ms| && ms[j] == r.value && ok(ms[j]) && forall k :: i <= k < j ==> !ok(ms[k])
    decreases |ms| - i
  {
    if i == |ms| then W.None
    else if ok(ms[i]) then W.Some(ms[i])
    else FirstWhere(ok, ms, i + 1)
  }

  /** In a row-major list, the first move ok accepts comes before every other such move. */
  lemma FirstInOrder(ok: Move -> bool, ms: seq<Move>)
    requires RowMajor(ms)
    ensures FirstWhere(ok, ms, 0).None? <==> forall m :: m in ms ==> !ok(m)
    ensures FirstWhere(ok, ms, 0).Some? ==>
              FirstWhere(ok, ms, 0).value in ms && ok(FirstWhere(ok, ms, 0).value)
              && forall m :: m in ms && Before(m.P, FirstWhere(ok, ms, 0).value.P) ==> !ok(m)
  {
    var r := FirstWhere(ok, ms, 0);
    if r.Some? {
      var j :| 0 <= j < |ms| && ms[j] == r.value && ok(ms[j]) && forall k :: 0 <= k < j ==> !ok(ms[k]);
      forall m | m in ms && Before(m.P, r.value.P)
        ensures !ok(m)
      {
        var k :| 0 <= k < |ms| && ms[k] == m;
        if j <= k {
          assert false;
        }
      }
    }
  }

  /** The moves of ms[i..] that ok accepts, in their order. */
  function KeepWhere(ok: Move -> bool, ms: seq<Move>, i: nat): (r: seq<Move>)
    requires i <= |ms|
    ensures forall m :: m in r <==> m in ms[i..] && ok(m)
    decreases |ms| - i
  {
    if i == |ms| then []
    else
      assert ms[i..] == [ms[i]] + ms[i + 1..];
      (if ok(ms[i]) then [ms[i]] else []) + KeepWhere(ok, ms, i + 1)
  }

  /** Keeping some moves of a row-major list leaves them in row-major order. */
  lemma {:induction false} KeepWhereInOrder(ok: Move -> bool, ms: seq<Move>, i: nat)
    requires i <= |ms| && RowMajor(ms)
    ensures RowMajor(KeepWhere(ok, ms, i))
    decreases |ms| - i
  {
    if i < |ms| {
      KeepWhereInOrder(ok, ms, i + 1);
      var rest := KeepWhere(ok, ms, i + 1);
      forall m | m in rest
        ensures Before(ms[i].P, m.P)
      {
        var k :| i + 1 <= k < |ms| && ms[k] == m;
      }
    }
  }

  /** One step of a scan that appends the accepted moves to an accumulator. */
  lemma KeepWhereStep(ok: Move -> bool, ms: seq<Move>, i: nat, acc: seq<Move>)
    requires i < |ms|
    ensures acc + KeepWhere(ok, ms, i) == (if ok(ms[i]) then acc + [ms[i]] else acc) + KeepWhere(ok, ms, i + 1)
  {
    if ok(ms[i]) {
      assert acc + KeepWhere(ok, ms, i) == (acc + [ms[i]]) + KeepWhere(ok, ms, i + 1);
    } else {
      assert KeepWhere(ok, ms, i) == KeepWhere(ok, ms, i + 1);
    }
  }

  /** The move is accepted and, once played, ends the game with p as the winner. */
  predicate WinsAtOnce(gs: GameState, p: Player, m: Move)
  {
    ApplyMove(gs, m).Some? && IsOver(ApplyMove(gs, m).value) && Winner(ApplyMove(gs, m).value) == p
  }

  function WinsAtOnceFor(gs: GameState, p: Player): Move -> bool
  {
    (m: Move) => WinsAtOnce(gs, p, m)
  }

  /** Find_Winning_Move: the first legal move, in row-major order, after which the game is over
      and won by p; None when there is none. */
  function FindWinningMove(gs: GameState, p: Player): (r: W.Option<Move>)
    ensures r.None? <==> forall m :: m in Legal(gs) ==> !WinsAtOnce(gs, p, m)
    ensures r.Some? ==> r.value in Legal(gs) && WinsAtOnce(gs, p, r.value)
    ensures r.Some? ==>
              forall m :: m in Legal(gs) && Before(m.P, r.value.P) ==> !WinsAtOnce(gs, p, m)
  {
    var ms, ok := Legal(gs), WinsAtOnceFor(gs, p);
    LegalMovesExactly(gs);
    FirstInOrder(ok, ms);
    assert forall m :: ok(m) == WinsAtOnce(gs, p, m);
    FirstWhere(ok, ms, 0)
  }


  /** After m the opponent of p has no move that wins at once. */
  predicate Safe(gs: GameState, p: Player, m: Move)
  {
    ApplyMove(gs, m).Some? && FindWinningMove(ApplyMove(gs, m).value, Other(p)).None?
  }

  function SafeFor(gs: GameState, p: Player): Move -> bool
  {
    (m: Move) => Safe(gs, p, m)
  }

  /** Eliminate_Losing_Move: the legal moves, kept in row-major order, after which the opponent
      of p cannot win at once. */
  function EliminateLosingMove(gs: GameState, p: Player): (r: seq<Move>)
    ensures forall m :: m in r <==> m in Legal(gs) && Safe(gs, p, m)
    ensures RowMajor(r)
  {
    var ms, ok := Legal(gs), SafeFor(gs, p);
    LegalMovesExactly(gs);
    assert ms[0..] == ms;
    assert forall m :: ok(m) == Safe(gs, p, m);
    KeepWhereInOrder(ok, ms, 0);
    KeepWhere(ok, ms, 0)
  }

  /** After m every reply of p's opponent lets p win at once, or the opponent has no reply. */
  predicate Forces(gs: GameState, p: Player, m: Move)
  {
    ApplyMove(gs, m).Some? && |EliminateLosingMove(ApplyMove(gs, m).value, Other(p))| <= 0
  }

  function ForcesFor(gs: GameState, p: Player): Move -> bool
  {
    (m: Move) => Forces(gs, p, m)
  }

  /** Find_Two_Step_Win: the first legal move after which the opponent has no move that avoids
      an immediate loss; None when there is none. */
  function FindTwoStepWin(gs: GameState, p: Player): (r: W.Option<Move>)
    ensures r.None? <==> forall m :: m in Legal(gs) ==> !Forces(gs, p, m)
    ensures r.Some? ==> r.value in Legal(gs) && Forces(gs, p, r.value)
    ensures r.Some? ==>
              forall m :: m in Legal(gs) && Before(m.P, r.value.P) ==> !Forces(gs, p, m)
  {
    var ms, ok := Legal(gs), ForcesFor(gs, p);
    LegalMovesExactly(gs);
    FirstInOrder(ok, ms);
    assert forall m :: ok(m) == Forces(gs, p, m);
    FirstWhere(ok, ms, 0)
  }


  /** A mover who can win at once wins with best play. */
  lemma ImmediateWinIsWin(gs: GameState)
    requires IsMark(gs.turn)
    requires FindWinningMove(gs, gs.turn).Some?
    ensures BestResult(gs) == Win
  {
    var m := FindWinningMove(gs, gs.turn).value;
    var next := ApplyMove(gs, m).value;
    LegalEmptyIffOver(gs);
    ApplyMoveFacts(gs, m);
    BestResultIsMax(next);
    assert BestResult(next) == Loss;
    BestResultIsMax(gs);
    assert Ours(gs, m) == Win;
    BestResultIsOutcome(gs);
  }
}
