/** The tic-tac-toe minimax agent (ttt/minmaxagent.go): take an immediate win; else avoid the
    moves that let the opponent win at once; else take a two-step win; else sort the moves by
    the opponent's best result and pick from the first non-empty bucket. Go's random pick is
    any element of the chosen list. */
module TttAgent {
  import opened TttPlayers
  import opened TttResults
  import opened TttGame

  function LeavesOpponentFor(gs: GameState, r: GameResult): Move -> bool
  {
    (m: Move) => LeavesOpponent(gs, m, r)
  }

  function LeavesNeitherFor(gs: GameState): Move -> bool
  {
    (m: Move) => !LeavesOpponent(gs, m, Win) && !LeavesOpponent(gs, m, Draw)
  }

  /** The three buckets of the final stage, in row-major order. As written, the first bucket
      ("winning_moves") holds the moves after which the opponent's best result is Win. */
  function WinningMoves(gs: GameState): seq<Move>
  {
    KeepWhere(LeavesOpponentFor(gs, Win), Legal(gs), 0)
  }

  function DrawMoves(gs: GameState): seq<Move>
  {
    KeepWhere(LeavesOpponentFor(gs, Draw), Legal(gs), 0)
  }

  function LosingMoves(gs: GameState): seq<Move>
  {
    KeepWhere(LeavesNeitherFor(gs), Legal(gs), 0)
  }

  /** Which bucket a move falls into is decided by the opponent's best result after it. */
  lemma BucketOf(gs: GameState, m: Move)
    requires ApplyMove(gs, m).Some?
    ensures LeavesOpponentFor(gs, Win)(m) <==> BestResult(ApplyMove(gs, m).value) == Win
    ensures LeavesOpponentFor(gs, Draw)(m) <==> BestResult(ApplyMove(gs, m).value) == Draw
    ensures LeavesNeitherFor(gs)(m) <==> BestResult(ApplyMove(gs, m).value) != Win && BestResult(ApplyMove(gs, m).value) != Draw
  {
  }

  function FirstNonEmpty(a: seq<Move>, b: seq<Move>, c: seq<Move>): seq<Move>
  {
    if a != [] then a else if b != [] then b else c
  }

  /** The agent's first two checks both fail: the mover has no immediate win and every move
      lets the opponent win at once. */
  predicate NoWinNoSafeMove(gs: GameState)
  {
    FindWinningMove(gs, gs.turn).None? && EliminateLosingMove(gs, gs.turn) == []
  }

  /** MinimaxAgent.SelectMove. With no legal move Go's rand.Intn(0) panics, so the game must not
      be over. */
  method SelectMove(gs: GameState) returns (m: Move)
    requires !IsOver(gs)
    ensures m in Legal(gs)
    ensures FindWinningMove(gs, gs.turn).Some? ==> m == FindWinningMove(gs, gs.turn).value
    ensures FindWinningMove(gs, gs.turn).None? && EliminateLosingMove(gs, gs.turn) != [] ==>
              m in EliminateLosingMove(gs, gs.turn)
    ensures NoWinNoSafeMove(gs) && FindTwoStepWin(gs, gs.turn).Some? ==> m == FindTwoStepWin(gs, gs.turn).value
    ensures NoWinNoSafeMove(gs) && FindTwoStepWin(gs, gs.turn).None? ==>
              m in FirstNonEmpty(WinningMoves(gs), DrawMoves(gs), LosingMoves(gs))
  {
    var move := FindWinningMove(gs, gs.turn);
    if move.Some? {
      return move.value;
    }
    var moveArr := EliminateLosingMove(gs, gs.turn);
    if |moveArr| > 0 {
      var i :| 0 <= i < |moveArr|;
      return moveArr[i];
    }
    var move2 := FindTwoStepWin(gs, gs.turn);
    if move2.Some? {
      return move2.value;
    }
    m := FromBuckets(gs);
  }

  /** One turn of the bucketing loop: the move at position i goes to the bucket that the
      opponent's best result after it names. */
  method SortMove(gs: GameState, legal: seq<Move>, i: nat, winning_moves: seq<Move>, draw_moves: seq<Move>,
                  losing_moves: seq<Move>)
    returns (winning: seq<Move>, draw: seq<Move>, losing: seq<Move>)
    requires i < |legal| && ApplyMove(gs, legal[i]).Some?
    ensures winning_moves + KeepWhere(LeavesOpponentFor(gs, Win), legal, i)
            == winning + KeepWhere(LeavesOpponentFor(gs, Win), legal, i + 1)
    ensures draw_moves + KeepWhere(LeavesOpponentFor(gs, Draw), legal, i)
            == draw + KeepWhere(LeavesOpponentFor(gs, Draw), legal, i + 1)
    ensures losing_moves + KeepWhere(LeavesNeitherFor(gs), legal, i)
            == losing + KeepWhere(LeavesNeitherFor(gs), legal, i + 1)
  {
    var possible_move := legal[i];
    var next_state := ApplyMove(gs, possible_move).value;
    var opponent_best_result := BestResult(next_state);
    KeepWhereStep(LeavesOpponentFor(gs, Win), legal, i, winning_moves);
    KeepWhereStep(LeavesOpponentFor(gs, Draw), legal, i, draw_moves);
    KeepWhereStep(LeavesNeitherFor(gs), legal, i, losing_moves);
    BucketOf(gs, possible_move);
    winning, draw, losing := winning_moves, draw_moves, losing_moves;
    if opponent_best_result == Win {
      winning := winning_moves + [possible_move];
    } else if opponent_best_result == Draw {
      draw := draw_moves + [possible_move];
    } else {
      losing := losing_moves + [possible_move];
    }
  }

  /** The final stage: the bucketing loop and the pick. */
  method FromBuckets(gs: GameState) returns (m: Move)
    requires !IsOver(gs)
    ensures m in Legal(gs)
    ensures m in FirstNonEmpty(WinningMoves(gs), DrawMoves(gs), LosingMoves(gs))
  {
    var okW, okD, okL := LeavesOpponentFor(gs, Win), LeavesOpponentFor(gs, Draw), LeavesNeitherFor(gs);
    var winning_moves, draw_moves, losing_moves := [], [], [];
    var legal := GetAllLegalMoves(gs);
    var i := 0;
    while i < |legal|
      invariant 0 <= i <= |legal|
      invariant winning_moves + KeepWhere(okW, legal, i) == WinningMoves(gs)
      invariant draw_moves + KeepWhere(okD, legal, i) == DrawMoves(gs)
      invariant losing_moves + KeepWhere(okL, legal, i) == LosingMoves(gs)
    {
      var possible_move := legal[i];
      ApplyMoveFacts(gs, possible_move);
      winning_moves, draw_moves, losing_moves := SortMove(gs, legal, i, winning_moves, draw_moves, losing_moves);
      i := i + 1;
    }
    assert KeepWhere(okW, legal, i) == [] && KeepWhere(okD, legal, i) == [] && KeepWhere(okL, legal, i) == [];
    assert winning_moves == WinningMoves(gs) && draw_moves == DrawMoves(gs) && losing_moves == LosingMoves(gs);
    BucketsCoverLegal(gs);
    m := PickFirstNonEmpty(winning_moves, draw_moves, losing_moves);
  }

  /** Go's rand.Intn(len) index into the first non-empty of the three lists. */
  method PickFirstNonEmpty(a: seq<Move>, b: seq<Move>, c: seq<Move>) returns (m: Move)
    requires a != [] || b != [] || c != []
    ensures m in FirstNonEmpty(a, b, c)
  {
    if |a| > 0 {
      var k :| 0 <= k < |a|;
      m := a[k];
    } else if |b| > 0 {
      var k :| 0 <= k < |b|;
      m := b[k];
    } else {
      var k :| 0 <= k < |c|;
      m := c[k];
    }
  }

  /** The three buckets split the legal moves: each legal move is in exactly one of them, and
      they hold nothing else. An unfinished game leaves at least one of them non-empty. */
  lemma BucketsCoverLegal(gs: GameState)
    ensures forall m :: m in Legal(gs) <==> m in WinningMoves(gs) || m in DrawMoves(gs) || m in LosingMoves(gs)
    ensures forall m :: !(m in WinningMoves(gs) && m in DrawMoves(gs))
    ensures forall m :: !(m in LosingMoves(gs) && (m in WinningMoves(gs) || m in DrawMoves(gs)))
    ensures !IsOver(gs) ==> WinningMoves(gs) != [] || DrawMoves(gs) != [] || LosingMoves(gs) != []
  {
    assert Legal(gs)[0..] == Legal(gs);
    if !IsOver(gs) {
      LegalEmptyIffOver(gs);
      assert Legal(gs)[0] in Legal(gs);
    }
  }

  /** When m is not safe, the opponent's immediate win after m ends the game with the mover of
      gs beaten: the opponent's best result after m is Win. */
  lemma ReplyWinsAtOnce(gs: GameState, m: Move)
    requires m in Legal(gs) && !Safe(gs, gs.turn, m)
    ensures LeavesOpponent(gs, m, Win)
  {
    ApplyMoveFacts(gs, m);
    var next := ApplyMove(gs, m).value;
    var reply := FindWinningMove(next, Other(gs.turn)).value;
    LegalEmptyIffOver(next);
    ApplyMoveFacts(next, reply);
    var after := ApplyMove(next, reply).value;
    assert after.turn == Other(Other(gs.turn)) != Other(gs.turn);
    BestResultIsMax(after);
    assert BestResult(after) == Loss;
    BestResultIsMax(next);
    assert Ours(next, reply) == Win;
    BestResultIsOutcome(next);
  }

  /** That winning reply ends the game, so the mover of gs has no move after it, let alone an
      immediate win: it is a reply that avoids losing at once, and m is no two-step win. */
  lemma ReplyAvoidsLoss(gs: GameState, m: Move)
    requires m in Legal(gs) && !Safe(gs, gs.turn, m)
    ensures !Forces(gs, gs.turn, m)
  {
    ApplyMoveFacts(gs, m);
    var next := ApplyMove(gs, m).value;
    var reply := FindWinningMove(next, Other(gs.turn)).value;
    ApplyMoveFacts(next, reply);
    var after := ApplyMove(next, reply).value;
    LegalEmptyIffOver(after);
    assert Safe(next, Other(gs.turn), reply);
    assert reply in EliminateLosingMove(next, Other(gs.turn));
  }

  /** When no move is safe, every move leaves the opponent a win with best play: the first
      bucket holds every legal move and the other two are empty. So the bucket named
      "winning_moves" is the only one the agent can ever pick from. */
  lemma BucketsWhenNoSafeMove(gs: GameState)
    requires EliminateLosingMove(gs, gs.turn) == []
    ensures forall m :: m in WinningMoves(gs) <==> m in Legal(gs)
    ensures forall m :: m !in DrawMoves(gs) && m !in LosingMoves(gs)
  {
    assert Legal(gs)[0..] == Legal(gs);
    forall m | m in Legal(gs)
      ensures LeavesOpponent(gs, m, Win)
    {
      ReplyWinsAtOnce(gs, m);
    }
  }

  /** When no move is safe, no move is a two-step win either: the opponent's immediate win is
      always a reply that avoids losing at once, since it ends the game. The agent's third check
      never succeeds. */
  lemma NoTwoStepWinWithoutSafeMove(gs: GameState)
    requires EliminateLosingMove(gs, gs.turn) == []
    ensures FindTwoStepWin(gs, gs.turn).None?
  {
    forall m | m in Legal(gs)
      ensures !Forces(gs, gs.turn, m)
    {
      ReplyAvoidsLoss(gs, m);
    }
  }
}
