/** The depth-pruned searcher (botPruned.go): negamax to a fixed depth, scoring finished games
    as a win or a loss for the player to move and cut-off positions with an evaluation
    function. A failing ApplyMove, on which Go panics or exits, makes the search give no
    value. */
module DepthPruned {
  import opened Wrappers
  import opened Boards
  import opened Moves
  import opened GameStates
  import Players

  const MAX_SCORE: int := 999999
  const MIN_SCORE: int := -999999

  lemma ScoresSymmetric()
    ensures MIN_SCORE == -MAX_SCORE && MIN_SCORE < 0 < MAX_SCORE
  {
  }

  /** An evaluation function whose values stay within the two scores. */
  ghost predicate Bounded(evalFn: GameState -> int)
  {
    forall g :: MIN_SCORE <= evalFn(g) <= MAX_SCORE
  }

  /** A result within the two scores, or none. */
  predicate InRange(r: Option<int>)
  {
    r.Some? ==> MIN_SCORE <= r.value <= MAX_SCORE
  }

  /** The loop of BestResult over the moves ms from the i-th on, with best_so_far as best and
      the value of each move given by value: a greater value replaces best; a move without a
      value (Go panics) stops the loop without one. */
  function MaxFrom(value: Move -> Option<int>, ms: seq<Move>, i: nat, best: int): Option<int>
    requires i <= |ms|
    decreases |ms| - i
  {
    if i == |ms| then Some(best)
    else
      match value(ms[i])
      case None => None
      case Some(o) => MaxFrom(value, ms, i + 1, if o > best then o else best)
  }

  /** The loop computes the maximum of best and the values: it is at least best and every
      value, and it is best or one of them. It gives no value exactly when some move has
      none. */
  lemma {:induction false} MaxFromIsMax(value: Move -> Option<int>, ms: seq<Move>, i: nat, best: int)
    requires i <= |ms|
    ensures var r := MaxFrom(value, ms, i, best);
      && (r.None? <==> exists k :: i <= k < |ms| && value(ms[k]).None?)
      && (r.Some? ==>
            && r.value >= best
            && (forall k :: i <= k < |ms| ==> r.value >= value(ms[k]).value)
            && (r.value == best || exists k :: i <= k < |ms| && r.value == value(ms[k]).value))
    decreases |ms| - i
  {
    if i < |ms| {
      var o := value(ms[i]);
      if o.Some? {
        MaxFromIsMax(value, ms, i + 1, if o.value > best then o.value else best);
      }
    }
  }

  /** GameState.BestResult: MAX_SCORE or MIN_SCORE on a finished game as the player to move has
      won or not, evalFn at depth 0, otherwise the greatest value, from MIN_SCORE, of the legal
      moves searched one level shallower. */
  function BestResult(gs: GameState, depth: nat, evalFn: GameState -> int): Option<int>
    requires Indexed(gs.board)
    decreases depth, 0
  {
    if IsOver(gs) then Some(if Winner(gs) == gs.turn then MAX_SCORE else MIN_SCORE)
    else if depth == 0 then Some(evalFn(gs))
    else MaxFrom(ValueOf(gs, depth - 1, evalFn), Legal(gs), 0, MIN_SCORE)
  }

  /** Ours as a function of the move alone. */
  function ValueOf(gs: GameState, depth: nat, evalFn: GameState -> int): Move -> Option<int>
    decreases depth, 2
  {
    (m: Move) => if Indexed(gs.board) then Ours(gs, m, depth, evalFn) else None
  }

  /** The value of a move for the player making it: the negated result of the state it leads
      to, searched to the given depth; none when the move fails. */
  function Ours(gs: GameState, m: Move, depth: nat, evalFn: GameState -> int): Option<int>
    requires Indexed(gs.board)
    decreases depth, 1
  {
    var (next, err) := ApplyMove(gs, m);
    if err.Some? then None
    else
      match BestResult(next, depth, evalFn)
      case None => None
      case Some(v) => Some(-v)
  }

  /** On an unfinished position searched at least one level deep, BestResult is the maximum
      of MIN_SCORE and the values of the legal moves. */
  lemma BestResultIsMax(gs: GameState, depth: nat, evalFn: GameState -> int)
    requires Indexed(gs.board) && !IsOver(gs) && depth >= 1
    ensures var r := BestResult(gs, depth, evalFn);
      && (r.None? <==> exists m :: m in Legal(gs) && Ours(gs, m, depth - 1, evalFn).None?)
      && (r.Some? ==>
            && r.value >= MIN_SCORE
            && (forall m :: m in Legal(gs) ==> r.value >= Ours(gs, m, depth - 1, evalFn).value)
            && (r.value == MIN_SCORE || exists m :: m in Legal(gs) && r.value == Ours(gs, m, depth - 1, evalFn).value))
  {
    var ms, value := Legal(gs), ValueOf(gs, depth - 1, evalFn);
    MaxFromIsMax(value, ms, 0, MIN_SCORE);
    assert forall k :: 0 <= k < |ms| ==> value(ms[k]) == Ours(gs, ms[k], depth - 1, evalFn);
    var r := BestResult(gs, depth, evalFn);
    if r.None? {
      var k :| 0 <= k < |ms| && value(ms[k]).None?;
      assert ms[k] in ms;
    } else {
      forall m | m in ms
        ensures Ours(gs, m, depth - 1, evalFn).Some? && r.value >= Ours(gs, m, depth - 1, evalFn).value
      {
        var k :| 0 <= k < |ms| && ms[k] == m;
      }
      if r.value != MIN_SCORE {
        var k :| 0 <= k < |ms| && r.value == value(ms[k]).value;
        assert ms[k] in ms;
      }
    }
  }

  /** Resigning hands the win to the opponent, who is then to move: the searcher values it at
      MIN_SCORE for the player resigning, whatever the depth. */
  lemma ResignValuedLowest(gs: GameState, depth: nat, evalFn: GameState -> int)
    requires Indexed(gs.board)
    ensures Ours(gs, NewResign(), depth, evalFn) == Some(MIN_SCORE)
  {
    ResignationEnds(gs);
  }

  /** The loop keeps the maximum within the two scores when best and every value are. */
  lemma {:induction false} MaxFromBounded(value: Move -> Option<int>, ms: seq<Move>, i: nat, best: int)
    requires i <= |ms| && MIN_SCORE <= best <= MAX_SCORE
    requires forall m :: InRange(value(m))
    ensures InRange(MaxFrom(value, ms, i, best))
    decreases |ms| - i
  {
    if i < |ms| {
      var o := value(ms[i]);
      if o.Some? {
        MaxFromBounded(value, ms, i + 1, if o.value > best then o.value else best);
      }
    }
  }

  /** With a bounded evaluation function every result lies within the two scores ... */
  lemma {:induction false} BestResultBounded(gs: GameState, depth: nat, evalFn: GameState -> int)
    requires Indexed(gs.board) && Bounded(evalFn)
    ensures InRange(BestResult(gs, depth, evalFn))
    decreases depth, 0
  {
    if !IsOver(gs) && depth > 0 {
      ValuesBounded(gs, depth - 1, evalFn);
      MaxFromBounded(ValueOf(gs, depth - 1, evalFn), Legal(gs), 0, MIN_SCORE);
    }
  }

  lemma {:induction false} ValuesBounded(gs: GameState, depth: nat, evalFn: GameState -> int)
    requires Indexed(gs.board) && Bounded(evalFn)
    ensures forall m :: InRange(ValueOf(gs, depth, evalFn)(m))
    decreases depth, 2
  {
    forall m
      ensures InRange(ValueOf(gs, depth, evalFn)(m))
    {
      OursBounded(gs, m, depth, evalFn);
    }
  }

  lemma {:induction false} OursBounded(gs: GameState, m: Move, depth: nat, evalFn: GameState -> int)
    requires Indexed(gs.board) && Bounded(evalFn)
    ensures InRange(Ours(gs, m, depth, evalFn))
    decreases depth, 1
  {
    var (next, err) := ApplyMove(gs, m);
    if err.None? {
      BestResultBounded(next, depth, evalFn);
    }
  }

  /** When no value lies below best, the loop over a non-empty list ends on one of the values. */
  lemma MaxFromAttained(value: Move -> Option<int>, ms: seq<Move>, i: nat, best: int)
    requires i < |ms|
    requires forall m :: value(m).Some? ==> value(m).value >= best
    ensures MaxFrom(value, ms, i, best).Some? ==> exists m :: m in ms && value(m) == MaxFrom(value, ms, i, best)
  {
    var o := value(ms[i]);
    if o.Some? {
      MaxFromIsMax(value, ms, i + 1, o.value);
      var r := MaxFrom(value, ms, i, best);
      if r.Some? && r.value != o.value {
        var k :| i + 1 <= k < |ms| && r.value == value(ms[k]).value;
        assert ms[k] in ms && value(ms[k]) == r;
      } else if r.Some? {
        assert ms[i] in ms;
      }
    }
  }

  /** ... and, since Pass and Resign are always legal, the result of an unfinished position is
      the value of one of its legal moves. */
  lemma BestResultAttained(gs: GameState, depth: nat, evalFn: GameState -> int)
    requires Indexed(gs.board) && Bounded(evalFn) && !IsOver(gs) && depth >= 1
    requires BestResult(gs, depth, evalFn).Some?
    ensures exists m :: m in Legal(gs) && Ours(gs, m, depth - 1, evalFn) == BestResult(gs, depth, evalFn)
  {
    ValuesBounded(gs, depth - 1, evalFn);
    MaxFromAttained(ValueOf(gs, depth - 1, evalFn), Legal(gs), 0, MIN_SCORE);
  }

  // ---------------------------------------------------------------------------------------
  // DepthPrunedAgent.SelectMove

  /** The selection loop of SelectMove, with the move values as a parameter: ok is false when
      some move has no value (Go exits); otherwise the best score is the greatest value and
      the list holds, in order, every move that reaches it. */
  method CollectBest(moves: seq<Move>, value: Move -> Option<int>) returns (ok: bool, best_moves: seq<Move>, best_score: int)
    ensures ok <==> forall k :: 0 <= k < |moves| ==> value(moves[k]).Some?
    ensures ok && moves != [] ==> best_moves != []
    ensures ok ==> forall k :: 0 <= k < |moves| ==> value(moves[k]).value <= best_score
    ensures ok ==> forall x :: x in best_moves <==> x in moves && value(x) == Some(best_score)
  {
    best_moves, best_score := [], MIN_SCORE;
    for i := 0 to |moves|
      invariant forall k :: 0 <= k < i ==> value(moves[k]).Some?
      invariant best_moves == [] <==> i == 0
      invariant forall k :: 0 <= k < i ==> value(moves[k]).value <= best_score
      invariant forall x :: x in best_moves <==> x in moves[..i] && value(x) == Some(best_score)
    {
      var v := value(moves[i]);
      if v.None? {
        return false, best_moves, best_score;
      }
      var our := v.value;
      assert moves[..i + 1] == moves[..i] + [moves[i]];
      if |best_moves| <= 0 || our > best_score {
        best_moves := [moves[i]];
        best_score := our;
      } else if our == best_score {
        best_moves := best_moves + [moves[i]];
      }
    }
    assert moves[..|moves|] == moves;
    return true, best_moves, best_score;
  }

  /** DepthPrunedAgent.SelectMove: every legal move is valued by searching the state it leads to
      to maxDepth; one of the best is returned, any of them. None when a search fails. */
  method SelectMove(gs: GameState, maxDepth: nat, evalFn: GameState -> int) returns (m: Option<Move>)
    requires Indexed(gs.board) && gs.board.Width < 0xFFFF && gs.board.Height < 0xFFFF
    ensures m.None? <==> exists x :: x in Legal(gs) && Ours(gs, x, maxDepth, evalFn).None?
    ensures m.Some? ==>
      && m.value in Legal(gs)
      && Ours(gs, m.value, maxDepth, evalFn).Some?
      && forall x :: x in Legal(gs) ==> Ours(gs, x, maxDepth, evalFn).value <= Ours(gs, m.value, maxDepth, evalFn).value
  {
    var moves := LegalMoves(gs);
    var value := ValueOf(gs, maxDepth, evalFn);
    assert forall x :: value(x) == Ours(gs, x, maxDepth, evalFn);
    var ok, best_moves, best_score := CollectBest(moves, value);
    if !ok {
      var k :| 0 <= k < |moves| && value(moves[k]).None?;
      assert moves[k] in moves;
      return None;
    }
    var i :| 0 <= i < |best_moves|;
    assert best_moves[i] in best_moves;
    forall x | x in moves
      ensures Ours(gs, x, maxDepth, evalFn).Some? && Ours(gs, x, maxDepth, evalFn).value <= best_score
    {
      var k :| 0 <= k < |moves| && moves[k] == x;
    }
    return Some(best_moves[i]);
  }

  /** The move chosen one level up agrees with BestResult: on an unfinished position with a
      bounded evaluation function, the value of a best legal move is BestResult one ply
      deeper. */
  lemma ChoiceMatchesBestResult(gs: GameState, depth: nat, evalFn: GameState -> int, m: Move)
    requires Indexed(gs.board) && Bounded(evalFn) && !IsOver(gs)
    requires m in Legal(gs) && Ours(gs, m, depth, evalFn).Some?
    requires forall x :: x in Legal(gs) ==>
               Ours(gs, x, depth, evalFn).Some? && Ours(gs, x, depth, evalFn).value <= Ours(gs, m, depth, evalFn).value
    ensures BestResult(gs, depth + 1, evalFn) == Ours(gs, m, depth, evalFn)
  {
    var r := BestResult(gs, depth + 1, evalFn);
    BestResultIsMax(gs, depth + 1, evalFn);
    assert r.Some?;
    OursBounded(gs, m, depth, evalFn);
    assert r.value >= Ours(gs, m, depth, evalFn).value;
    var o := Ours(gs, m, depth, evalFn);
    if r.value != MIN_SCORE {
      var x :| x in Legal(gs) && r.value == Ours(gs, x, depth, evalFn).value;
      assert r.value <= o.value;
    }
    assert r.value == o.value;
  }
}
