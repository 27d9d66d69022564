/** The alpha-beta searcher (botAlphabeta.go): the search of DepthPruned, carrying the best
    result found so far for Black and for White down the tree and stopping the loop over a
    node's moves once the node is already worse for the opponent than the opponent's
    secured result. */
module AlphaBeta {
  import opened Wrappers
  import opened Boards
  import opened Moves
  import opened GameStates
  import opened DepthPruned
  import Players

  /** The bounds after a node's best result so far is known: White raises best_white, Black
      raises best_black, any other turn leaves both. */
  function Raise(turn: Players.Player, best: int, bb: int, bw: int): (r: (int, int))
    ensures turn == Players.White ==> r == (bb, if best > bw then best else bw)
    ensures turn == Players.Black ==> r == (if best > bb then best else bb, bw)
    ensures !Players.IsColour(turn) ==> r == (bb, bw)
  {
    if turn == Players.White then (bb, if best > bw then best else bw)
    else if turn == Players.Black then (if best > bb then best else bb, bw)
    else (bb, bw)
  }

  /** The pruning test: the node's result negated, which is what it leaves the opponent, is
      below the opponent's secured result. */
  predicate Cuts(turn: Players.Player, best: int, bb: int, bw: int)
  {
    (turn == Players.White && -best < bb) || (turn == Players.Black && -best < bw)
  }

  /** The bound of the opponent of the player to move, which a node never changes. */
  function OpponentBound(turn: Players.Player, bb: int, bw: int): int
  {
    if turn == Players.White then bb else if turn == Players.Black then bw else MIN_SCORE
  }

  /** The loop of AlphaBetaResult from the i-th move on: each move is valued with the current
      bounds, a greater value replaces best, the bounds are raised, and the loop stops with
      best when the pruning test holds. */
  function AbFrom(value: (Move, int, int) -> Option<int>, turn: Players.Player, ms: seq<Move>, i: nat,
                  best: int, bb: int, bw: int): Option<int>
    requires i <= |ms|
    decreases |ms| - i
  {
    if i == |ms| then Some(best)
    else
      match value(ms[i], bb, bw)
      case None => None
      case Some(o) =>
        var best' := if o > best then o else best;
        var (bb', bw') := Raise(turn, best', bb, bw);
        if Cuts(turn, best', bb', bw') then Some(best')
        else AbFrom(value, turn, ms, i + 1, best', bb', bw')
  }

  /** GameState.AlphaBetaResult. */
  function AlphaBetaResult(gs: GameState, depth: nat, bb: int, bw: int, evalFn: GameState -> int): Option<int>
    requires Indexed(gs.board)
    decreases depth, 0
  {
    if IsOver(gs) then Some(if Winner(gs) == gs.turn then MAX_SCORE else MIN_SCORE)
    else if depth == 0 then Some(evalFn(gs))
    else AbFrom(AbValueOf(gs, depth - 1, evalFn), gs.turn, Legal(gs), 0, MIN_SCORE, bb, bw)
  }

  /** AbOurs as a function of the move and the two bounds. */
  function AbValueOf(gs: GameState, depth: nat, evalFn: GameState -> int): (Move, int, int) -> Option<int>
    decreases depth, 2
  {
    (m: Move, bb: int, bw: int) => if Indexed(gs.board) then AbOurs(gs, m, depth, bb, bw, evalFn) else None
  }

  /** The value of a move for the player making it, searched with the given bounds. */
  function AbOurs(gs: GameState, m: Move, depth: nat, bb: int, bw: int, evalFn: GameState -> int): Option<int>
    requires Indexed(gs.board)
    decreases depth, 1
  {
    var (next, err) := ApplyMove(gs, m);
    if err.Some? then None
    else
      match AlphaBetaResult(next, depth, bb, bw, evalFn)
      case None => None
      case Some(v) => Some(-v)
  }

  /** On a finished game or at depth 0 the bounds play no part and alpha-beta gives what the
      plain search gives. */
  lemma LeavesAgree(gs: GameState, depth: nat, bb: int, bw: int, evalFn: GameState -> int)
    requires Indexed(gs.board) && (IsOver(gs) || depth == 0)
    ensures AlphaBetaResult(gs, depth, bb, bw, evalFn) == BestResult(gs, depth, evalFn)
  {
  }

  /** So a move searched to depth 0 has the same value under any bounds. */
  lemma LeafMovesAgree(gs: GameState, m: Move, bb: int, bw: int, evalFn: GameState -> int)
    requires Indexed(gs.board)
    ensures AbOurs(gs, m, 0, bb, bw, evalFn) == Ours(gs, m, 0, evalFn)
  {
    var (next, err) := ApplyMove(gs, m);
    if err.None? {
      LeavesAgree(next, 0, bb, bw, evalFn);
    }
    MovesAgreeWhenResultsDo(gs, m, 0, bb, bw, evalFn);
  }

  /** A move has the same value under both searches when the state it leads to has the same
      result under both. */
  lemma MovesAgreeWhenResultsDo(gs: GameState, m: Move, depth: nat, bb: int, bw: int, evalFn: GameState -> int)
    requires Indexed(gs.board)
    requires var (next, err) := ApplyMove(gs, m);
      err.None? ==> AlphaBetaResult(next, depth, bb, bw, evalFn) == BestResult(next, depth, evalFn)
    ensures AbOurs(gs, m, depth, bb, bw, evalFn) == Ours(gs, m, depth, evalFn)
  {
  }

  /** When the moves' values do not depend on the bounds, the pruned loop never exceeds the
      full one; it matches it when the opponent's bound is MIN_SCORE, and it differs only by
      stopping at a cut, where the result passes the pruning test against the opponent's
      bound. */
  lemma {:induction false} AbFromVersusMax(abv: (Move, int, int) -> Option<int>, v: Move -> Option<int>,
                                           turn: Players.Player, ms: seq<Move>, i: nat, best: int, bb: int, bw: int)
    requires i <= |ms| && MIN_SCORE <= best <= MAX_SCORE
    requires forall k, b1, b2 :: i <= k < |ms| ==> abv(ms[k], b1, b2) == v(ms[k])
    requires forall k :: i <= k < |ms| ==> v(ms[k]).Some? && InRange(v(ms[k]))
    ensures var r, t := AbFrom(abv, turn, ms, i, best, bb, bw), MaxFrom(v, ms, i, best);
      && r.Some? && t.Some? && best <= r.value <= t.value
      && (OpponentBound(turn, bb, bw) == MIN_SCORE ==> r == t)
      && (r != t ==> -r.value < OpponentBound(turn, bb, bw))
    decreases |ms| - i
  {
    MaxFromIsMax(v, ms, i, best);
    if i < |ms| {
      var o := v(ms[i]).value;
      assert abv(ms[i], bb, bw) == Some(o);
      var best' := if o > best then o else best;
      var (bb', bw') := Raise(turn, best', bb, bw);
      MaxFromIsMax(v, ms, i + 1, best');
      if !Cuts(turn, best', bb', bw') {
        AbFromVersusMax(abv, v, turn, ms, i + 1, best', bb', bw');
      }
    }
  }

  /** One ply deep, alpha-beta agrees with the plain search except where it prunes: it never
      gives more, it gives the same when the opponent has no secured result yet, and a
      smaller result leaves the opponent less than the opponent's bound. */
  lemma DepthOneAgainstPlain(gs: GameState, bb: int, bw: int, evalFn: GameState -> int)
    requires Indexed(gs.board) && Bounded(evalFn) && !IsOver(gs)
    requires BestResult(gs, 1, evalFn).Some?
    ensures var r, t := AlphaBetaResult(gs, 1, bb, bw, evalFn), BestResult(gs, 1, evalFn);
      && r.Some? && r.value <= t.value
      && (OpponentBound(gs.turn, bb, bw) == MIN_SCORE ==> r == t)
      && (r != t ==> -r.value < OpponentBound(gs.turn, bb, bw))
  {
    var ms := Legal(gs);
    var abv, v := AbValueOf(gs, 0, evalFn), ValueOf(gs, 0, evalFn);
    forall k, b1, b2 | 0 <= k < |ms|
      ensures abv(ms[k], b1, b2) == v(ms[k])
    {
      LeafMovesAgree(gs, ms[k], b1, b2, evalFn);
    }
    BestResultIsMax(gs, 1, evalFn);
    ValuesBounded(gs, 0, evalFn);
    forall k | 0 <= k < |ms|
      ensures v(ms[k]).Some? && InRange(v(ms[k]))
    {
      assert ms[k] in ms;
    }
    AbFromVersusMax(abv, v, gs.turn, ms, 0, MIN_SCORE, bb, bw);
  }

  /** With a bounded evaluation function every alpha-beta result lies within the two
      scores. */
  lemma {:induction false} AlphaBetaBounded(gs: GameState, depth: nat, bb: int, bw: int, evalFn: GameState -> int)
    requires Indexed(gs.board) && Bounded(evalFn)
    ensures InRange(AlphaBetaResult(gs, depth, bb, bw, evalFn))
    decreases depth, 0
  {
    if !IsOver(gs) && depth > 0 {
      AllAbOursBounded(gs, depth - 1, evalFn);
      AbFromBounded(AbValueOf(gs, depth - 1, evalFn), gs.turn, Legal(gs), 0, MIN_SCORE, bb, bw);
    }
  }

  lemma {:induction false} AllAbOursBounded(gs: GameState, depth: nat, evalFn: GameState -> int)
    requires Indexed(gs.board) && Bounded(evalFn)
    ensures forall m, bb, bw :: InRange(AbValueOf(gs, depth, evalFn)(m, bb, bw))
    decreases depth, 2
  {
    forall m, bb, bw
      ensures InRange(AbValueOf(gs, depth, evalFn)(m, bb, bw))
    {
      AbOursBounded(gs, m, depth, bb, bw, evalFn);
    }
  }

  lemma {:induction false} AbOursBounded(gs: GameState, m: Move, depth: nat, bb: int, bw: int, evalFn: GameState -> int)
    requires Indexed(gs.board) && Bounded(evalFn)
    ensures InRange(AbOurs(gs, m, depth, bb, bw, evalFn))
    decreases depth, 1
  {
    var (next, err) := ApplyMove(gs, m);
    if err.None? {
      AlphaBetaBounded(next, depth, bb, bw, evalFn);
    }
  }

  /** The loop keeps best within the scores when every value is. */
  lemma {:induction false} AbFromBounded(value: (Move, int, int) -> Option<int>, turn: Players.Player, ms: seq<Move>,
                                         i: nat, best: int, bb: int, bw: int)
    requires i <= |ms| && MIN_SCORE <= best <= MAX_SCORE
    requires forall m, b1, b2 :: InRange(value(m, b1, b2))
    ensures InRange(AbFrom(value, turn, ms, i, best, bb, bw))
    decreases |ms| - i
  {
    if i < |ms| {
      var o := value(ms[i], bb, bw);
      if o.Some? {
        var best' := if o.value > best then o.value else best;
        var (bb', bw') := Raise(turn, best', bb, bw);
        AbFromBounded(value, turn, ms, i + 1, best', bb', bw');
      }
    }
  }

  // ---------------------------------------------------------------------------------------
  // Alpha-beta against the plain search, at every depth

  /** The bound of the player to move, which the node raises with its best result. */
  function OwnBound(turn: Players.Player, bb: int, bw: int): int
  {
    if turn == Players.White then bw else if turn == Players.Black then bb else MIN_SCORE
  }

  /** x brought into [lo, hi]. */
  function Clamp(x: int, lo: int, hi: int): (c: int)
    requires lo <= hi
    ensures lo <= c <= hi
    ensures lo <= x <= hi ==> c == x
  {
    if x < lo then lo else if x > hi then hi else x
  }

  /** Bounds as the search hands them down: neither below MIN_SCORE, and the window of the
      player to move, from its own bound up to the negated opponent's bound, not empty. The
      condition is the same for both colours, so it holds at a node exactly when it holds at
      its children. */
  predicate WindowOk(bb: int, bw: int)
  {
    MIN_SCORE <= bb && MIN_SCORE <= bw && bb + bw <= 0
  }

  /** The loop of AlphaBetaResult without its pruning test: every move is searched. */
  function AbFromNoCut(value: (Move, int, int) -> Option<int>, turn: Players.Player, ms: seq<Move>, i: nat,
                       best: int, bb: int, bw: int): Option<int>
    requires i <= |ms|
    decreases |ms| - i
  {
    if i == |ms| then Some(best)
    else
      match value(ms[i], bb, bw)
      case None => None
      case Some(o) =>
        var best' := if o > best then o else best;
        var (bb', bw') := Raise(turn, best', bb, bw);
        AbFromNoCut(value, turn, ms, i + 1, best', bb', bw')
  }

  /** While the opponent has secured nothing above MIN_SCORE, results within the scores never
      pass the pruning test, whatever the depth the moves are searched to: the loop searches
      every move. */
  lemma {:induction false} NoCutWhileOpponentUnbounded(value: (Move, int, int) -> Option<int>, turn: Players.Player,
                                                       ms: seq<Move>, i: nat, best: int, bb: int, bw: int)
    requires i <= |ms| && MIN_SCORE <= best <= MAX_SCORE
    requires OpponentBound(turn, bb, bw) == MIN_SCORE
    requires forall m, b1, b2 :: InRange(value(m, b1, b2))
    ensures AbFrom(value, turn, ms, i, best, bb, bw) == AbFromNoCut(value, turn, ms, i, best, bb, bw)
    decreases |ms| - i
  {
    if i < |ms| {
      var o := value(ms[i], bb, bw);
      if o.Some? {
        var best' := if o.value > best then o.value else best;
        var (bb', bw') := Raise(turn, best', bb, bw);
        assert !Cuts(turn, best', bb', bw');
        NoCutWhileOpponentUnbounded(value, turn, ms, i + 1, best', bb', bw');
      }
    }
  }

  /** So an alpha-beta search entered with the opponent's bound at MIN_SCORE, as the root's
      first move is, prunes nothing at that node, at any depth. */
  lemma NoCutAtNode(gs: GameState, depth: nat, bb: int, bw: int, evalFn: GameState -> int)
    requires Indexed(gs.board) && Bounded(evalFn) && !IsOver(gs) && depth >= 1
    requires OpponentBound(gs.turn, bb, bw) == MIN_SCORE
    ensures AlphaBetaResult(gs, depth, bb, bw, evalFn)
         == AbFromNoCut(AbValueOf(gs, depth - 1, evalFn), gs.turn, Legal(gs), 0, MIN_SCORE, bb, bw)
  {
    AlphaBetaUnfolds(gs, depth, bb, bw, evalFn);
    NoCutOverLegal(gs, depth, bb, bw, evalFn);
  }

  lemma NoCutOverLegal(gs: GameState, depth: nat, bb: int, bw: int, evalFn: GameState -> int)
    requires Indexed(gs.board) && Bounded(evalFn) && depth >= 1
    requires OpponentBound(gs.turn, bb, bw) == MIN_SCORE
    ensures AbFrom(AbValueOf(gs, depth - 1, evalFn), gs.turn, Legal(gs), 0, MIN_SCORE, bb, bw)
         == AbFromNoCut(AbValueOf(gs, depth - 1, evalFn), gs.turn, Legal(gs), 0, MIN_SCORE, bb, bw)
  {
    AllAbOursBounded(gs, depth - 1, evalFn);
    NoCutWhileOpponentUnbounded(AbValueOf(gs, depth - 1, evalFn), gs.turn, Legal(gs), 0, MIN_SCORE, bb, bw);
  }

  /** Below depth 1 of an unfinished game, AlphaBetaResult is its loop over the legal moves. */
  lemma AlphaBetaUnfolds(gs: GameState, depth: nat, bb: int, bw: int, evalFn: GameState -> int)
    requires Indexed(gs.board) && !IsOver(gs) && depth >= 1
    ensures AlphaBetaResult(gs, depth, bb, bw, evalFn)
         == AbFrom(AbValueOf(gs, depth - 1, evalFn), gs.turn, Legal(gs), 0, MIN_SCORE, bb, bw)
  {
  }

  /** A move whose plain value exists and whose alpha-beta value, searched with any bounds the
      search can hand down, agrees with it once both are brought into the mover's window. */
  ghost predicate MoveAgrees(abv: (Move, int, int) -> Option<int>, v: Move -> Option<int>, turn: Players.Player, m: Move)
  {
    && v(m).Some?
    && forall b1, b2 | WindowOk(b1, b2) ::
         && abv(m, b1, b2).Some?
         && Clamp(abv(m, b1, b2).value, OwnBound(turn, b1, b2), -OpponentBound(turn, b1, b2))
            == Clamp(v(m).value, OwnBound(turn, b1, b2), -OpponentBound(turn, b1, b2))
  }

  /** A move's agreement, at one pair of bounds. */
  lemma MoveAgreesAt(abv: (Move, int, int) -> Option<int>, v: Move -> Option<int>, turn: Players.Player, m: Move,
                     bb: int, bw: int)
    requires MoveAgrees(abv, v, turn, m) && WindowOk(bb, bw)
    ensures v(m).Some? && abv(m, bb, bw).Some?
    ensures Clamp(abv(m, bb, bw).value, OwnBound(turn, bb, bw), -OpponentBound(turn, bb, bw))
         == Clamp(v(m).value, OwnBound(turn, bb, bw), -OpponentBound(turn, bb, bw))
  {
  }

  /** Taking the greater of two values commutes with bringing them into a window. */
  lemma ClampMax(best: int, t: int, o: int, ot: int, lo: int, hi: int)
    requires lo <= hi && Clamp(best, lo, hi) == Clamp(t, lo, hi) && Clamp(o, lo, hi) == Clamp(ot, lo, hi)
    ensures Clamp(if o > best then o else best, lo, hi) == Clamp(if ot > t then ot else t, lo, hi)
  {
  }

  /** Raising the lower end of the window to a best result inside it keeps two values that
      agree within the window agreeing within the narrower one. */
  lemma ClampRaised(best: int, t: int, lo: int, hi: int)
    requires lo <= hi && best <= hi && Clamp(best, lo, hi) == Clamp(t, lo, hi)
    ensures var lo' := if best > lo then best else lo;
      Clamp(best, lo', hi) == Clamp(t, lo', hi)
  {
  }

  /** One move of the loop, on numbers: best and t agree within [lo, hi], and so do the move's
      pruned value o and plain value ot. Either the new best is above the window and the loop
      stops with it, or the rest of the loop, from the raised window, agrees within that; in
      both cases the results r and u of the two loops agree within [lo, hi]. */
  lemma WindowStep(best: int, t: int, o: int, ot: int, lo: int, hi: int, r: int, u: int)
    requires lo <= hi && Clamp(best, lo, hi) == Clamp(t, lo, hi) && Clamp(o, lo, hi) == Clamp(ot, lo, hi)
    requires var best', t' := (if o > best then o else best), (if ot > t then ot else t);
      && u >= t'
      && (best' > hi ==> r == best')
      && (best' <= hi ==>
            var lo' := if best' > lo then best' else lo;
            r >= best' && Clamp(r, lo', hi) == Clamp(u, lo', hi))
    ensures r >= best && Clamp(r, lo, hi) == Clamp(u, lo, hi)
  {
  }

  /** What one raise does to the window of a colour: the pruning test holds exactly when the
      best result is above the window; otherwise the raised bounds are still ones the search
      hands down, with the mover's bound raised to the best result and the opponent's kept. */
  lemma RaiseWindow(turn: Players.Player, best: int, bb: int, bw: int)
    requires Players.IsColour(turn) && WindowOk(bb, bw)
    ensures var (bb', bw') := Raise(turn, best, bb, bw);
      && (Cuts(turn, best, bb', bw') <==> best > -OpponentBound(turn, bb, bw))
      && (!Cuts(turn, best, bb', bw') ==>
            && WindowOk(bb', bw')
            && OwnBound(turn, bb', bw') == (if best > OwnBound(turn, bb, bw) then best else OwnBound(turn, bb, bw))
            && OpponentBound(turn, bb', bw') == OpponentBound(turn, bb, bw))
  {
  }

  /** When every remaining move has a plain value, the plain loop gives a result no lower
      than where it starts. */
  lemma {:induction false} MaxFromAtLeast(v: Move -> Option<int>, ms: seq<Move>, i: nat, t: int)
    requires i <= |ms| && forall k :: i <= k < |ms| ==> v(ms[k]).Some?
    ensures MaxFrom(v, ms, i, t).Some? && MaxFrom(v, ms, i, t).value >= t
    decreases |ms| - i
  {
    if i < |ms| {
      MaxFromAtLeast(v, ms, i + 1, if v(ms[i]).value > t then v(ms[i]).value else t);
    }
  }

  /** The pruned loop against the plain one: when every move agrees within the window
      [lo, hi] of the bounds, so do the two loops, from a best result and a plain partial
      maximum that agree within it. */
  lemma {:induction false} AbFromWindow(abv: (Move, int, int) -> Option<int>, v: Move -> Option<int>, turn: Players.Player,
                                        ms: seq<Move>, i: nat, best: int, t: int, bb: int, bw: int, lo: int, hi: int)
    requires Players.IsColour(turn) && i <= |ms| && WindowOk(bb, bw)
    requires lo == OwnBound(turn, bb, bw) && hi == -OpponentBound(turn, bb, bw)
    requires forall k :: i <= k < |ms| ==> MoveAgrees(abv, v, turn, ms[k])
    requires Clamp(best, lo, hi) == Clamp(t, lo, hi)
    ensures var r, u := AbFrom(abv, turn, ms, i, best, bb, bw), MaxFrom(v, ms, i, t);
      r.Some? && u.Some? && r.value >= best && Clamp(r.value, lo, hi) == Clamp(u.value, lo, hi)
    decreases |ms| - i
  {
    if i < |ms| {
      MoveAgreesAt(abv, v, turn, ms[i], bb, bw);
      var o, ot := abv(ms[i], bb, bw).value, v(ms[i]).value;
      var best' := if o > best then o else best;
      var t' := if ot > t then ot else t;
      var (bb', bw') := Raise(turn, best', bb, bw);
      RaiseWindow(turn, best', bb, bw);
      assert forall k :: i + 1 <= k < |ms| ==> MoveAgrees(abv, v, turn, ms[k]);
      MaxFromAtLeast(v, ms, i + 1, t');
      var u := MaxFrom(v, ms, i + 1, t').value;
      assert MaxFrom(v, ms, i, t) == Some(u);
      var r;
      if Cuts(turn, best', bb', bw') {
        r := best';
      } else {
        var lo' := if best' > lo then best' else lo;
        ClampMax(best, t, o, ot, lo, hi);
        ClampRaised(best', t', lo, hi);
        AbFromWindow(abv, v, turn, ms, i + 1, best', t', bb', bw', lo', hi);
        r := AbFrom(abv, turn, ms, i + 1, best', bb', bw').value;
      }
      assert AbFrom(abv, turn, ms, i, best, bb, bw) == Some(r);
      WindowStep(best, t, o, ot, lo, hi, r, u);
    }
  }

  /** Alpha-beta is plain negamax seen through the window: searched with bounds the search
      can hand down, its result and BestResult's agree once both are brought into the window
      from the mover's own bound up to the negated opponent's bound, at every depth. A result
      inside the window is exact; one at or below the mover's bound only says the true value
      is no higher; one above the window only says the true value is no lower. */
  lemma {:induction false} AlphaBetaWindow(gs: GameState, depth: nat, bb: int, bw: int, evalFn: GameState -> int)
    requires Indexed(gs.board) && Players.IsColour(gs.turn) && WindowOk(bb, bw)
    requires BestResult(gs, depth, evalFn).Some?
    ensures var r, t := AlphaBetaResult(gs, depth, bb, bw, evalFn), BestResult(gs, depth, evalFn);
      && r.Some?
      && Clamp(r.value, OwnBound(gs.turn, bb, bw), -OpponentBound(gs.turn, bb, bw))
         == Clamp(t.value, OwnBound(gs.turn, bb, bw), -OpponentBound(gs.turn, bb, bw))
    decreases depth, 0
  {
    if IsOver(gs) || depth == 0 {
      LeavesAgree(gs, depth, bb, bw, evalFn);
    } else {
      AlphaBetaUnfolds(gs, depth, bb, bw, evalFn);
      BestResultUnfolds(gs, depth, evalFn);
      WindowOverLegal(gs, depth, bb, bw, evalFn);
    }
  }

  /** The loops of the two searches over the legal moves agree within the window. */
  lemma {:induction false} WindowOverLegal(gs: GameState, depth: nat, bb: int, bw: int, evalFn: GameState -> int)
    requires Indexed(gs.board) && Players.IsColour(gs.turn) && !IsOver(gs) && WindowOk(bb, bw) && depth >= 1
    requires BestResult(gs, depth, evalFn).Some?
    ensures var r, u := AbFrom(AbValueOf(gs, depth - 1, evalFn), gs.turn, Legal(gs), 0, MIN_SCORE, bb, bw),
                        MaxFrom(ValueOf(gs, depth - 1, evalFn), Legal(gs), 0, MIN_SCORE);
      && r.Some? && u.Some?
      && Clamp(r.value, OwnBound(gs.turn, bb, bw), -OpponentBound(gs.turn, bb, bw))
         == Clamp(u.value, OwnBound(gs.turn, bb, bw), -OpponentBound(gs.turn, bb, bw))
    decreases depth - 1, 4
  {
    LegalMovesAgree(gs, depth - 1, evalFn);
    AbFromWindow(AbValueOf(gs, depth - 1, evalFn), ValueOf(gs, depth - 1, evalFn), gs.turn, Legal(gs),
                 0, MIN_SCORE, MIN_SCORE, bb, bw, OwnBound(gs.turn, bb, bw), -OpponentBound(gs.turn, bb, bw));
  }

  /** Below depth 1 of an unfinished game, BestResult is its loop over the legal moves. */
  lemma BestResultUnfolds(gs: GameState, depth: nat, evalFn: GameState -> int)
    requires Indexed(gs.board) && !IsOver(gs) && depth >= 1
    ensures BestResult(gs, depth, evalFn) == MaxFrom(ValueOf(gs, depth - 1, evalFn), Legal(gs), 0, MIN_SCORE)
  {
  }

  /** Every legal move of a position whose plain search one level deeper succeeds agrees. */
  lemma {:induction false} LegalMovesAgree(gs: GameState, depth: nat, evalFn: GameState -> int)
    requires Indexed(gs.board) && Players.IsColour(gs.turn) && !IsOver(gs)
    requires BestResult(gs, depth + 1, evalFn).Some?
    ensures forall k :: 0 <= k < |Legal(gs)| ==>
              MoveAgrees(AbValueOf(gs, depth, evalFn), ValueOf(gs, depth, evalFn), gs.turn, Legal(gs)[k])
    decreases depth, 3
  {
    var ms := Legal(gs);
    LegalValuesExist(gs, depth, evalFn);
    forall k | 0 <= k < |ms|
      ensures MoveAgrees(AbValueOf(gs, depth, evalFn), ValueOf(gs, depth, evalFn), gs.turn, ms[k])
    {
      MoveAgreesOf(gs, ms[k], depth, evalFn);
    }
  }

  /** When the plain search one level deeper succeeds, every legal move has a value. */
  lemma LegalValuesExist(gs: GameState, depth: nat, evalFn: GameState -> int)
    requires Indexed(gs.board) && !IsOver(gs)
    requires BestResult(gs, depth + 1, evalFn).Some?
    ensures forall k :: 0 <= k < |Legal(gs)| ==> Ours(gs, Legal(gs)[k], depth, evalFn).Some?
  {
    var v := ValueOf(gs, depth, evalFn);
    BestResultUnfolds(gs, depth + 1, evalFn);
    MaxFromIsMax(v, Legal(gs), 0, MIN_SCORE);
    forall k | 0 <= k < |Legal(gs)|
      ensures Ours(gs, Legal(gs)[k], depth, evalFn).Some?
    {
      assert v(Legal(gs)[k]).Some?;
    }
  }

  /** A move whose plain value exists agrees, under every pair of bounds. */
  lemma {:induction false} MoveAgreesOf(gs: GameState, m: Move, depth: nat, evalFn: GameState -> int)
    requires Indexed(gs.board) && Players.IsColour(gs.turn)
    requires Ours(gs, m, depth, evalFn).Some?
    ensures MoveAgrees(AbValueOf(gs, depth, evalFn), ValueOf(gs, depth, evalFn), gs.turn, m)
    decreases depth, 2
  {
    var abv, v := AbValueOf(gs, depth, evalFn), ValueOf(gs, depth, evalFn);
    forall b1, b2 | WindowOk(b1, b2)
      ensures && abv(m, b1, b2).Some?
              && Clamp(abv(m, b1, b2).value, OwnBound(gs.turn, b1, b2), -OpponentBound(gs.turn, b1, b2))
                 == Clamp(v(m).value, OwnBound(gs.turn, b1, b2), -OpponentBound(gs.turn, b1, b2))
    {
      AbOursWindow(gs, m, depth, b1, b2, evalFn);
    }
  }

  /** The same for one move: its alpha-beta value and its plain value agree within the
      mover's window, because the child is searched with the window turned round. */
  lemma {:induction false} AbOursWindow(gs: GameState, m: Move, depth: nat, bb: int, bw: int, evalFn: GameState -> int)
    requires Indexed(gs.board) && Players.IsColour(gs.turn) && WindowOk(bb, bw)
    requires Ours(gs, m, depth, evalFn).Some?
    ensures var r, t := AbOurs(gs, m, depth, bb, bw, evalFn), Ours(gs, m, depth, evalFn);
      && r.Some?
      && Clamp(r.value, OwnBound(gs.turn, bb, bw), -OpponentBound(gs.turn, bb, bw))
         == Clamp(t.value, OwnBound(gs.turn, bb, bw), -OpponentBound(gs.turn, bb, bw))
    decreases depth, 1
  {
    var next := ApplyMove(gs, m).0;
    AlphaBetaWindow(next, depth, bb, bw, evalFn);
    assert OwnBound(next.turn, bb, bw) == OpponentBound(gs.turn, bb, bw);
    assert OpponentBound(next.turn, bb, bw) == OwnBound(gs.turn, bb, bw);
  }

  /** Searched with both bounds at MIN_SCORE, as the root's first move is, and with an
      evaluation function within the scores, alpha-beta gives exactly BestResult, at every
      depth. */
  lemma AlphaBetaExact(gs: GameState, depth: nat, evalFn: GameState -> int)
    requires Indexed(gs.board) && Players.IsColour(gs.turn) && Bounded(evalFn)
    requires BestResult(gs, depth, evalFn).Some?
    ensures AlphaBetaResult(gs, depth, MIN_SCORE, MIN_SCORE, evalFn) == BestResult(gs, depth, evalFn)
  {
    AlphaBetaWindow(gs, depth, MIN_SCORE, MIN_SCORE, evalFn);
    AlphaBetaBounded(gs, depth, MIN_SCORE, MIN_SCORE, evalFn);
    BestResultBounded(gs, depth, evalFn);
  }

  // ---------------------------------------------------------------------------------------
  // AlphaBetaAgent.SelectMove

  /** The bounds after the root finds a strictly better move: the root's own bound is set to
      the new best score. */
  function RootBounds(turn: Players.Player, score: int, bb: int, bw: int): (r: (int, int))
    ensures turn == Players.Black ==> r == (score, bw)
    ensures turn == Players.White ==> r == (bb, score)
    ensures !Players.IsColour(turn) ==> r == (bb, bw)
  {
    if turn == Players.Black then (score, bw)
    else if turn == Players.White then (bb, score)
    else (bb, bw)
  }

  /** The loop of SelectMove from the i-th move on, with its best moves bm, best score bs and
      the two bounds: none when a search fails (Go exits), otherwise the final best moves and
      best score. */
  function RootFrom(value: (Move, int, int) -> Option<int>, turn: Players.Player, ms: seq<Move>, i: nat,
                    bm: seq<Move>, bs: int, bb: int, bw: int): Option<(seq<Move>, int)>
    requires i <= |ms|
    decreases |ms| - i
  {
    if i == |ms| then Some((bm, bs))
    else
      match value(ms[i], bb, bw)
      case None => None
      case Some(o) =>
        if |bm| <= 0 || o > bs then
          var (bb', bw') := RootBounds(turn, o, bb, bw);
          RootFrom(value, turn, ms, i + 1, [ms[i]], o, bb', bw')
        else if o == bs then RootFrom(value, turn, ms, i + 1, bm + [ms[i]], bs, bb, bw)
        else RootFrom(value, turn, ms, i + 1, bm, bs, bb, bw)
  }

  /** The loop picks its best moves among the moves it was given: the list is never empty
      once a move has been seen. */
  lemma {:induction false} RootFromChoices(value: (Move, int, int) -> Option<int>, turn: Players.Player, ms: seq<Move>, i: nat,
                                           bm: seq<Move>, bs: int, bb: int, bw: int)
    requires i <= |ms|
    ensures var r := RootFrom(value, turn, ms, i, bm, bs, bb, bw);
      r.Some? ==>
        && (bm != [] || i < |ms| ==> r.value.0 != [])
        && forall x :: x in r.value.0 ==> x in bm || x in ms[i..]
    decreases |ms| - i
  {
    if i < |ms| {
      var o := value(ms[i], bb, bw);
      if o.Some? {
        if |bm| <= 0 || o.value > bs {
          var (bb', bw') := RootBounds(turn, o.value, bb, bw);
          RootFromChoices(value, turn, ms, i + 1, [ms[i]], o.value, bb', bw');
        } else if o.value == bs {
          RootFromChoices(value, turn, ms, i + 1, bm + [ms[i]], bs, bb, bw);
        } else {
          RootFromChoices(value, turn, ms, i + 1, bm, bs, bb, bw);
        }
      }
    }
  }

  /** When the values do not depend on the bounds, the loop keeps exactly the moves of the
      greatest value, as the depth-pruned agent does. */
  lemma {:induction false} RootFromKeepsMaximal(value: (Move, int, int) -> Option<int>, v: Move -> Option<int>,
                                                turn: Players.Player, ms: seq<Move>, i: nat,
                                                bm: seq<Move>, bs: int, bb: int, bw: int)
    requires i <= |ms|
    requires forall k, b1, b2 :: i <= k < |ms| ==> value(ms[k], b1, b2) == v(ms[k])
    requires bm == [] <==> i == 0
    requires forall k :: 0 <= k < i ==> v(ms[k]).Some? && v(ms[k]).value <= bs
    requires forall x :: x in bm <==> x in ms[..i] && v(x) == Some(bs)
    ensures var r := RootFrom(value, turn, ms, i, bm, bs, bb, bw);
      && (r.None? <==> exists k :: i <= k < |ms| && v(ms[k]).None?)
      && (r.Some? ==>
            && (forall k :: 0 <= k < |ms| ==> v(ms[k]).Some? && v(ms[k]).value <= r.value.1)
            && (forall x :: x in r.value.0 <==> x in ms && v(x) == Some(r.value.1)))
    decreases |ms| - i
  {
    if i == |ms| {
      assert ms[..i] == ms;
    } else {
      assert value(ms[i], bb, bw) == v(ms[i]);
      var o := v(ms[i]);
      if o.Some? {
        assert ms[..i + 1] == ms[..i] + [ms[i]];
        if |bm| <= 0 || o.value > bs {
          var (bb', bw') := RootBounds(turn, o.value, bb, bw);
          RootFromKeepsMaximal(value, v, turn, ms, i + 1, [ms[i]], o.value, bb', bw');
        } else if o.value == bs {
          RootFromKeepsMaximal(value, v, turn, ms, i + 1, bm + [ms[i]], bs, bb, bw);
        } else {
          RootFromKeepsMaximal(value, v, turn, ms, i + 1, bm, bs, bb, bw);
        }
      }
    }
  }

  /** The root's loop at any depth: the opponent's bound stays MIN_SCORE and the root's own
      bound is its best score, so each move's pruned value is exact when it beats the best
      score and otherwise only says the move is no better. The loop ends with the greatest
      plain value as its score, and the first of its best moves, the one that set the score,
      has that value; a move appended on a tie is no better, and may be worse. */
  lemma {:induction false} RootFromBest(value: (Move, int, int) -> Option<int>, v: Move -> Option<int>,
                                        turn: Players.Player, ms: seq<Move>, i: nat,
                                        bm: seq<Move>, bs: int, bb: int, bw: int)
    requires Players.IsColour(turn) && i <= |ms| && MIN_SCORE <= bs <= MAX_SCORE
    requires OwnBound(turn, bb, bw) == bs && OpponentBound(turn, bb, bw) == MIN_SCORE
    requires forall m, b1, b2 :: InRange(value(m, b1, b2))
    requires forall k :: i <= k < |ms| ==> MoveAgrees(value, v, turn, ms[k]) && InRange(v(ms[k]))
    requires (bm == [] <==> i == 0) && (bm == [] ==> bs == MIN_SCORE)
    requires bm != [] ==> v(bm[0]) == Some(bs)
    requires forall k :: 0 <= k < i ==> v(ms[k]).Some? && v(ms[k]).value <= bs
    ensures var r := RootFrom(value, turn, ms, i, bm, bs, bb, bw);
      && r.Some?
      && (bm != [] || i < |ms| ==> r.value.0 != [] && v(r.value.0[0]) == Some(r.value.1))
      && (forall k :: 0 <= k < |ms| ==> v(ms[k]).Some? && v(ms[k]).value <= r.value.1)
    decreases |ms| - i
  {
    if i < |ms| {
      MoveAgreesAt(value, v, turn, ms[i], bb, bw);
      var o, t := value(ms[i], bb, bw).value, v(ms[i]).value;
      RootClampStep(o, t, bs);
      if |bm| <= 0 || o > bs {
        var (bb', bw') := RootBounds(turn, o, bb, bw);
        RootFromBest(value, v, turn, ms, i + 1, [ms[i]], o, bb', bw');
      } else if o == bs {
        assert (bm + [ms[i]])[0] == bm[0];
        RootFromBest(value, v, turn, ms, i + 1, bm + [ms[i]], bs, bb, bw);
      } else {
        RootFromBest(value, v, turn, ms, i + 1, bm, bs, bb, bw);
      }
    }
  }

  /** A move's pruned value o against its plain value t, within the root's window from the
      best score bs up to MAX_SCORE. */
  lemma RootClampStep(o: int, t: int, bs: int)
    requires MIN_SCORE <= o <= MAX_SCORE && MIN_SCORE <= t <= MAX_SCORE && MIN_SCORE <= bs <= MAX_SCORE
    requires Clamp(o, bs, -MIN_SCORE) == Clamp(t, bs, -MIN_SCORE)
    ensures o > bs || bs == MIN_SCORE ==> t == o
    ensures o <= bs ==> t <= bs
  {
  }

  /** At every depth, the alpha-beta agent's root ends with the plain search's result one
      level deeper as its best score, and the first of its best moves has that value; no
      legal move has a greater one. */
  lemma AlphaBetaRootIsBest(gs: GameState, depth: nat, evalFn: GameState -> int)
    requires Indexed(gs.board) && Bounded(evalFn) && Players.IsColour(gs.turn) && !IsOver(gs)
    requires BestResult(gs, depth + 1, evalFn).Some?
    ensures var r := RootFrom(AbValueOf(gs, depth, evalFn), gs.turn, Legal(gs), 0, [], MIN_SCORE, MIN_SCORE, MIN_SCORE);
      && r.Some? && r.value.0 != []
      && r.value.1 == BestResult(gs, depth + 1, evalFn).value
      && Ours(gs, r.value.0[0], depth, evalFn) == Some(r.value.1)
      && forall x :: x in Legal(gs) ==> Ours(gs, x, depth, evalFn).Some? && Ours(gs, x, depth, evalFn).value <= r.value.1
  {
    var ms := Legal(gs);
    var value, v := AbValueOf(gs, depth, evalFn), ValueOf(gs, depth, evalFn);
    LegalMovesAgree(gs, depth, evalFn);
    AllAbOursBounded(gs, depth, evalFn);
    ValuesBounded(gs, depth, evalFn);
    RootFromBest(value, v, gs.turn, ms, 0, [], MIN_SCORE, MIN_SCORE, MIN_SCORE);
    RootFromChoices(value, gs.turn, ms, 0, [], MIN_SCORE, MIN_SCORE, MIN_SCORE);
    var r := RootFrom(value, gs.turn, ms, 0, [], MIN_SCORE, MIN_SCORE, MIN_SCORE).value;
    assert r.0[0] in r.0;
    RootScoreIsBest(gs, depth, evalFn, r.0[0], r.1);
    forall x | x in ms
      ensures Ours(gs, x, depth, evalFn).Some? && Ours(gs, x, depth, evalFn).value <= r.1
    {
      var k :| 0 <= k < |ms| && ms[k] == x;
    }
  }

  /** A score that a legal move attains and no legal move exceeds is BestResult one level
      deeper. */
  lemma RootScoreIsBest(gs: GameState, depth: nat, evalFn: GameState -> int, x: Move, bs: int)
    requires Indexed(gs.board) && !IsOver(gs) && MIN_SCORE <= bs
    requires x in Legal(gs) && ValueOf(gs, depth, evalFn)(x) == Some(bs)
    requires forall k :: 0 <= k < |Legal(gs)| ==>
               ValueOf(gs, depth, evalFn)(Legal(gs)[k]).Some? && ValueOf(gs, depth, evalFn)(Legal(gs)[k]).value <= bs
    ensures BestResult(gs, depth + 1, evalFn) == Some(bs)
  {
    var k :| 0 <= k < |Legal(gs)| && Legal(gs)[k] == x;
    BestResultUnfolds(gs, depth + 1, evalFn);
    MaxFromIsAttained(ValueOf(gs, depth, evalFn), Legal(gs), k, bs);
  }

  /** The plain loop from MIN_SCORE gives a value that one move attains and none exceeds. */
  lemma MaxFromIsAttained(v: Move -> Option<int>, ms: seq<Move>, k: nat, bs: int)
    requires k < |ms| && MIN_SCORE <= bs && v(ms[k]) == Some(bs)
    requires forall j :: 0 <= j < |ms| ==> v(ms[j]).Some? && v(ms[j]).value <= bs
    ensures MaxFrom(v, ms, 0, MIN_SCORE) == Some(bs)
  {
    MaxFromIsMax(v, ms, 0, MIN_SCORE);
  }

  /** The loop of SelectMove, with the move values as a parameter. */
  method CollectBestPruning(moves: seq<Move>, value: (Move, int, int) -> Option<int>, turn: Players.Player)
    returns (ok: bool, best_moves: seq<Move>, best_score: int)
    ensures ok <==> RootFrom(value, turn, moves, 0, [], MIN_SCORE, MIN_SCORE, MIN_SCORE).Some?
    ensures ok ==> RootFrom(value, turn, moves, 0, [], MIN_SCORE, MIN_SCORE, MIN_SCORE) == Some((best_moves, best_score))
  {
    best_moves, best_score := [], MIN_SCORE;
    var best_black, best_white := MIN_SCORE, MIN_SCORE;
    for i := 0 to |moves|
      invariant RootFrom(value, turn, moves, 0, [], MIN_SCORE, MIN_SCORE, MIN_SCORE)
             == RootFrom(value, turn, moves, i, best_moves, best_score, best_black, best_white)
    {
      var v := value(moves[i], best_black, best_white);
      if v.None? {
        return false, best_moves, best_score;
      }
      var our := v.value;
      if |best_moves| <= 0 || our > best_score {
        best_moves := [moves[i]];
        best_score := our;
        if turn == Players.Black {
          best_black := best_score;
        } else if turn == Players.White {
          best_white := best_score;
        }
      } else if our == best_score {
        best_moves := best_moves + [moves[i]];
      }
    }
    return true, best_moves, best_score;
  }

  /** AlphaBetaAgent.SelectMove: the legal moves are searched in order, each with the bounds
      the root has reached so far, and one of the best is returned, any of them. None when a
      search fails. */
  method SelectMove(gs: GameState, maxDepth: nat, evalFn: GameState -> int) returns (m: Option<Move>)
    requires Indexed(gs.board) && gs.board.Width < 0xFFFF && gs.board.Height < 0xFFFF
    ensures var r := RootFrom(AbValueOf(gs, maxDepth, evalFn), gs.turn, Legal(gs), 0, [], MIN_SCORE, MIN_SCORE, MIN_SCORE);
      && (m.None? <==> r.None?)
      && (m.Some? ==> m.value in r.value.0 && m.value in Legal(gs))
  {
    var moves := LegalMoves(gs);
    var value := AbValueOf(gs, maxDepth, evalFn);
    var ok, best_moves, best_score := CollectBestPruning(moves, value, gs.turn);
    if !ok {
      return None;
    }
    RootFromChoices(value, gs.turn, moves, 0, [], MIN_SCORE, MIN_SCORE, MIN_SCORE);
    var i :| 0 <= i < |best_moves|;
    assert best_moves[i] in best_moves;
    return Some(best_moves[i]);
  }

  /** Searching only one ply below the root, the alpha-beta agent chooses among exactly the
      moves the depth-pruned agent chooses among. */
  lemma DepthZeroAgentsAgree(gs: GameState, evalFn: GameState -> int)
    requires Indexed(gs.board)
    ensures var r := RootFrom(AbValueOf(gs, 0, evalFn), gs.turn, Legal(gs), 0, [], MIN_SCORE, MIN_SCORE, MIN_SCORE);
      && (r.None? <==> exists x :: x in Legal(gs) && Ours(gs, x, 0, evalFn).None?)
      && (r.Some? ==>
            && (forall x :: x in Legal(gs) ==> Ours(gs, x, 0, evalFn).Some? && Ours(gs, x, 0, evalFn).value <= r.value.1)
            && (forall x :: x in r.value.0 <==> x in Legal(gs) && Ours(gs, x, 0, evalFn) == Some(r.value.1)))
  {
    var ms := Legal(gs);
    var value, v := AbValueOf(gs, 0, evalFn), ValueOf(gs, 0, evalFn);
    forall k, b1, b2 | 0 <= k < |ms|
      ensures value(ms[k], b1, b2) == v(ms[k])
    {
      LeafMovesAgree(gs, ms[k], b1, b2, evalFn);
    }
    RootFromKeepsMaximal(value, v, gs.turn, ms, 0, [], MIN_SCORE, MIN_SCORE, MIN_SCORE);
    assert forall x :: v(x) == Ours(gs, x, 0, evalFn);
    var r := RootFrom(value, gs.turn, ms, 0, [], MIN_SCORE, MIN_SCORE, MIN_SCORE);
    if r.None? {
      var k :| 0 <= k < |ms| && v(ms[k]).None?;
      assert ms[k] in ms;
    } else {
      forall x | x in ms
        ensures Ours(gs, x, 0, evalFn).Some? && Ours(gs, x, 0, evalFn).value <= r.value.1
      {
        var k :| 0 <= k < |ms| && ms[k] == x;
      }
    }
  }
}
