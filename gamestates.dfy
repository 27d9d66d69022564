/** The state of a game of Go (gamestate.go): the position, the player to move, the state it
    came from with the move that led here, and the Zobrist hashes of the positions seen so far.
    States are never changed once built: ApplyMove works on a copy of the board and returns a
    new state, so the model keeps states as values. */
module GameStates {
  import opened Wrappers
  import opened Points
  import opened Seqs
  import opened Boards
  import opened Moves
  import Players
  import Zobrist
  import GameResults
  import BoardHash
  import BoardCopy
  import BoardExamples
  import BoardFacts

  /** The counts EvaluateTerritory reports (territory.go). */
  datatype Territory = Territory(
    NumBlackTerritory: int,
    NumWhiteTerritory: int,
    NumBlackStones: int,
    NumWhiteStones: int,
    NumDame: int,
    DamePoints: seq<Point>)

  /** Board.EvaluateTerritory is not part of this model: an unspecified function of the position. */
  const EvaluateTerritory: BoardValue -> Territory

  /** Go's nil PreviousState and LastMove (a new game), or the previous state and the move
      played from it. Go never sets one of the two pointers without the other. */
  datatype Link = Start | After(previous: GameState, lastMove: Move)

  datatype GameState = GameState(board: BoardValue, turn: Players.Player, link: Link, history: seq<bv64>)

  /** The history invariant: no hash twice, and the current position's hash among them. */
  predicate HistoryOk(gs: GameState)
  {
    NoDups(gs.history) && gs.board.hash in gs.history
  }

  // ---------------------------------------------------------------------------------------
  // The hash history

  /** updateInt64Arr: e is appended exactly when it is not already present; the flag says
      whether it was. */
  function UpdateHistory(s: seq<bv64>, e: bv64): (r: (seq<bv64>, bool))
    ensures r.1 <==> e !in s
    ensures e in r.0 && forall x :: x in r.0 <==> x in s || x == e
    ensures |s| <= |r.0| <= |s| + 1 && r.0[..|s|] == s
    ensures NoDups(s) ==> NoDups(r.0)
  {
    if e in s then (s, false) else (s + [e], true)
  }

  /** containsInt64: a scan that stops at the first equal element. */
  method ContainsHash(s: seq<bv64>, e: bv64) returns (i: int, found: bool)
    ensures found <==> e in s
    ensures i == FirstIndex(s, e)
  {
    for k := 0 to |s|
      invariant e !in s[..k]
    {
      if s[k] == e {
        FirstIndexAt(s, e, k);
        return k, true;
      }
    }
    assert s[..|s|] == s;
    return -1, false;
  }

  /** updateInt64Arr as Go writes it, on top of containsInt64. */
  method UpdateHistoryArr(s: seq<bv64>, e: bv64) returns (arr: seq<bv64>, added: bool)
    ensures (arr, added) == UpdateHistory(s, e)
  {
    var _, present := ContainsHash(s, e);
    if present {
      return s, false;
    }
    return s + [e], true;
  }

  // ---------------------------------------------------------------------------------------
  // Building states

  /** NewGameOfSize(h, w): an empty board built by NewBoard(h, w), whose first parameter is the
      width, Black to move, and the empty board's hash as the only history entry. */
  function NewGameOfSize(h: U16, w: U16): (gs: GameState)
    ensures Indexed(gs.board) && gs.board.Width == h && gs.board.Height == w
    ensures forall p :: StoneGroupAt(gs.board, p).None?
    ensures gs.turn == Players.Black && gs.link == Start
    ensures gs.history == [Zobrist.EmptyBoardHashCode] && HistoryOk(gs) && !IsOver(gs)
    ensures BoardFacts.LibsNoDups(gs.board)
  {
    var b := NewBoard(h, w);
    GameState(b, Players.Black, Start, [b.hash])
  }

  function NewGame(): (gs: GameState)
    ensures gs.board.Width == 19 && gs.board.Height == 19 && HistoryOk(gs)
  {
    NewGameOfSize(19, 19)
  }

  /** NewGameState: the new position's hash joins the previous state's history unless it is
      already there. */
  function NewGameState(board: BoardValue, next: Players.Player, previous: GameState, m: Move): (gs: GameState)
    ensures gs.board == board && gs.turn == next && gs.link == After(previous, m)
    ensures gs.history == UpdateHistory(previous.history, board.hash).0
  {
    GameState(board, next, After(previous, m), UpdateHistory(previous.history, board.hash).0)
  }

  /** ApplyMove: a play is placed on a copy of the board, and a failed placement returns the
      receiver itself with the error; a pass or a resignation keeps the same board. */
  function ApplyMove(gs: GameState, m: Move): (r: (GameState, Option<PlaceError>))
    requires Indexed(gs.board)
    ensures Indexed(r.0.board) && r.0.board.Width == gs.board.Width && r.0.board.Height == gs.board.Height
    ensures r.1.Some? ==> m.IsPlay && r.0 == gs
    ensures r.1.None? ==> r.0.turn == Players.Other(gs.turn) && r.0.link == After(gs, m)
    ensures !m.IsPlay ==> r.1.None? && r.0.board == gs.board
    ensures m.IsPlay ==> r.1 == Place(CopyOf(gs.board), gs.turn, m.Pnt).err
    ensures m.IsPlay && r.1.None? ==> r.0.board == Place(CopyOf(gs.board), gs.turn, m.Pnt).board
  {
    if m.IsPlay then
      var placed := Place(CopyOf(gs.board), gs.turn, m.Pnt);
      if placed.err.Some? then (gs, placed.err)
      else (NewGameState(placed.board, Players.Other(gs.turn), gs, m), None)
    else
      (NewGameState(gs.board, Players.Other(gs.turn), gs, m), None)
  }

  // ---------------------------------------------------------------------------------------
  // Rules

  /** The board a play would give, on the scratch copy DoesMoveViolateKo and
      IsMoveSelfCapture make; the placement's error is ignored, as in Go. */
  function Simulated(gs: GameState, p: Players.Player, m: Move): (nb: BoardValue)
    requires Indexed(gs.board)
    ensures Indexed(nb)
  {
    Place(CopyOf(gs.board), p, m.Pnt).board
  }

  /** DoesMoveViolateKo: a play whose simulated hash was seen before. */
  predicate KoViolation(gs: GameState, p: Players.Player, m: Move)
    requires Indexed(gs.board)
  {
    m.IsPlay && Simulated(gs, p, m).hash in gs.history
  }

  /** IsMoveSelfCapture: after the simulated play the point holds no group, or a group without
      liberties. */
  predicate SelfCapture(gs: GameState, p: Players.Player, m: Move)
    requires Indexed(gs.board)
  {
    && m.IsPlay
    && var nb := Simulated(gs, p, m);
       match StoneGroupAt(nb, m.Pnt)
       case None => true
       case Some(g) => |nb.groups[g].Liberties| == 0
  }

  /** IsOver: a resignation ends the game, and so do two passes in a row. */
  predicate IsOver(gs: GameState)
  {
    match gs.link
    case Start => false
    case After(prev, lm) =>
      if lm.IsResign then true
      else
        match prev.link
        case Start => false
        case After(_, slm) => lm.IsPass && slm.IsPass
  }

  /** IsValidMove. The occupancy test reads Board.Get, which is nil exactly for an empty point. */
  predicate ValidMove(gs: GameState, m: Move)
    requires Indexed(gs.board)
  {
    if IsOver(gs) then false
    else if m.IsPass || m.IsResign then true
    else if ColorAt(gs.board, m.Pnt).Some? then false
    else !SelfCapture(gs, gs.turn, m) && !KoViolation(gs, gs.turn, m)
  }

  // ---------------------------------------------------------------------------------------
  // The result

  /** ComputeGameResult: each side's stones plus territory, with komi 7.5. */
  function ComputeGameResult(gs: GameState): (gr: GameResults.GameResult)
    ensures gr.Komi2 == GameResults.KOMI2
  {
    var t := EvaluateTerritory(gs.board);
    GameResults.GameResult(t.NumBlackStones + t.NumBlackTerritory, t.NumWhiteStones + t.NumWhiteTerritory, GameResults.KOMI2)
  }

  /** Winner: None while the game goes on; the player to move when the last move was a
      resignation (the resigner's opponent); otherwise the winner on the count. */
  function Winner(gs: GameState): (w: Players.Player)
    ensures !IsOver(gs) ==> w == Players.None
    ensures IsOver(gs) && Players.IsColour(gs.turn) ==> Players.IsColour(w)
  {
    if !IsOver(gs) then Players.None
    else if gs.link.lastMove.IsResign then gs.turn
    else GameResults.Winner(ComputeGameResult(gs))
  }

  // ---------------------------------------------------------------------------------------
  // Properties of the rules

  /** ApplyMove keeps the history invariant and only ever extends the history, by at most the
      new position's hash. */
  lemma ApplyKeepsHistory(gs: GameState, m: Move)
    requires Indexed(gs.board) && HistoryOk(gs)
    ensures var next := ApplyMove(gs, m).0;
      && HistoryOk(next)
      && |gs.history| <= |next.history| <= |gs.history| + 1
      && next.history[..|gs.history|] == gs.history
  {
  }

  /** A pass or a resignation keeps the board, whose hash the history already holds, so the
      history is left as it is. */
  lemma PassKeepsHistory(gs: GameState, m: Move)
    requires Indexed(gs.board) && HistoryOk(gs) && !m.IsPlay
    ensures ApplyMove(gs, m).0.history == gs.history
    ensures ApplyMove(gs, m).0.board == gs.board
  {
  }

  /** Because the copy starts from the empty board's hash, the hash recorded after a play is the
      empty board's hash with the mover's code at the point toggled in and the codes of the
      stones it captured toggled out: nothing of the rest of the position enters it. */
  lemma PlayHash(gs: GameState, p: Point)
    requires Indexed(gs.board)
    ensures var r := ApplyMove(gs, NewPlay(p));
      r.1.None? ==>
        && r.0.board.hash == BoardHash.ToggleKeys(Zobrist.Toggle(Zobrist.EmptyBoardHashCode, Zobrist.Code(p, gs.turn)),
                                                  BoardHash.PlaceCaptures(CopyOf(gs.board), gs.turn, p))
        && r.0.board.hash in r.0.history
  {
    BoardHash.PlaceHash(CopyOf(gs.board), gs.turn, p);
  }

  /** A consequence: once a play that captured nothing is in the history, the same player
      playing the same point again without a capture is taken for a ko, whatever else is on
      the board. */
  lemma RepeatedPlayIsKo(gs: GameState, p: Point)
    requires Indexed(gs.board)
    requires Zobrist.Toggle(Zobrist.EmptyBoardHashCode, Zobrist.Code(p, gs.turn)) in gs.history
    requires Place(CopyOf(gs.board), gs.turn, p).err.None?
    requires BoardHash.PlaceCaptures(CopyOf(gs.board), gs.turn, p) == []
    ensures KoViolation(gs, gs.turn, NewPlay(p))
    ensures !ValidMove(gs, NewPlay(p))
  {
    BoardHash.PlaceHash(CopyOf(gs.board), gs.turn, p);
  }

  /** On a board whose groups and map agree, a valid play is on the grid and on an empty
      point: an off-grid play leaves no group at its point, so it counts as self-capture. */
  lemma ValidPlayOnGrid(gs: GameState, p: Point)
    requires BoardCopy.Consistent(gs.board)
    requires ValidMove(gs, NewPlay(p))
    ensures OnGrid(gs.board, p) && StoneGroupAt(gs.board, p).None?
    ensures !IsOver(gs)
  {
    var ids := AllStoneGroups(gs.board);
    BoardCopy.CopySharesGroups(gs.board, ids);
  }

  /** A play on an empty on-grid point whose neighbours are all empty, one of them on the
      grid, is never taken for self-capture: the stone forms a group of its own, and that
      group has the empty on-grid neighbours as liberties. */
  lemma LonePlayNotSelfCapture(gs: GameState, p: Players.Player, pt: Point)
    requires BoardCopy.Consistent(gs.board) && OnGrid(gs.board, pt) && StoneGroupAt(gs.board, pt).None?
    requires forall q :: q in Neighbors(pt) ==> StoneGroupAt(gs.board, q).None?
    requires exists q :: q in Neighbors(pt) && OnGrid(gs.board, q)
    ensures !SelfCapture(gs, p, NewPlay(pt))
  {
    var b := gs.board;
    var ids := AllStoneGroups(b);
    var c := CopyInOrder(b, ids);
    assert c == CopyOf(b);
    BoardCopy.CopySharesGroups(b, ids);
    forall q | StoneGroupAt(b, q).None?
      ensures StoneGroupAt(c, q).None?
    {
      if StoneGroupAt(c, q).Some? {
        assert StoneGroupAt(b, q) == Some(ids[StoneGroupAt(c, q).value]);
      }
    }
    BoardExamples.PlaceAlone(c, p, pt);
    var q :| q in Neighbors(pt) && OnGrid(b, q);
    assert q in ScanUpTo(c, p, pt, 4).libs;
  }

  /** Liberty lists stay duplicate-free along a game: a new game's board has no group, and
      ApplyMove, which places on a copy, keeps them so. */
  lemma ApplyKeepsLibsNoDups(gs: GameState, m: Move)
    requires Indexed(gs.board) && BoardFacts.LibsNoDups(gs.board)
    ensures BoardFacts.LibsNoDups(ApplyMove(gs, m).0.board)
  {
    var b := gs.board;
    var c := CopyOf(b);
    assert BoardFacts.LibsNoDups(c) by {
      var ids := AllStoneGroups(b);
      assert c == CopyInOrder(b, ids);
    }
    BoardFacts.PlaceKeepsLibsNoDups(c, gs.turn, m.Pnt);
  }

  /** A resignation ends the game, and the player who did not resign wins. */
  lemma ResignationEnds(gs: GameState)
    requires Indexed(gs.board)
    ensures var next := ApplyMove(gs, NewResign()).0;
      IsOver(next) && Winner(next) == Players.Other(gs.turn)
  {
  }

  /** Two passes in a row end the game, which is then decided on the count with komi. */
  lemma TwoPassesEnd(gs: GameState)
    requires Indexed(gs.board)
    ensures var next := ApplyMove(ApplyMove(gs, NewPass()).0, NewPass()).0;
      && IsOver(next) && next.board == gs.board
      && Winner(next) == GameResults.Winner(ComputeGameResult(next))
  {
  }

  /** A successful play never ends the game, and neither does a pass after anything but a pass. */
  lemma PlayDoesNotEnd(gs: GameState, m: Move)
    requires Indexed(gs.board) && !m.IsResign
    requires !m.IsPass || gs.link.Start? || !gs.link.lastMove.IsPass
    ensures ApplyMove(gs, m).1.None? ==> !IsOver(ApplyMove(gs, m).0)
  {
  }

  // ---------------------------------------------------------------------------------------
  // LegalMoves

  /** ValidMove as a test on moves, for the position gs. */
  function ValidIn(gs: GameState): Move -> bool
    requires Indexed(gs.board)
  {
    (m: Move) => ValidMove(gs, m)
  }

  /** The plays at (r, c), (r, c + 1), ... up to column h that pass the test ok. */
  function RowPlays(ok: Move -> bool, h: nat, r: U16, c: nat): seq<Move>
    decreases h - c + 1
  {
    if c > h || c > 0xFFFF then []
    else
      var m := NewPlay(Point(r, c));
      (if ok(m) then [m] else []) + RowPlays(ok, h, r, c + 1)
  }

  /** The plays of rows r, r + 1, ... up to w, each row in column order up to h, that pass ok.
      The loops of LegalMoves bound rows by Width and columns by Height, as written. */
  function Plays(ok: Move -> bool, w: nat, h: nat, r: nat): seq<Move>
    decreases w - r + 1
  {
    if r > w || r > 0xFFFF then [] else RowPlays(ok, h, r, 1) + Plays(ok, w, h, r + 1)
  }

  /** Row-major order of points. */
  predicate Before(p: Point, q: Point)
  {
    p.Row < q.Row || (p.Row == q.Row && p.Col < q.Col)
  }

  /** What RowPlays lists: the plays in row r from column c on that pass ok ... */
  lemma {:induction false} RowPlaysMembers(ok: Move -> bool, h: nat, r: U16, c: nat)
    requires h <= 0xFFFF
    ensures forall m :: m in RowPlays(ok, h, r, c) <==>
      m == NewPlay(m.Pnt) && m.Pnt.Row == r && c <= m.Pnt.Col <= h && ok(m)
    decreases h - c + 1
  {
    if c <= h {
      RowPlaysMembers(ok, h, r, c + 1);
    }
  }

  /** ... in increasing column order. */
  lemma {:induction false} RowPlaysOrder(ok: Move -> bool, h: nat, r: U16, c: nat)
    ensures forall k :: 0 <= k < |RowPlays(ok, h, r, c)| ==>
      RowPlays(ok, h, r, c)[k].Pnt.Row == r && RowPlays(ok, h, r, c)[k].Pnt.Col >= c
    ensures forall i, j :: 0 <= i < j < |RowPlays(ok, h, r, c)| ==>
      Before(RowPlays(ok, h, r, c)[i].Pnt, RowPlays(ok, h, r, c)[j].Pnt)
    decreases h - c + 1
  {
    if c <= h && c <= 0xFFFF {
      RowPlaysOrder(ok, h, r, c + 1);
    }
  }

  /** What Plays lists: the plays in rows r to w and columns 1 to h that pass ok, in row-major
      order. */
  lemma {:induction false} PlaysFacts(ok: Move -> bool, w: nat, h: nat, r: nat)
    requires w <= 0xFFFF && h <= 0xFFFF && r >= 1
    ensures forall m :: m in Plays(ok, w, h, r) <==>
      exists q :: m == NewPlay(q) && r <= q.Row <= w && 1 <= q.Col <= h && ok(m)
    ensures forall i, j :: 0 <= i < j < |Plays(ok, w, h, r)| ==>
      Before(Plays(ok, w, h, r)[i].Pnt, Plays(ok, w, h, r)[j].Pnt)
    decreases w - r + 1
  {
    if r <= w {
      PlaysFacts(ok, w, h, r + 1);
      RowPlaysMembers(ok, h, r, 1);
      RowPlaysOrder(ok, h, r, 1);
      var row, rest := RowPlays(ok, h, r, 1), Plays(ok, w, h, r + 1);
      assert forall k :: 0 <= k < |row| ==> row[k] in row;
      assert forall k :: 0 <= k < |rest| ==> rest[k] in rest;
    }
  }

  /** The list LegalMoves returns. */
  function Legal(gs: GameState): (ms: seq<Move>)
    requires Indexed(gs.board)
    ensures |ms| >= 2 && NewPass() in ms && NewResign() in ms
  {
    Plays(ValidIn(gs), gs.board.Width, gs.board.Height, 1) + [NewPass(), NewResign()]
  }

  /** LegalMoves: the valid plays in row-major order, then Pass and Resign, which are always
      listed. Go's uint16 loop counters would wrap and never stop on a side of 65535, which is
      excluded. */
  method LegalMoves(gs: GameState) returns (moves: seq<Move>)
    requires Indexed(gs.board) && gs.board.Width < 0xFFFF && gs.board.Height < 0xFFFF
    ensures moves == Legal(gs)
  {
    moves := [];
    ghost var ok, w, h := ValidIn(gs), gs.board.Width as nat, gs.board.Height as nat;
    var r: U16 := 1;
    while r <= gs.board.Width
      invariant 1 <= r <= gs.board.Width + 1
      invariant moves + Plays(ok, w, h, r) == Plays(ok, w, h, 1)
    {
      var c: U16 := 1;
      while c <= gs.board.Height
        invariant 1 <= c <= gs.board.Height + 1
        invariant moves + RowPlays(ok, h, r, c) + Plays(ok, w, h, r + 1) == Plays(ok, w, h, 1)
      {
        var move := NewPlay(Point(r, c));
        ghost var before := moves;
        if ValidMove(gs, move) {
          moves := moves + [move];
        }
        assert ok(move) == ValidMove(gs, move);
        assert moves + RowPlays(ok, h, r, c + 1) == before + RowPlays(ok, h, r, c);
        c := c + 1;
      }
      assert RowPlays(ok, h, r, c) == [];
      assert moves + Plays(ok, w, h, r + 1) == Plays(ok, w, h, 1);
      r := r + 1;
    }
    moves := moves + [NewPass()];
    moves := moves + [NewResign()];
  }

  /** So the list holds exactly the valid plays of the loops' rectangle, each once, and ends
      with Pass and Resign. */
  lemma LegalMovesListed(gs: GameState)
    requires Indexed(gs.board)
    ensures var ms := Legal(gs);
      && ms[|ms| - 2] == NewPass() && ms[|ms| - 1] == NewResign()
      && (forall q :: NewPlay(q) in ms <==>
            1 <= q.Row <= gs.board.Width && 1 <= q.Col <= gs.board.Height && ValidMove(gs, NewPlay(q)))
      && forall i, j :: 0 <= i < j < |ms| - 2 ==> Before(ms[i].Pnt, ms[j].Pnt)
  {
    PlaysFacts(ValidIn(gs), gs.board.Width as nat, gs.board.Height as nat, 1);
  }

  // ---------------------------------------------------------------------------------------
  // CaptureDiff

  /** How many stones of colour lie at (r, c), (r, c + 1), ... up to column Height. */
  function RowCount(b: BoardValue, color: Players.Player, r: U16, c: nat): nat
    requires Indexed(b)
    decreases b.Height - c + 1
  {
    if c > b.Height then 0
    else (if ColorAt(b, Point(r, c)) == Some(color) then 1 else 0) + RowCount(b, color, r, c + 1)
  }

  /** How many stones of colour lie in rows r to Width and columns 1 to Height. */
  function Count(b: BoardValue, color: Players.Player, r: nat): nat
    requires Indexed(b)
    decreases b.Width - r + 1
  {
    if r > b.Width then 0 else RowCount(b, color, r, 1) + Count(b, color, r + 1)
  }

  /** The stone difference from the point of view of the player to move. */
  function StoneDiff(gs: GameState): int
    requires Indexed(gs.board)
  {
    var diff := Count(gs.board, Players.Black, 1) - Count(gs.board, Players.White, 1);
    if gs.turn == Players.Black then diff else -diff
  }

  /** CaptureDiff: the same loops as LegalMoves, counting black and white stones. */
  method CaptureDiff(gs: GameState) returns (d: int)
    requires Indexed(gs.board) && gs.board.Width < 0xFFFF && gs.board.Height < 0xFFFF
    ensures d == StoneDiff(gs)
  {
    var black, white := 0, 0;
    var r: U16 := 1;
    while r <= gs.board.Width
      invariant 1 <= r <= gs.board.Width + 1
      invariant black + Count(gs.board, Players.Black, r) == Count(gs.board, Players.Black, 1)
      invariant white + Count(gs.board, Players.White, r) == Count(gs.board, Players.White, 1)
    {
      var c: U16 := 1;
      while c <= gs.board.Height
        invariant 1 <= c <= gs.board.Height + 1
        invariant black + RowCount(gs.board, Players.Black, r, c) + Count(gs.board, Players.Black, r + 1)
               == Count(gs.board, Players.Black, 1)
        invariant white + RowCount(gs.board, Players.White, r, c) + Count(gs.board, Players.White, r + 1)
               == Count(gs.board, Players.White, 1)
      {
        var p := ColorAt(gs.board, Point(r, c));
        if p == Some(Players.White) {
          white := white + 1;
        } else if p == Some(Players.Black) {
          black := black + 1;
        }
        c := c + 1;
      }
      r := r + 1;
    }
    var diff := black - white;
    if gs.turn == Players.Black {
      return diff;
    }
    return -1 * diff;
  }

  /** A point holds at most one stone, so the two counts of a row together never exceed its
      number of columns... */
  lemma {:induction false} RowCountBound(b: BoardValue, r: U16, c: nat)
    requires Indexed(b) && c >= 1
    ensures RowCount(b, Players.Black, r, c) + RowCount(b, Players.White, r, c)
         <= if c > b.Height then 0 else b.Height - c + 1
    decreases b.Height - c + 1
  {
    if c <= b.Height {
      RowCountBound(b, r, c + 1);
    }
  }

  /** ... and of the whole rectangle, its number of points; the difference is bounded by it. */
  lemma {:induction false} CountBound(b: BoardValue, r: nat)
    requires Indexed(b) && r >= 1
    ensures Count(b, Players.Black, r) + Count(b, Players.White, r)
         <= if r > b.Width then 0 else (b.Width - r + 1) * b.Height
    decreases b.Width - r + 1
  {
    if r <= b.Width {
      CountBound(b, r + 1);
      RowCountBound(b, r, 1);
      assert (b.Width - r + 1) * b.Height == (b.Width - r) * b.Height + b.Height;
    }
  }

  lemma StoneDiffBound(gs: GameState)
    requires Indexed(gs.board)
    ensures -(gs.board.Width * gs.board.Height) <= StoneDiff(gs) <= gs.board.Width * gs.board.Height
  {
    CountBound(gs.board, 1);
  }

  /** A pass hands the move to the other side on the same board, so the difference changes
      sign. */
  lemma PassNegatesStoneDiff(gs: GameState)
    requires Indexed(gs.board)
    ensures StoneDiff(ApplyMove(gs, NewPass()).0) == -StoneDiff(gs)
  {
  }
}
