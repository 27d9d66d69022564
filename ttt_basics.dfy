/** The two marks of tic-tac-toe (ttt/player.go). As in the board game, `Player` is a Go byte:
    0, 1 and 2 are named, every other value is a Player too. */
module TttPlayers {

  newtype Player = x: int | 0 <= x < 256

  const None: Player := 0
  const X: Player := 1
  const O: Player := 2

  /** The two marks that move. */
  predicate IsMark(p: Player) { p == X || p == O }

  /** O after X, X after anything else. */
  function Other(p: Player): (r: Player)
    ensures IsMark(r)
  {
    if p == X then O else X
  }

  /** "O" and "X" name the two marks; every other value is printed as "None". */
  function String(p: Player): string
  {
    if p == O then "O" else if p == X then "X" else "None"
  }

  /** The three names are told apart exactly along the marks. */
  lemma StringNames(p: Player)
    ensures String(p) == "X" <==> p == X
    ensures String(p) == "O" <==> p == O
    ensures String(p) == "None" <==> !IsMark(p)
  {
  }

  /** X and O alternate; the empty player hands the turn to X. */
  lemma OtherSwapsMarks()
    ensures Other(X) == O && Other(O) == X && Other(None) == X
  {
  }

  /** Other is an involution on the two marks and on nothing else. */
  lemma OtherInvolution(p: Player)
    ensures Other(Other(p)) == p <==> IsMark(p)
  {
  }
}

/** The outcome of a tic-tac-toe position for the player to move (ttt/gameResult.go), a Go byte
    ordered Loss < Draw < Win. */
module TttResults {

  newtype GameResult = x: int | 0 <= x < 256

  const Loss: GameResult := 0
  const Draw: GameResult := 1
  const Win: GameResult := 2

  predicate IsOutcome(r: GameResult) { r <= Win }

  /** The same outcome seen by the other side: a loss is the opponent's win and the reverse;
      Draw, and every byte that names no outcome, reads as a draw. */
  function Reverse(r: GameResult): (s: GameResult)
    ensures IsOutcome(s)
  {
    if r == Loss then Win else if r == Win then Loss else Draw
  }

  lemma ReverseOutcomes()
    ensures Reverse(Loss) == Win && Reverse(Win) == Loss && Reverse(Draw) == Draw
    ensures forall r :: !IsOutcome(r) ==> Reverse(r) == Draw
  {
  }

  /** Reversal undoes itself exactly on the three outcomes. */
  lemma ReverseInvolution(r: GameResult)
    ensures Reverse(Reverse(r)) == r <==> IsOutcome(r)
  {
  }

  /** Reversal turns the order of outcomes around: what is better for one side is worse for the
      other. */
  lemma ReverseAntitone(r: GameResult, s: GameResult)
    requires IsOutcome(r) && IsOutcome(s)
    ensures r < s <==> Reverse(s) < Reverse(r)
  {
  }
}

/** The coordinates of tic-tac-toe (ttt/point.go). The type, and PointFromCoords, are the same
    code as the board game's point.go, so `Points.Point` and `Points.PointFromCoords` serve
    both; the record form of a point is ttt's own. */
module TttPoints {
  import opened Wrappers
  import opened Points
  import Strconv
  import Moves

  /** The column letter COLS[Col-1] followed by the row in decimal; Go's index is out of range
      unless 1 <= Col <= 19. */
  function String(p: Point): (s: string)
    requires 1 <= p.Col <= 19
  {
    [COLS[p.Col - 1]] + Strconv.Itoa(p.Row)
  }

  /** Reading back the written form of a point gives the point again. */
  lemma PointRoundTrip(p: Point)
    requires 1 <= p.Col <= 19
    ensures PointFromCoords(String(p)) == Some(p)
  {
    assert String(p) == Moves.StringChessRecord(Moves.NewPlay(p));
    Moves.ChessRecordRoundTrip(p);
  }

  /** The written form is a letter of COLS followed by a decimal numeral, so distinct points
      have distinct written forms. */
  lemma StringInjective(p: Point, q: Point)
    requires 1 <= p.Col <= 19 && 1 <= q.Col <= 19
    ensures String(p) == String(q) <==> p == q
  {
    if String(p) == String(q) {
      PointRoundTrip(p);
      PointRoundTrip(q);
    }
  }
}
