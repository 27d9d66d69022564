/** The Zobrist table (board-point.go and the generated hash table). A key is a point together
    with a player; Go's table is a map filled with random 64-bit values, so the model leaves
    both the table and the empty-board value unspecified. Go's int64 XOR is bitwise, so the
    values are bit-vectors here. */
module Zobrist {
  import opened Points
  import Players

  datatype BoardPoint = BoardPoint(Pnt: Point, Player: Players.Player)

  function NewBoardPoint(row: U16, col: U16, player: Players.Player): (bp: BoardPoint)
    ensures bp.Pnt.Row == row && bp.Pnt.Col == col && bp.Player == player
  {
    BoardPoint(Point(row, col), player)
  }

  /** The random table; a key it lacks reads as 0, like a missing key of a Go map. */
  const BoardPointHashCode: map<BoardPoint, bv64>

  /** The hash of the empty board. */
  const EmptyBoardHashCode: bv64

  /** BoardPointHashCode[NewBoardPoint(p.Row, p.Col, c)]. */
  function Code(p: Point, c: Players.Player): bv64
  {
    var k := NewBoardPoint(p.Row, p.Col, c);
    if k in BoardPointHashCode then BoardPointHashCode[k] else 0
  }

  /** Go's ^ on the hash: a stone's code is XORed in when it is placed and out when it is
      captured. */
  function Toggle(h: bv64, code: bv64): bv64
  {
    h ^ code
  }

  /** Toggling the same code twice restores the hash: a stone placed and then captured leaves
      no trace in it. */
  lemma ToggleTwice(h: bv64, code: bv64)
    ensures Toggle(Toggle(h, code), code) == h
  {
  }
}
