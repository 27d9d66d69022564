/** A move (move.go): a play at a point, a pass or a resignation, kept as the Go struct with its
    three flags, so that flag combinations no constructor produces still have a meaning. */
module Moves {
  import opened Wrappers
  import opened Points
  import Players
  import Strconv

  datatype Move = Move(Pnt: Point, IsPlay: bool, IsPass: bool, IsResign: bool)

  function NewPlay(p: Point): (m: Move)
    ensures m.Pnt == p && m.IsPlay && !m.IsPass && !m.IsResign
  {
    Move(p, true, false, false)
  }

  /** Pass and Resign carry Go's zero Point. */
  function NewPass(): (m: Move)
    ensures m.Pnt == Point(0, 0) && !m.IsPlay && m.IsPass && !m.IsResign
  {
    Move(Point(0, 0), false, true, false)
  }

  function NewResign(): (m: Move)
    ensures m.Pnt == Point(0, 0) && !m.IsPlay && !m.IsPass && m.IsResign
  {
    Move(Point(0, 0), false, false, true)
  }

  /** A play with neither of the other flags set. */
  predicate IsPurePlay(m: Move) { m.IsPlay && !(m.IsPass || m.IsResign) }

  /** fmt.Sprint("Play{", Row, Col, "}") puts a space between the two numbers only, since
      Sprint separates operands when neither is a string. */
  function PlayText(p: Point): string
  {
    "Play{" + Strconv.Itoa(p.Row) + " " + Strconv.Itoa(p.Col) + "}"
  }

  function String(m: Move): (s: string)
    ensures IsPurePlay(m) ==> s == PlayText(m.Pnt)
    ensures m.IsResign ==> s == "Resign 认输"
    ensures m.IsPass && !m.IsResign ==> s == "Pass 跳过"
    ensures !m.IsPlay && !m.IsPass && !m.IsResign ==> s == "Invalid"
  {
    if IsPurePlay(m) then PlayText(m.Pnt)
    else if m.IsPass && !m.IsResign then "Pass 跳过"
    else if m.IsResign then "Resign 认输"
    else "Invalid"
  }

  /** The record form of a play: the column letter COLS[Col-1], then the row in decimal. Go
      indexes COLS with Col-1, which is out of range unless 1 <= Col <= 19. */
  function StringChessRecord(m: Move): (s: string)
    requires IsPurePlay(m) ==> 1 <= m.Pnt.Col <= 19
    ensures IsPurePlay(m) ==> |s| >= 2 && s[0] == COLS[m.Pnt.Col - 1] && s[1..] == Strconv.Itoa(m.Pnt.Row)
    ensures !IsPurePlay(m) ==> s == String(m)
  {
    if IsPurePlay(m) then [COLS[m.Pnt.Col - 1]] + Strconv.Itoa(m.Pnt.Row) else String(m)
  }

  /** The player's name, a space, then the record form of the move: for a play, the text after
      the space reads back as the play's point. */
  function PrintMove(p: Players.Player, m: Move): (s: string)
    requires IsPurePlay(m) ==> 1 <= m.Pnt.Col <= 19
    ensures var n := |Players.String(p)|;
      && |s| > n + 1 && s[..n] == Players.String(p) && s[n] == ' '
      && (IsPurePlay(m) ==> PointFromCoords(s[n + 1..]) == Some(m.Pnt))
      && (!IsPurePlay(m) ==> s[n + 1..] == String(m))
  {
    var s := Players.String(p) + " " + StringChessRecord(m);
    assert s[|Players.String(p)| + 1..] == StringChessRecord(m);
    if IsPurePlay(m) then
      assert m == NewPlay(m.Pnt);
      ChessRecordRoundTrip(m.Pnt);
      s
    else s
  }

  /** The letters of COLS ascend strictly from one position to the next ... */
  lemma {:induction false} AscendingChain(s: string, a: nat, b: nat)
    requires forall i :: 0 <= i < |s| - 1 ==> s[i] < s[i + 1]
    requires a < b < |s|
    ensures s[a] < s[b]
    decreases b - a
  {
    if a + 1 < b {
      AscendingChain(s, a + 1, b);
    }
  }

  /** ... so each column letter occurs once in COLS, and its first index is its position. */
  lemma ColsIndex(k: nat)
    requires k < 19
    ensures IndexOf(COLS, COLS[k]) == k
  {
    assert forall i :: 0 <= i < |COLS| - 1 ==> COLS[i] < COLS[i + 1];
    var i := IndexOf(COLS, COLS[k]);
    if i < k {
      AscendingChain(COLS, i, k);
    }
  }

  /** Reading back the record form of a play gives its point again, for every column that has a
      letter. */
  lemma ChessRecordRoundTrip(p: Point)
    requires 1 <= p.Col <= 19
    ensures PointFromCoords(StringChessRecord(NewPlay(p))) == Some(p)
  {
    var c, digits := COLS[p.Col - 1], Strconv.Itoa(p.Row);
    assert StringChessRecord(NewPlay(p)) == [c] + digits;
    ColsIndex(p.Col - 1);
    Strconv.AtoiOfItoa(p.Row);
    PointFromLetterAndDigits(c, digits);
    assert IndexOf(COLS, c) + 1 == p.Col;
    assert Strconv.Atoi(digits).value % 0x1_0000 == p.Row by {
      U16Mod(p.Row);
    }
  }
}
