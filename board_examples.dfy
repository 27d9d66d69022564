/** Concrete positions from the liberty tests of the board game (board_test.go and
    game_test.go): the liberties a stone gets on an otherwise empty board, and what a
    neighbouring play of the other colour takes away. */
module BoardExamples {
  import opened Wrappers
  import opened Points
  import opened Seqs
  import opened Stones
  import opened Boards
  import opened BoardFacts
  import Players

  /** A stone played on a board whose neighbourhood of p is empty: it forms a group of its own
      whose liberties are the on-grid neighbours in the order Neighbors lists them, and
      nothing else happens. */
  lemma PlaceAlone(b: BoardValue, turn: Players.Player, p: Point)
    requires Indexed(b) && OnGrid(b, p) && StoneGroupAt(b, p).None?
    requires forall q :: q in Neighbors(p) ==> StoneGroupAt(b, q).None?
    ensures var r, n := Place(b, turn, p), |b.groups|;
      && r.err.None? && |r.board.groups| == n + 1
      && r.board.groups[..n] == b.groups
      && r.board.groups[n] == Group(turn, [p], ScanUpTo(b, turn, p, 4).libs)
      && (forall q :: q in ScanUpTo(b, turn, p, 4).libs <==> q in Neighbors(p) && OnGrid(b, q))
      && forall q :: StoneGroupAt(r.board, q) == if q == p then Some(n) else StoneGroupAt(b, q)
  {
    var sc, newsg, b1, r2 := PlaceSteps(b, turn, p);
    ScanFacts(b, turn, p, 4);
    assert Neighbors(p)[..4] == Neighbors(p);
    assert sc.same == [];
    assert sc.opp == [];
  }

  /** The empty neighbours of the corner point (1, 1) and of the edge point (3, 1) of an
      empty 9 by 9 board, in the order the scan meets them. */
  lemma CornerScan(turn: Players.Player)
    ensures ScanUpTo(NewBoard(9, 9), turn, Point(1, 1), 4).libs == [Point(2, 1), Point(1, 2)]
  {
    var b, p := NewBoard(9, 9), Point(1, 1);
    assert ScanUpTo(b, turn, p, 1).libs == [];
    assert ScanUpTo(b, turn, p, 2).libs == [Point(2, 1)];
    assert ScanUpTo(b, turn, p, 3).libs == [Point(2, 1), Point(1, 2)];
  }

  lemma EdgeScan(turn: Players.Player)
    ensures ScanUpTo(NewBoard(9, 9), turn, Point(3, 1), 4).libs == [Point(4, 1), Point(3, 2), Point(2, 1)]
  {
    var b, p := NewBoard(9, 9), Point(3, 1);
    assert ScanUpTo(b, turn, p, 1).libs == [];
    assert ScanUpTo(b, turn, p, 2).libs == [Point(4, 1)];
    assert ScanUpTo(b, turn, p, 3).libs == [Point(4, 1), Point(3, 2)];
  }

  /** A corner stone on an empty board has two liberties; a stone on the edge, three. */
  lemma CornerAndEdgeLiberties(turn: Players.Player)
    ensures |Place(NewBoard(9, 9), turn, Point(1, 1)).board.groups[0].Liberties| == 2
    ensures |Place(NewBoard(9, 9), turn, Point(3, 1)).board.groups[0].Liberties| == 3
  {
    PlaceAlone(NewBoard(9, 9), turn, Point(1, 1));
    CornerScan(turn);
    PlaceAlone(NewBoard(9, 9), turn, Point(3, 1));
    EdgeScan(turn);
  }

  // ---------------------------------------------------------------------------------------
  // Taking a liberty on a 5 by 5 board: Black (3, 3), White (2, 2), then Black (3, 2)

  const B55: BoardValue := NewBoard(5, 5)
  const FirstGroup := Group(Players.Black, [Point(3, 3)], [Point(3, 2), Point(4, 3), Point(3, 4), Point(2, 3)])
  const WhiteLiberties := [Point(2, 1), Point(3, 2), Point(2, 3), Point(1, 2)]

  /** The position after the first stone, and after the second. */
  ghost predicate AfterFirst(b: BoardValue)
  {
    && b.Width == 5 && b.Height == 5 && b.groups == [FirstGroup]
    && forall q :: StoneGroupAt(b, q) == if q == Point(3, 3) then Some(0) else None
  }

  ghost predicate AfterSecond(b: BoardValue)
  {
    && b.Width == 5 && b.Height == 5
    && b.groups == [FirstGroup, Group(Players.White, [Point(2, 2)], WhiteLiberties)]
    && forall q :: StoneGroupAt(b, q) ==
         if q == Point(3, 3) then Some(0) else if q == Point(2, 2) then Some(1) else None
  }

  lemma FirstScan(b: BoardValue)
    requires Indexed(b) && b.Width == 5 && b.Height == 5 && forall q :: StoneGroupAt(b, q).None?
    ensures ScanUpTo(b, Players.Black, Point(3, 3), 4).libs == FirstGroup.Liberties
  {
    var p := Point(3, 3);
    assert ScanUpTo(b, Players.Black, p, 1).libs == [Point(3, 2)];
    assert ScanUpTo(b, Players.Black, p, 2).libs == [Point(3, 2), Point(4, 3)];
    assert ScanUpTo(b, Players.Black, p, 3).libs == [Point(3, 2), Point(4, 3), Point(3, 4)];
  }

  lemma FirstStone()
    ensures var r := Place(B55, Players.Black, Point(3, 3));
      r.err.None? && Indexed(r.board) && AfterFirst(r.board)
  {
    PlaceAlone(B55, Players.Black, Point(3, 3));
    FirstScan(B55);
  }

  lemma SecondScan(b: BoardValue)
    requires Indexed(b) && AfterFirst(b)
    ensures ScanUpTo(b, Players.White, Point(2, 2), 4).libs == WhiteLiberties
  {
    var p := Point(2, 2);
    assert ScanUpTo(b, Players.White, p, 1).libs == [Point(2, 1)];
    assert ScanUpTo(b, Players.White, p, 2).libs == [Point(2, 1), Point(3, 2)];
    assert ScanUpTo(b, Players.White, p, 3).libs == [Point(2, 1), Point(3, 2), Point(2, 3)];
  }

  lemma SecondStone(b: BoardValue)
    requires Indexed(b) && AfterFirst(b)
    ensures var r := Place(b, Players.White, Point(2, 2));
      r.err.None? && Indexed(r.board) && AfterSecond(r.board)
  {
    PlaceAlone(b, Players.White, Point(2, 2));
    SecondScan(b);
  }

  /** The scan of Black (3, 2) meets the White group once, as the only opposite group. */
  lemma ThirdScan(b: BoardValue)
    requires Indexed(b) && AfterSecond(b)
    ensures ScanUpTo(b, Players.Black, Point(3, 2), 4).opp == [1]
  {
    var p := Point(3, 2);
    assert ScanUpTo(b, Players.Black, p, 1).opp == [];
    assert ScanUpTo(b, Players.Black, p, 2).opp == [];
    assert ScanUpTo(b, Players.Black, p, 3).opp == [];
  }

  /** Taking (3, 2) from the White stone's liberties moves the last one, (1, 2), into its slot. */
  lemma WhiteLosesOne()
    ensures WithoutLiberty(Group(Players.White, [Point(2, 2)], WhiteLiberties), Point(3, 2)).Liberties
         == [Point(2, 1), Point(1, 2), Point(2, 3)]
  {
    assert FirstIndex(WhiteLiberties, Point(3, 2)) == 1;
  }

  lemma LibertySets()
    ensures Elems(WhiteLiberties) == {Point(2, 1), Point(3, 2), Point(2, 3), Point(1, 2)}
    ensures Elems([Point(2, 1), Point(1, 2), Point(2, 3)]) == {Point(2, 1), Point(2, 3), Point(1, 2)}
  {
  }

  /** Black (3, 2) takes exactly the liberty (3, 2) from the White group, whose last liberty
      moves into the freed slot, and captures nothing. */
  lemma ThirdStone(b: BoardValue)
    requires Indexed(b) && AfterSecond(b)
    ensures var r := Place(b, Players.Black, Point(3, 2));
      && r.err.None? && StoneGroupAt(r.board, Point(2, 2)) == Some(1)
      && r.board.groups[1].Liberties == [Point(2, 1), Point(1, 2), Point(2, 3)]
  {
    var p := Point(3, 2);
    var sc, newsg, b1, r2 := PlaceSteps(b, Players.Black, p);
    ThirdScan(b);
    assert b1.groups[1] == b.groups[1];
    WhiteLosesOne();
    assert r2 == RemoveLibFrom(b1.(groups := b1.groups[1 := WithoutLiberty(b1.groups[1], p)]), [1], p, 1);
    assert CaptureFrom(r2.board, [1], 0) == Placed(r2.board, None);
  }

  /** On 5 by 5, after Black (3, 3), White (2, 2) has the liberty set {(2,1), (3,2), (2,3), (1,2)};
      after Black (3, 2) it is {(2,1), (2,3), (1,2)}. */
  lemma TakeLiberty()
    ensures var b2 := Place(Place(B55, Players.Black, Point(3, 3)).board, Players.White, Point(2, 2)).board;
      var r := Place(b2, Players.Black, Point(3, 2));
      && StoneGroupAt(b2, Point(2, 2)) == Some(1)
      && Elems(b2.groups[1].Liberties) == {Point(2, 1), Point(3, 2), Point(2, 3), Point(1, 2)}
      && r.err.None? && StoneGroupAt(r.board, Point(2, 2)) == Some(1)
      && Elems(r.board.groups[1].Liberties) == {Point(2, 1), Point(2, 3), Point(1, 2)}
  {
    FirstStone();
    var b1 := Place(B55, Players.Black, Point(3, 3)).board;
    SecondStone(b1);
    var b2 := Place(b1, Players.White, Point(2, 2)).board;
    ThirdStone(b2);
    LibertySets();
  }
}
