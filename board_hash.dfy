/** The Zobrist hash after a placement (board.go): the old hash with the code of the placed
    stone toggled in, then the code of every captured stone, with its colour, toggled out. */
module BoardHash {
  import opened Wrappers
  import opened Points
  import opened Seqs
  import opened Stones
  import opened Boards
  import opened BoardFacts
  import opened Zobrist
  import Players

  /** The table keys of a group's stones, in the order of its stone list. */
  function Keys(stones: seq<Point>, c: Players.Player): (ks: seq<BoardPoint>)
    ensures |ks| == |stones|
    ensures forall k :: 0 <= k < |ks| ==> ks[k] == BoardPoint(stones[k], c)
  {
    if stones == [] then [] else Keys(stones[..|stones| - 1], c) + [BoardPoint(stones[|stones| - 1], c)]
  }

  /** The hash after toggling the code of each key, in order. */
  function ToggleKeys(h: bv64, ks: seq<BoardPoint>): bv64
  {
    if ks == [] then h else Toggle(ToggleKeys(h, ks[..|ks| - 1]), Code(ks[|ks| - 1].Pnt, ks[|ks| - 1].Player))
  }

  lemma {:induction false} ToggleKeysAppend(h: bv64, xs: seq<BoardPoint>, ys: seq<BoardPoint>)
    ensures ToggleKeys(h, xs + ys) == ToggleKeys(ToggleKeys(h, xs), ys)
    decreases |ys|
  {
    if ys == [] {
      assert xs + ys == xs;
    } else {
      var l := |ys| - 1;
      assert (xs + ys)[..|xs + ys| - 1] == xs + ys[..l];
      assert (xs + ys)[|xs + ys| - 1] == ys[l];
      ToggleKeysAppend(h, xs, ys[..l]);
    }
  }

  /** Toggling a group's keys is what removeStones does to the hash. */
  lemma {:induction false} ToggleKeysOfStones(h: bv64, stones: seq<Point>, c: Players.Player)
    ensures ToggleKeys(h, Keys(stones, c)) == ToggleStones(h, stones, c)
  {
    if stones != [] {
      ToggleKeysOfStones(h, stones[..|stones| - 1], c);
    }
  }

  /** The keys of the stones the capture loop removes from its i-th turn on, in the order it
      removes them; nothing after a removal that fails. */
  function Captured(b: BoardValue, opp: seq<GroupId>, i: nat): seq<BoardPoint>
    requires Indexed(b) && i <= |opp| && IdsIn(opp, |b.groups|)
    decreases |opp| - i
  {
    if i == |opp| then []
    else if |b.groups[opp[i]].Liberties| != 0 then Captured(b, opp, i + 1)
    else
      var r := RemoveGroup(b, opp[i]);
      if r.err.Some? then []
      else Keys(b.groups[opp[i]].Stones, b.groups[opp[i]].Color) + Captured(r.board, opp, i + 1)
  }

  /** A point the loop clears: it held a stone before and holds none after. */
  ghost predicate Cleared(b: BoardValue, r: BoardValue, q: Point)
  {
    StoneGroupAt(b, q).Some? && StoneGroupAt(r, q).None?
  }

  /** When the capture loop succeeds, its hash is the old one with the captured keys toggled. */
  lemma {:induction false} CaptureFromHash(b: BoardValue, opp: seq<GroupId>, i: nat)
    requires Indexed(b) && i <= |opp| && IdsIn(opp, |b.groups|)
    ensures CaptureFrom(b, opp, i).err.None? ==>
      CaptureFrom(b, opp, i).board.hash == ToggleKeys(b.hash, Captured(b, opp, i))
    decreases |opp| - i
  {
    if i < |opp| {
      var o := opp[i];
      if |b.groups[o].Liberties| != 0 {
        CaptureFromHash(b, opp, i + 1);
      } else {
        var r1 := RemoveGroup(b, o);
        if r1.err.None? {
          RemoveGroupFacts(b, o);
          CaptureFromHash(r1.board, opp, i + 1);
          var ks := Keys(b.groups[o].Stones, b.groups[o].Color);
          ToggleKeysAppend(b.hash, ks, Captured(r1.board, opp, i + 1));
          ToggleKeysOfStones(b.hash, b.groups[o].Stones, b.groups[o].Color);
        }
      }
    }
  }

  /** ... and the captured keys are exactly the cleared points, each with the colour its stone
      had. */
  lemma {:induction false} CapturedAreCleared(b: BoardValue, opp: seq<GroupId>, i: nat)
    requires Indexed(b) && i <= |opp| && IdsIn(opp, |b.groups|)
    ensures var r, cs := CaptureFrom(b, opp, i), Captured(b, opp, i);
      r.err.None? ==>
        && (forall q :: Cleared(b, r.board, q) <==> exists c :: BoardPoint(q, c) in cs)
        && forall k :: k in cs ==> ColorAt(b, k.Pnt) == Some(k.Player)
    decreases |opp| - i
  {
    if i < |opp| {
      var o := opp[i];
      if |b.groups[o].Liberties| != 0 {
        assert CaptureFrom(b, opp, i) == CaptureFrom(b, opp, i + 1);
        assert Captured(b, opp, i) == Captured(b, opp, i + 1);
        CapturedAreCleared(b, opp, i + 1);
      } else {
        var r1 := RemoveGroup(b, o);
        if r1.err.None? {
          RemovalStep(b, opp, i);
        }
      }
    }
  }

  /** The removal step of CapturedAreCleared. */
  lemma {:induction false} RemovalStep(b: BoardValue, opp: seq<GroupId>, i: nat)
    requires Indexed(b) && i < |opp| && IdsIn(opp, |b.groups|)
    requires |b.groups[opp[i]].Liberties| == 0 && RemoveGroup(b, opp[i]).err.None?
    ensures var r, cs := CaptureFrom(b, opp, i), Captured(b, opp, i);
      r.err.None? ==>
        && (forall q :: Cleared(b, r.board, q) <==> exists c :: BoardPoint(q, c) in cs)
        && forall k :: k in cs ==> ColorAt(b, k.Pnt) == Some(k.Player)
    decreases |opp| - i, 0
  {
    var o := opp[i];
    var r1 := RemoveGroup(b, o).board;
    var r := CaptureFrom(b, opp, i);
    assert r == CaptureFrom(r1, opp, i + 1);
    if r.err.None? {
      RemoveGroupFacts(b, o);
      CapturedAreCleared(r1, opp, i + 1);
      CaptureFromMap(r1, opp, i + 1);
      RemovalCleared(b, r1, r.board, o, Captured(r1, opp, i + 1));
      RemovalColours(b, r1, o, Captured(r1, opp, i + 1));
    }
  }

  /** A group's stones then the rest: cleared from b to r are the group's stones, whose
      entries r1 clears and r keeps clear, and the points cleared from r1 to r. */
  lemma RemovalCleared(b: BoardValue, r1: BoardValue, r: BoardValue, o: GroupId, rest: seq<BoardPoint>)
    requires Indexed(b) && o < |b.groups| && GroupMatches(b, o)
    requires forall q :: StoneGroupAt(r1, q) == if q in b.groups[o].Stones then None else StoneGroupAt(b, q)
    requires forall q :: StoneGroupAt(r, q) != StoneGroupAt(r1, q) ==> StoneGroupAt(r, q).None?
    requires forall q :: Cleared(r1, r, q) <==> exists c :: BoardPoint(q, c) in rest
    ensures var cs := Keys(b.groups[o].Stones, b.groups[o].Color) + rest;
      forall q :: Cleared(b, r, q) <==> exists c :: BoardPoint(q, c) in cs
  {
    var stones, color := b.groups[o].Stones, b.groups[o].Color;
    var ks := Keys(stones, color);
    var cs := ks + rest;
    forall q
      ensures Cleared(b, r, q) <==> exists c :: BoardPoint(q, c) in cs
    {
      if q in stones {
        var k :| 0 <= k < |stones| && stones[k] == q;
        assert ks[k] == BoardPoint(q, color) && ks[k] in cs;
        assert StoneGroupAt(b, q) == Some(o);
      } else {
        assert Cleared(b, r, q) <==> Cleared(r1, r, q);
        if Cleared(b, r, q) {
          var c :| BoardPoint(q, c) in rest;
          assert BoardPoint(q, c) in cs;
        }
      }
    }
  }

  /** Each captured key has the colour its stone had before the loop. */
  lemma RemovalColours(b: BoardValue, r1: BoardValue, o: GroupId, rest: seq<BoardPoint>)
    requires Indexed(b) && Indexed(r1) && o < |b.groups| && GroupMatches(b, o)
    requires |r1.groups| == |b.groups| && SameShapes(b, r1)
    requires forall q :: StoneGroupAt(r1, q) == if q in b.groups[o].Stones then None else StoneGroupAt(b, q)
    requires forall k :: k in rest ==> ColorAt(r1, k.Pnt) == Some(k.Player)
    ensures var cs := Keys(b.groups[o].Stones, b.groups[o].Color) + rest;
      forall k :: k in cs ==> ColorAt(b, k.Pnt) == Some(k.Player)
  {
    var stones, color := b.groups[o].Stones, b.groups[o].Color;
    var ks := Keys(stones, color);
    forall k | k in ks + rest
      ensures ColorAt(b, k.Pnt) == Some(k.Player)
    {
      if k in ks {
        var j :| 0 <= j < |ks| && ks[j] == k;
        assert k.Pnt in stones;
      } else {
        assert k in rest;
      }
    }
  }

  /** The keys of the stones a placement captures, in the order it captures them. */
  function PlaceCaptures(b: BoardValue, turn: Players.Player, p: Point): seq<BoardPoint>
    requires Indexed(b)
  {
    if !OnGrid(b, p) || StoneGroupAt(b, p).Some? then []
    else
      var sc := ScanUpTo(b, turn, p, 4);
      match MergeFrom(Group(turn, [p], sc.libs), sc.same, b.groups, 0)
      case None => []
      case Some(newsg) =>
        var r2 := RemoveLibFrom(Join(b, newsg, turn, p), sc.opp, p, 0);
        if r2.err.Some? then [] else Captured(r2.board, sc.opp, 0)
  }

  /** After a successful placement the hash is the old one with the placed stone's code
      toggled in and then the code of each captured stone, with its colour, toggled out. */
  lemma PlaceHash(b: BoardValue, turn: Players.Player, p: Point)
    requires Indexed(b)
    ensures Place(b, turn, p).err.None? ==>
      Place(b, turn, p).board.hash == ToggleKeys(Toggle(b.hash, Code(p, turn)), PlaceCaptures(b, turn, p))
  {
    if OnGrid(b, p) && StoneGroupAt(b, p).None? {
      var sc, newsg, b1, r2 := PlaceSteps(b, turn, p);
      JoinFacts(b, newsg, turn, p);
      if r2.err.None? {
        assert PlaceCaptures(b, turn, p) == Captured(r2.board, sc.opp, 0);
        CaptureFromHash(r2.board, sc.opp, 0);
      }
    }
  }

  /** ... and the captured keys are exactly the points the placement clears, each with the
      colour its stone had. */
  lemma PlaceCleared(b: BoardValue, turn: Players.Player, p: Point)
    requires Indexed(b)
    ensures var r, cs := Place(b, turn, p), PlaceCaptures(b, turn, p);
      r.err.None? ==>
        && (forall q :: Cleared(b, r.board, q) <==> exists c :: BoardPoint(q, c) in cs)
        && forall k :: k in cs ==> ColorAt(b, k.Pnt) == Some(k.Player)
  {
    if OnGrid(b, p) && StoneGroupAt(b, p).None? {
      var sc, newsg, b1, r2 := PlaceSteps(b, turn, p);
      var n := |b.groups|;
      if r2.err.None? && CaptureFrom(r2.board, sc.opp, 0).err.None? {
        var r, cs := CaptureFrom(r2.board, sc.opp, 0).board, Captured(r2.board, sc.opp, 0);
        assert PlaceCaptures(b, turn, p) == cs;
        CapturedAreCleared(r2.board, sc.opp, 0);
        LoopsKeepGroup(b1, sc.opp, p, n);
        RemoveLibFromFacts(b1, sc.opp, p, 0);
        forall q
          ensures Cleared(b, r, q) <==> Cleared(r2.board, r, q)
        {
          if q in newsg.Stones {
            assert StoneGroupAt(b1, q) == Some(n);
          }
        }
        forall k | k in cs
          ensures ColorAt(b, k.Pnt) == Some(k.Player)
        {
          assert Cleared(r2.board, r, k.Pnt);
          assert k.Pnt !in newsg.Stones;
        }
      }
    }
  }
}
