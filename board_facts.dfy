/** What removeStones and PlaceStone (board.go) do to a board, stated on the specification
    functions of module Boards: which points change group, which groups gain or lose
    liberties, and how the hash moves. */
module BoardFacts {
  import opened Wrappers
  import opened Points
  import opened Seqs
  import opened Stones
  import opened Boards
  import Players
  import Zobrist

  // ---------------------------------------------------------------------------------------
  // Liberties given back by a removed stone

  /** Each liberty list only gains points. */
  predicate LibertiesGrow(b: BoardValue, r: BoardValue)
    requires |r.groups| == |b.groups|
  {
    forall h, x :: 0 <= h < |b.groups| && x in b.groups[h].Liberties ==> x in r.groups[h].Liberties
  }

  /** Every liberty gained is one of the points xs. */
  predicate LibertiesFrom(b: BoardValue, r: BoardValue, xs: seq<Point>)
    requires |r.groups| == |b.groups|
  {
    forall h, x :: 0 <= h < |b.groups| && x in r.groups[h].Liberties ==>
      x in b.groups[h].Liberties || x in xs
  }

  /** The removed stone e becomes a liberty of the group at every on-grid point of qs that
      holds a group other than g, and of no other group. */
  lemma {:induction false} GiveLibertiesFacts(b: BoardValue, g: GroupId, e: Point, qs: seq<Point>)
    requires Indexed(b) && g < |b.groups|
    ensures var r := GiveLiberties(b, g, e, qs);
      && LibertiesGrow(b, r) && LibertiesFrom(b, r, [e])
      && forall q, h :: q in qs && OnGrid(b, q) && StoneGroupAt(b, q) == Some(h) && h != g ==>
           e in r.groups[h].Liberties
  {
    if qs != [] {
      var init := qs[..|qs| - 1];
      GiveLibertiesFacts(b, g, e, init);
      var b1 := GiveLiberties(b, g, e, init);
      var r := GiveLiberties(b, g, e, qs);
      forall q, h | q in qs && OnGrid(b, q) && StoneGroupAt(b, q) == Some(h) && h != g
        ensures e in r.groups[h].Liberties
      {
        if q !in init {
          assert q == qs[|qs| - 1];
        }
      }
    }
  }

  // ---------------------------------------------------------------------------------------
  // removeStones

  /** Every group keeps its colour and its stones. */
  predicate SameShapes(b: BoardValue, r: BoardValue)
    requires |r.groups| == |b.groups|
  {
    forall h :: 0 <= h < |b.groups| ==>
      r.groups[h].Color == b.groups[h].Color && r.groups[h].Stones == b.groups[h].Stones
  }

  /** The hash after toggling the code of each stone of the list, in order, for colour c. */
  function ToggleStones(h: bv64, stones: seq<Point>, c: Players.Player): bv64
  {
    if stones == [] then h
    else Zobrist.Toggle(ToggleStones(h, stones[..|stones| - 1], c), Zobrist.Code(stones[|stones| - 1], c))
  }

  /** Exactly the entries of the stones s are cleared from b to r. */
  ghost predicate ClearedExactly(b: BoardValue, r: BoardValue, s: seq<Point>)
  {
    forall q :: StoneGroupAt(r, q) == if q in s then None else StoneGroupAt(b, q)
  }

  /** Each stone of s is a liberty, in r, of every group other than g that stands beside it
      in b. */
  ghost predicate FreedBeside(b: BoardValue, r: BoardValue, g: GroupId, s: seq<Point>)
    requires Indexed(b) && |r.groups| == |b.groups|
  {
    forall e, q, h ::
      (e in s && q in Neighbors(e) && OnGrid(b, q) && StoneGroupAt(b, q) == Some(h) && h != g)
      ==> e in r.groups[h].Liberties
  }

  /** The first i stones of g off the board: exactly their entries are cleared. */
  lemma {:induction false} RemoveUpToMap(b: BoardValue, g: GroupId, i: nat)
    requires Indexed(b) && g < |b.groups| && i <= |b.groups[g].Stones|
    ensures ClearedExactly(b, RemoveUpTo(b, g, i), b.groups[g].Stones[..i])
  {
    if i > 0 {
      var stones := b.groups[g].Stones;
      RemoveUpToMap(b, g, i - 1);
      assert stones[..i] == stones[..i - 1] + [stones[i - 1]];
    }
  }

  /** ... the groups keep their shape and their liberties only grow, by removed stones ... */
  lemma {:induction false} RemoveUpToLiberties(b: BoardValue, g: GroupId, i: nat)
    requires Indexed(b) && g < |b.groups| && i <= |b.groups[g].Stones|
    ensures SameShapes(b, RemoveUpTo(b, g, i)) && LibertiesGrow(b, RemoveUpTo(b, g, i))
    ensures LibertiesFrom(b, RemoveUpTo(b, g, i), b.groups[g].Stones[..i])
  {
    if i > 0 {
      var stones := b.groups[g].Stones;
      RemoveUpToLiberties(b, g, i - 1);
      RemoveStoneLiberties(b, RemoveUpTo(b, g, i - 1), g, stones[i - 1], stones[..i - 1]);
      assert stones[..i] == stones[..i - 1] + [stones[i - 1]];
    }
  }

  /** One more stone e removed after the stones s1: the shapes stay, and the liberties gained
      come from s1 and e. */
  lemma RemoveStoneLiberties(b: BoardValue, b1: BoardValue, g: GroupId, e: Point, s1: seq<Point>)
    requires Indexed(b1) && g < |b1.groups| && |b1.groups| == |b.groups|
    requires SameShapes(b, b1) && LibertiesGrow(b, b1) && LibertiesFrom(b, b1, s1)
    ensures SameShapes(b, RemoveStone(b1, g, e)) && LibertiesGrow(b, RemoveStone(b1, g, e))
    ensures LibertiesFrom(b, RemoveStone(b1, g, e), s1 + [e])
  {
    GiveLibertiesFacts(b1, g, e, Neighbors(e));
  }

  /** ... the hash toggles each removed stone's code ... */
  lemma {:induction false} RemoveUpToHash(b: BoardValue, g: GroupId, i: nat)
    requires Indexed(b) && g < |b.groups| && i <= |b.groups[g].Stones|
    ensures RemoveUpTo(b, g, i).hash == ToggleStones(b.hash, b.groups[g].Stones[..i], b.groups[g].Color)
  {
    if i > 0 {
      var stones := b.groups[g].Stones;
      RemoveUpToHash(b, g, i - 1);
      assert stones[..i][..i - 1] == stones[..i - 1];
    }
  }

  /** ... and, when every stone of g maps to g, each removed stone becomes a liberty of every
      other group beside it. */
  lemma {:induction false} RemoveUpToNeighbors(b: BoardValue, g: GroupId, i: nat)
    requires Indexed(b) && g < |b.groups| && i <= |b.groups[g].Stones| && GroupMatches(b, g)
    ensures FreedBeside(b, RemoveUpTo(b, g, i), g, b.groups[g].Stones[..i])
    decreases i, 1
  {
    if i > 0 {
      RemoveStoneNeighbors(b, g, i - 1);
    }
  }

  /** Stone k of g removed after the stones before it: it becomes a liberty of every other
      group beside it, and the stones removed before stay liberties. */
  lemma {:induction false} RemoveStoneNeighbors(b: BoardValue, g: GroupId, k: nat)
    requires Indexed(b) && g < |b.groups| && k < |b.groups[g].Stones| && GroupMatches(b, g)
    ensures FreedBeside(b, RemoveUpTo(b, g, k + 1), g, b.groups[g].Stones[..k + 1])
    decreases k + 1, 0
  {
    var stones, b1 := b.groups[g].Stones, RemoveUpTo(b, g, k);
    RemoveUpToNeighbors(b, g, k);
    RemoveUpToMap(b, g, k);
    var s1, e := stones[..k], stones[k];
    assert stones[..k + 1] == s1 + [e];
    GiveLibertiesFacts(b1, g, e, Neighbors(e));
    var r := RemoveUpTo(b, g, k + 1);
    assert r.groups == GiveLiberties(b1, g, e, Neighbors(e)).groups;
    forall e', q, h | e' in s1 + [e] && q in Neighbors(e') && OnGrid(b, q)
        && StoneGroupAt(b, q) == Some(h) && h != g
      ensures e' in r.groups[h].Liberties
    {
      if e' == e {
        assert q !in stones;
        assert q !in s1;
      } else {
        assert e' in s1;
      }
    }
  }

  /** removeStones succeeds exactly when every stone of g maps to g; then exactly the stones
      of g leave the board, each becomes a liberty of every other group beside it, liberties
      are gained only from those stones, and the hash toggles the code of each of them. */
  lemma RemoveGroupFacts(b: BoardValue, g: GroupId)
    requires Indexed(b) && g < |b.groups|
    ensures var r, stones := RemoveGroup(b, g), b.groups[g].Stones;
      && (r.err.None? <==> GroupMatches(b, g))
      && (r.err.Some? ==> r.board == b)
      && (r.err.None? ==>
            && (forall q :: StoneGroupAt(r.board, q) == if q in stones then None else StoneGroupAt(b, q))
            && SameShapes(b, r.board) && LibertiesGrow(b, r.board) && LibertiesFrom(b, r.board, stones)
            && r.board.hash == ToggleStones(b.hash, stones, b.groups[g].Color)
            && forall e, q, h ::
                 (e in stones && q in Neighbors(e) && OnGrid(b, q) && StoneGroupAt(b, q) == Some(h) && h != g)
                 ==> e in r.board.groups[h].Liberties)
  {
    var stones := b.groups[g].Stones;
    assert stones[..|stones|] == stones;
    if GroupMatches(b, g) {
      RemoveUpToMap(b, g, |stones|);
      RemoveUpToLiberties(b, g, |stones|);
      RemoveUpToHash(b, g, |stones|);
      RemoveUpToNeighbors(b, g, |stones|);
    }
  }

  // ---------------------------------------------------------------------------------------
  // The capture loop

  /** The only entries that change are cleared ones, of stones that belonged to a group of ids. */
  ghost predicate OnlyCleared(b: BoardValue, r: BoardValue, ids: seq<GroupId>)
  {
    forall q :: StoneGroupAt(r, q) != StoneGroupAt(b, q) ==>
      StoneGroupAt(r, q).None? && StoneGroupAt(b, q).Some? && StoneGroupAt(b, q).value in ids
  }

  /** The liberties gained are points whose entries were cleared. */
  ghost predicate LibertiesFromCleared(b: BoardValue, r: BoardValue)
    requires |r.groups| == |b.groups|
  {
    forall h, x :: 0 <= h < |b.groups| && x in r.groups[h].Liberties ==>
      x in b.groups[h].Liberties || (StoneGroupAt(b, x).Some? && StoneGroupAt(r, x).None?)
  }

  /** The capture loop only clears entries of the opposite groups it removes; every group keeps
      its shape, and liberties only grow, by cleared points. */
  lemma {:induction false} CaptureFromMap(b: BoardValue, opp: seq<GroupId>, i: nat)
    requires Indexed(b) && i <= |opp| && IdsIn(opp, |b.groups|)
    ensures var r := CaptureFrom(b, opp, i);
      && OnlyCleared(b, r.board, opp[i..]) && SameShapes(b, r.board)
      && LibertiesGrow(b, r.board) && LibertiesFromCleared(b, r.board)
    decreases |opp| - i
  {
    if i < |opp| {
      var o := opp[i];
      assert opp[i..] == [o] + opp[i + 1..];
      if |b.groups[o].Liberties| != 0 {
        CaptureFromMap(b, opp, i + 1);
      } else {
        var r1 := RemoveGroup(b, o);
        RemoveGroupFacts(b, o);
        if r1.err.None? {
          CaptureFromMap(r1.board, opp, i + 1);
        }
      }
    }
  }

  /** When the capture loop completes, no opposite group is left on the board without a
      liberty: each one has a liberty or has all its stones cleared. */
  lemma {:induction false} CaptureFromNoneDead(b: BoardValue, opp: seq<GroupId>, i: nat)
    requires Indexed(b) && i <= |opp| && IdsIn(opp, |b.groups|)
    ensures var r := CaptureFrom(b, opp, i);
      r.err.None? ==> forall k :: i <= k < |opp| ==>
        |r.board.groups[opp[k]].Liberties| > 0
        || forall e :: e in b.groups[opp[k]].Stones ==> StoneGroupAt(r.board, e).None?
    decreases |opp| - i
  {
    if i < |opp| {
      var o, r := opp[i], CaptureFrom(b, opp, i);
      if |b.groups[o].Liberties| != 0 {
        CaptureFromNoneDead(b, opp, i + 1);
        CaptureFromMap(b, opp, i + 1);
        assert b.groups[o].Liberties[0] in r.board.groups[o].Liberties;
      } else {
        var r1 := RemoveGroup(b, o);
        RemoveGroupFacts(b, o);
        if r1.err.None? {
          CaptureFromNoneDead(r1.board, opp, i + 1);
          CaptureFromMap(r1.board, opp, i + 1);
        }
      }
    }
  }

  /** Every stone the capture loop removes becomes a liberty of each group still standing
      beside it, unless that is the group the stone belonged to. */
  lemma {:induction false} CaptureFromLiberties(b: BoardValue, opp: seq<GroupId>, i: nat)
    requires Indexed(b) && i <= |opp| && IdsIn(opp, |b.groups|)
    ensures var r := CaptureFrom(b, opp, i).board;
      forall q, x, h ::
        (StoneGroupAt(b, q).Some? && StoneGroupAt(r, q).None? && x in Neighbors(q) && OnGrid(b, x)
         && StoneGroupAt(r, x) == Some(h) && h != StoneGroupAt(b, q).value)
        ==> q in r.groups[h].Liberties
    decreases |opp| - i
  {
    if i < |opp| {
      var o, r := opp[i], CaptureFrom(b, opp, i).board;
      if |b.groups[o].Liberties| != 0 {
        CaptureFromLiberties(b, opp, i + 1);
      } else {
        var r1 := RemoveGroup(b, o);
        if r1.err.None? {
          RemoveGroupFacts(b, o);
          CaptureFromLiberties(r1.board, opp, i + 1);
          CaptureFromMap(r1.board, opp, i + 1);
          forall q, x, h |
            StoneGroupAt(b, q).Some? && StoneGroupAt(r, q).None? && x in Neighbors(q) && OnGrid(b, x)
            && StoneGroupAt(r, x) == Some(h) && h != StoneGroupAt(b, q).value
            ensures q in r.groups[h].Liberties
          {
            assert StoneGroupAt(r1.board, x) == Some(h);
            if q in b.groups[o].Stones {
              assert StoneGroupAt(b, x) == Some(h);
            } else {
              assert StoneGroupAt(r1.board, q) == StoneGroupAt(b, q);
            }
          }
        }
      }
    }
  }

  // ---------------------------------------------------------------------------------------
  // The phases of PlaceStone

  /** The neighbour scan finds the empty on-grid neighbours, and the groups on on-grid
      neighbours split by colour. */
  lemma ScanFacts(b: BoardValue, turn: Players.Player, p: Point, i: nat)
    requires Indexed(b) && i <= 4
    ensures var sc, ns := ScanUpTo(b, turn, p, i), Neighbors(p)[..i];
      && (forall q :: q in sc.libs <==> q in ns && OnGrid(b, q) && StoneGroupAt(b, q).None?)
      && (forall g :: g in sc.same <==>
            exists q :: q in ns && OnGrid(b, q) && StoneGroupAt(b, q) == Some(g) && b.groups[g].Color == turn)
      && (forall g :: g in sc.opp <==>
            exists q :: q in ns && OnGrid(b, q) && StoneGroupAt(b, q) == Some(g) && b.groups[g].Color != turn)
  {
    ScanLibs(b, turn, p, i);
    ScanSame(b, turn, p, i);
    ScanOpp(b, turn, p, i);
  }

  lemma {:induction false} ScanLibs(b: BoardValue, turn: Players.Player, p: Point, i: nat)
    requires Indexed(b) && i <= 4
    ensures forall q :: q in ScanUpTo(b, turn, p, i).libs <==>
      q in Neighbors(p)[..i] && OnGrid(b, q) && StoneGroupAt(b, q).None?
  {
    if i > 0 {
      ScanLibs(b, turn, p, i - 1);
      assert Neighbors(p)[..i] == Neighbors(p)[..i - 1] + [Neighbors(p)[i - 1]];
    }
  }

  lemma {:induction false} ScanSame(b: BoardValue, turn: Players.Player, p: Point, i: nat)
    requires Indexed(b) && i <= 4
    ensures forall g :: g in ScanUpTo(b, turn, p, i).same <==>
      exists q :: q in Neighbors(p)[..i] && OnGrid(b, q) && StoneGroupAt(b, q) == Some(g) && b.groups[g].Color == turn
  {
    if i > 0 {
      ScanSame(b, turn, p, i - 1);
      assert Neighbors(p)[..i] == Neighbors(p)[..i - 1] + [Neighbors(p)[i - 1]];
    }
  }

  lemma {:induction false} ScanOpp(b: BoardValue, turn: Players.Player, p: Point, i: nat)
    requires Indexed(b) && i <= 4
    ensures forall g :: g in ScanUpTo(b, turn, p, i).opp <==>
      exists q :: q in Neighbors(p)[..i] && OnGrid(b, q) && StoneGroupAt(b, q) == Some(g) && b.groups[g].Color != turn
  {
    if i > 0 {
      ScanOpp(b, turn, p, i - 1);
      assert Neighbors(p)[..i] == Neighbors(p)[..i - 1] + [Neighbors(p)[i - 1]];
    }
  }

  /** Merging groups of the new group's colour never fails; the result keeps the colour and
      holds the stones of all of them. */
  lemma {:induction false} MergeFromFacts(g: Group, ids: seq<GroupId>, groups: seq<Group>, i: nat)
    requires i <= |ids| && IdsIn(ids, |groups|)
    requires forall k :: i <= k < |ids| ==> groups[ids[k]].Color == g.Color
    ensures MergeFrom(g, ids, groups, i).Some?
    ensures var r := MergeFrom(g, ids, groups, i).value;
      && r.Color == g.Color
      && forall q :: q in r.Stones <==> q in g.Stones || exists k :: i <= k < |ids| && q in groups[ids[k]].Stones
    decreases |ids| - i
  {
    if i < |ids| {
      var m := Merged(g, groups[ids[i]]);
      MergeFromFacts(m, ids, groups, i + 1);
      var r := MergeFrom(m, ids, groups, i + 1).value;
      assert MergeFrom(g, ids, groups, i) == Some(r);
      forall q | q in r.Stones
        ensures q in g.Stones || exists k :: i <= k < |ids| && q in groups[ids[k]].Stones
      {
        if q !in m.Stones {
          var k :| i + 1 <= k < |ids| && q in groups[ids[k]].Stones;
        }
      }
      forall q, k | i <= k < |ids| && q in groups[ids[k]].Stones
        ensures q in r.Stones
      {
        if k == i {
          assert q in m.Stones;
        }
      }
    }
  }

  /** With each opposite group listed once, the liberty loop succeeds exactly when every one of
      them has p as a liberty, and then each of them, and nothing else, loses p. */
  lemma RemoveLibFromFacts(b: BoardValue, opp: seq<GroupId>, p: Point, i: nat)
    requires Indexed(b) && i <= |opp| && IdsIn(opp, |b.groups|) && NoDups(opp)
    ensures var r := RemoveLibFrom(b, opp, p, i);
      && (r.err.None? <==> forall k :: i <= k < |opp| ==> p in b.groups[opp[k]].Liberties)
      && (r.err.None? ==> forall h :: 0 <= h < |b.groups| ==>
            r.board.groups[h] == if h in opp[i..] then WithoutLiberty(b.groups[h], p) else b.groups[h])
  {
    RemoveLibFromSucceeds(b, opp, p, i);
    RemoveLibFromGroups(b, opp, p, i);
  }

  lemma {:induction false} RemoveLibFromSucceeds(b: BoardValue, opp: seq<GroupId>, p: Point, i: nat)
    requires Indexed(b) && i <= |opp| && IdsIn(opp, |b.groups|) && NoDups(opp)
    ensures RemoveLibFrom(b, opp, p, i).err.None? <==> forall k :: i <= k < |opp| ==> p in b.groups[opp[k]].Liberties
    decreases |opp| - i
  {
    if i < |opp| {
      var o := opp[i];
      if p in b.groups[o].Liberties {
        var b1 := b.(groups := b.groups[o := WithoutLiberty(b.groups[o], p)]);
        RemoveLibFromSucceeds(b1, opp, p, i + 1);
        assert forall k :: i < k < |opp| ==> b1.groups[opp[k]] == b.groups[opp[k]];
      }
    }
  }

  lemma {:induction false} RemoveLibFromGroups(b: BoardValue, opp: seq<GroupId>, p: Point, i: nat)
    requires Indexed(b) && i <= |opp| && IdsIn(opp, |b.groups|) && NoDups(opp)
    ensures var r := RemoveLibFrom(b, opp, p, i);
      r.err.None? ==> forall h :: 0 <= h < |b.groups| ==>
        r.board.groups[h] == if h in opp[i..] then WithoutLiberty(b.groups[h], p) else b.groups[h]
    decreases |opp| - i
  {
    if i < |opp| {
      var o := opp[i];
      assert opp[i..] == [o] + opp[i + 1..];
      if p in b.groups[o].Liberties {
        var b1 := b.(groups := b.groups[o := WithoutLiberty(b.groups[o], p)]);
        RemoveLibFromGroups(b1, opp, p, i + 1);
        assert forall k :: i < k < |opp| ==> opp[k] != o;
        assert o !in opp[i + 1..];
      }
    }
  }

  /** The liberty loop keeps every group's colour and stones. */
  lemma {:induction false} RemoveLibFromShapes(b: BoardValue, opp: seq<GroupId>, p: Point, i: nat)
    requires Indexed(b) && i <= |opp| && IdsIn(opp, |b.groups|)
    ensures SameShapes(b, RemoveLibFrom(b, opp, p, i).board)
    decreases |opp| - i
  {
    if i < |opp| && p in b.groups[opp[i]].Liberties {
      var o := opp[i];
      var b1 := b.(groups := b.groups[o := WithoutLiberty(b.groups[o], p)]);
      RemoveLibFromShapes(b1, opp, p, i + 1);
    }
  }

  /** A group on an on-grid neighbour of p, of the mover's colour. */
  ghost predicate SameBeside(b: BoardValue, turn: Players.Player, p: Point, g: GroupId)
    requires Indexed(b)
  {
    && g < |b.groups|
    && exists q :: q in Neighbors(p) && OnGrid(b, q) && StoneGroupAt(b, q) == Some(g) && b.groups[g].Color == turn
  }

  /** A group on an on-grid neighbour of p, of another colour. */
  ghost predicate OppBeside(b: BoardValue, turn: Players.Player, p: Point, g: GroupId)
    requires Indexed(b)
  {
    && g < |b.groups|
    && exists q :: q in Neighbors(p) && OnGrid(b, q) && StoneGroupAt(b, q) == Some(g) && b.groups[g].Color != turn
  }

  /** The stones of the merged group are p and those of the same-colour neighbour groups. */
  lemma NewGroupStones(b: BoardValue, turn: Players.Player, p: Point, sc: Scan, newsg: Group)
    requires Indexed(b) && IdsIn(sc.same, |b.groups|)
    requires forall g :: g in sc.same <==> SameBeside(b, turn, p, g)
    requires forall q :: q in newsg.Stones <==> q in [p] || exists k :: 0 <= k < |sc.same| && q in b.groups[sc.same[k]].Stones
    ensures forall q :: q in newsg.Stones <==> q == p || exists g: GroupId :: SameBeside(b, turn, p, g) && q in b.groups[g].Stones
  {
    forall q | q in newsg.Stones
      ensures q == p || exists g: GroupId :: SameBeside(b, turn, p, g) && q in b.groups[g].Stones
    {
      if q != p {
        var k :| 0 <= k < |sc.same| && q in b.groups[sc.same[k]].Stones;
        assert sc.same[k] in sc.same;
      }
    }
    forall q | q == p || exists g: GroupId :: SameBeside(b, turn, p, g) && q in b.groups[g].Stones
      ensures q in newsg.Stones
    {
      if q != p {
        var g: GroupId :| SameBeside(b, turn, p, g) && q in b.groups[g].Stones;
        var k :| 0 <= k < |sc.same| && sc.same[k] == g;
      }
    }
  }

  /** Joining: the new group's stones map to the new slot, every other entry is kept, and the
      hash takes the code of the placed stone. */
  lemma JoinFacts(b: BoardValue, newsg: Group, turn: Players.Player, p: Point)
    requires Indexed(b)
    ensures var b1 := Join(b, newsg, turn, p);
      && (forall q :: StoneGroupAt(b1, q) == if q in newsg.Stones then Some(|b.groups|) else StoneGroupAt(b, q))
      && b1.hash == Zobrist.Toggle(b.hash, Zobrist.Code(p, turn))
  {
    assert newsg.Stones[..|newsg.Stones|] == newsg.Stones;
  }

  /** The phases of a placement on an empty on-grid point: the scan, a merge that cannot fail,
      the new group joining the board, the liberty loop and the capture loop. */
  lemma PlaceSteps(b: BoardValue, turn: Players.Player, p: Point)
    returns (sc: Scan, newsg: Group, b1: BoardValue, r2: Placed)
    requires Indexed(b) && OnGrid(b, p) && StoneGroupAt(b, p).None?
    ensures sc == ScanUpTo(b, turn, p, 4)
    ensures (forall g :: g in sc.same <==> SameBeside(b, turn, p, g))
    ensures (forall g :: g in sc.opp <==> OppBeside(b, turn, p, g))
    ensures MergeFrom(Group(turn, [p], sc.libs), sc.same, b.groups, 0) == Some(newsg) && newsg.Color == turn
    ensures forall q :: q in newsg.Stones <==> q == p || exists g: GroupId :: SameBeside(b, turn, p, g) && q in b.groups[g].Stones
    ensures b1 == Join(b, newsg, turn, p) && Indexed(b1) && IdsIn(sc.opp, |b1.groups|)
    ensures forall q :: StoneGroupAt(b1, q) == if q in newsg.Stones then Some(|b.groups|) else StoneGroupAt(b, q)
    ensures r2 == RemoveLibFrom(b1, sc.opp, p, 0)
    ensures Place(b, turn, p) == if r2.err.Some? then r2 else CaptureFrom(r2.board, sc.opp, 0)
  {
    sc := ScanUpTo(b, turn, p, 4);
    ScanFacts(b, turn, p, 4);
    assert Neighbors(p)[..4] == Neighbors(p);
    var g0 := Group(turn, [p], sc.libs);
    forall k | 0 <= k < |sc.same|
      ensures b.groups[sc.same[k]].Color == g0.Color
    {
      assert sc.same[k] in sc.same;
    }
    MergeFromFacts(g0, sc.same, b.groups, 0);
    newsg := MergeFrom(g0, sc.same, b.groups, 0).value;
    NewGroupStones(b, turn, p, sc, newsg);
    b1 := Join(b, newsg, turn, p);
    JoinFacts(b, newsg, turn, p);
    r2 := RemoveLibFrom(b1, sc.opp, p, 0);
  }

  // ---------------------------------------------------------------------------------------
  // PlaceStone

  /** After joining, the liberty and capture loops keep group n, which is not an opposite
      group, with its colour and stones, and keep every entry that maps to it. */
  lemma LoopsKeepGroup(b1: BoardValue, opp: seq<GroupId>, p: Point, n: GroupId)
    requires Indexed(b1) && n < |b1.groups| && IdsIn(opp, n) && NoDups(opp)
    requires RemoveLibFrom(b1, opp, p, 0).err.None?
    ensures var r := CaptureFrom(RemoveLibFrom(b1, opp, p, 0).board, opp, 0).board;
      && r.groups[n].Color == b1.groups[n].Color && r.groups[n].Stones == b1.groups[n].Stones
      && forall q :: StoneGroupAt(b1, q) == Some(n) ==> StoneGroupAt(r, q) == Some(n)
  {
    var b2 := RemoveLibFrom(b1, opp, p, 0).board;
    RemoveLibFromFacts(b1, opp, p, 0);
    CaptureFromMap(b2, opp, 0);
    assert n !in opp[0..];
    assert b2.groups[n] == b1.groups[n];
  }

  /** A placement on an empty on-grid point never fails on a colour mismatch. When it succeeds,
      p and every stone of the same-colour neighbour groups form one new group of the mover's
      colour, in the next slot, and all of its stones map to it: the capture loop never takes
      it off the board, whatever its liberties. */
  lemma PlaceNewGroup(b: BoardValue, turn: Players.Player, p: Point)
    requires Indexed(b) && OnGrid(b, p) && StoneGroupAt(b, p).None?
    ensures var r, n := Place(b, turn, p), |b.groups|;
      && r.err != Some(MergeColorMismatch)
      && (r.err.None? ==>
            && |r.board.groups| == n + 1 && r.board.groups[n].Color == turn
            && (forall q :: q in r.board.groups[n].Stones <==>
                  q == p || exists g: GroupId :: SameBeside(b, turn, p, g) && q in b.groups[g].Stones)
            && forall q :: q in r.board.groups[n].Stones ==> StoneGroupAt(r.board, q) == Some(n))
  {
    var sc, newsg, b1, r2 := PlaceSteps(b, turn, p);
    if r2.err.None? {
      LoopsKeepGroup(b1, sc.opp, p, |b.groups|);
    }
  }

  /** After joining, the liberty and capture loops take p from every opposite group, leave none
      of them without a liberty unless all its stones are gone, clear only stones of opposite
      groups, and give each cleared stone as a liberty to the groups still standing beside it. */
  lemma LoopsOnOpposite(b1: BoardValue, opp: seq<GroupId>, p: Point, n: GroupId)
    requires Indexed(b1) && n < |b1.groups| && IdsIn(opp, n) && NoDups(opp)
    requires StoneGroupAt(b1, p) == Some(n) && RemoveLibFrom(b1, opp, p, 0).err.None?
    requires CaptureFrom(RemoveLibFrom(b1, opp, p, 0).board, opp, 0).err.None?
    ensures var r := CaptureFrom(RemoveLibFrom(b1, opp, p, 0).board, opp, 0).board;
      && (forall o :: o in opp && NoDups(b1.groups[o].Liberties) ==> p !in r.groups[o].Liberties)
      && (forall o :: o in opp ==>
            |r.groups[o].Liberties| > 0 || forall e :: e in b1.groups[o].Stones ==> StoneGroupAt(r, e).None?)
      && (forall q :: StoneGroupAt(b1, q).Some? && StoneGroupAt(r, q).None? ==> StoneGroupAt(b1, q).value in opp)
      && forall q, x, h ::
           (StoneGroupAt(b1, q).Some? && StoneGroupAt(r, q).None? && x in Neighbors(q)
            && OnGrid(b1, x) && StoneGroupAt(r, x) == Some(h) && h != StoneGroupAt(b1, q).value)
           ==> q in r.groups[h].Liberties
  {
    LoopsOnOppositeGroups(b1, opp, p, n);
    LoopsOnClearedStones(b1, opp, p, n);
  }

  /** The opposite groups lose p for good, and none is left standing without a liberty. */
  lemma LoopsOnOppositeGroups(b1: BoardValue, opp: seq<GroupId>, p: Point, n: GroupId)
    requires Indexed(b1) && n < |b1.groups| && IdsIn(opp, n) && NoDups(opp)
    requires StoneGroupAt(b1, p) == Some(n) && RemoveLibFrom(b1, opp, p, 0).err.None?
    requires CaptureFrom(RemoveLibFrom(b1, opp, p, 0).board, opp, 0).err.None?
    ensures var r := CaptureFrom(RemoveLibFrom(b1, opp, p, 0).board, opp, 0).board;
      && (forall o :: o in opp && NoDups(b1.groups[o].Liberties) ==> p !in r.groups[o].Liberties)
      && (forall o :: o in opp ==>
            |r.groups[o].Liberties| > 0 || forall e :: e in b1.groups[o].Stones ==> StoneGroupAt(r, e).None?)
  {
    LoopsTakeP(b1, opp, p, n);
    LoopsLeaveNoneDead(b1, opp, p);
  }

  lemma LoopsTakeP(b1: BoardValue, opp: seq<GroupId>, p: Point, n: GroupId)
    requires Indexed(b1) && n < |b1.groups| && IdsIn(opp, n) && NoDups(opp)
    requires StoneGroupAt(b1, p) == Some(n) && RemoveLibFrom(b1, opp, p, 0).err.None?
    ensures var r := CaptureFrom(RemoveLibFrom(b1, opp, p, 0).board, opp, 0).board;
      forall o :: o in opp && NoDups(b1.groups[o].Liberties) ==> p !in r.groups[o].Liberties
  {
    var b2 := RemoveLibFrom(b1, opp, p, 0).board;
    var r := CaptureFrom(b2, opp, 0).board;
    RemoveLibFromSucceeds(b1, opp, p, 0);
    RemoveLibFromGroups(b1, opp, p, 0);
    CaptureFromMap(b2, opp, 0);
    LoopsKeepGroup(b1, opp, p, n);
    forall o | o in opp && NoDups(b1.groups[o].Liberties)
      ensures p !in r.groups[o].Liberties
    {
      var k :| 0 <= k < |opp| && opp[k] == o;
      assert o in opp[0..] && b2.groups[o] == WithoutLiberty(b1.groups[o], p);
      WithoutLibertyLosesExactlyP(b1.groups[o], p);
    }
  }

  lemma LoopsLeaveNoneDead(b1: BoardValue, opp: seq<GroupId>, p: Point)
    requires Indexed(b1) && IdsIn(opp, |b1.groups|)
    requires RemoveLibFrom(b1, opp, p, 0).err.None?
    requires CaptureFrom(RemoveLibFrom(b1, opp, p, 0).board, opp, 0).err.None?
    ensures var r := CaptureFrom(RemoveLibFrom(b1, opp, p, 0).board, opp, 0).board;
      forall o :: o in opp ==>
        |r.groups[o].Liberties| > 0 || forall e :: e in b1.groups[o].Stones ==> StoneGroupAt(r, e).None?
  {
    var b2 := RemoveLibFrom(b1, opp, p, 0).board;
    var r := CaptureFrom(b2, opp, 0).board;
    CaptureFromNoneDead(b2, opp, 0);
    RemoveLibFromShapes(b1, opp, p, 0);
    forall o | o in opp
      ensures |r.groups[o].Liberties| > 0 || forall e :: e in b1.groups[o].Stones ==> StoneGroupAt(r, e).None?
    {
      var k :| 0 <= k < |opp| && opp[k] == o;
    }
  }

  /** Only stones of opposite groups are cleared, and each becomes a liberty of the groups
      still standing beside it. */
  lemma LoopsOnClearedStones(b1: BoardValue, opp: seq<GroupId>, p: Point, n: GroupId)
    requires Indexed(b1) && n < |b1.groups| && IdsIn(opp, n)
    requires RemoveLibFrom(b1, opp, p, 0).err.None?
    ensures var r := CaptureFrom(RemoveLibFrom(b1, opp, p, 0).board, opp, 0).board;
      && (forall q :: StoneGroupAt(b1, q).Some? && StoneGroupAt(r, q).None? ==> StoneGroupAt(b1, q).value in opp)
      && forall q, x, h ::
           (StoneGroupAt(b1, q).Some? && StoneGroupAt(r, q).None? && x in Neighbors(q)
            && OnGrid(b1, x) && StoneGroupAt(r, x) == Some(h) && h != StoneGroupAt(b1, q).value)
           ==> q in r.groups[h].Liberties
  {
    var b2 := RemoveLibFrom(b1, opp, p, 0).board;
    CaptureFromMap(b2, opp, 0);
    CaptureFromLiberties(b2, opp, 0);
    assert opp[0..] == opp;
  }

  /** When a placement on an empty on-grid point succeeds: every opposite neighbour group had p
      as a liberty (otherwise the result is MissingLiberty) and, if its liberties were listed
      once each, has lost it; none of them is left on the board without a liberty; the only
      stones that leave the board belong to opposite neighbour groups; and each stone that
      leaves becomes a liberty of every group still standing beside it. */
  lemma PlaceOpposite(b: BoardValue, turn: Players.Player, p: Point)
    requires Indexed(b) && OnGrid(b, p) && StoneGroupAt(b, p).None?
    ensures var r := Place(b, turn, p);
      && (r.err == Some(MissingLiberty) <==>
            exists o: GroupId :: OppBeside(b, turn, p, o) && p !in b.groups[o].Liberties)
      && (r.err.None? ==>
            && (forall o: GroupId :: OppBeside(b, turn, p, o) && NoDups(b.groups[o].Liberties) ==>
                  p !in r.board.groups[o].Liberties)
            && (forall o: GroupId :: OppBeside(b, turn, p, o) ==>
                  |r.board.groups[o].Liberties| > 0
                  || forall e :: e in b.groups[o].Stones ==> StoneGroupAt(r.board, e).None?)
            && (forall q :: StoneGroupAt(b, q).Some? && StoneGroupAt(r.board, q).None? ==>
                  OppBeside(b, turn, p, StoneGroupAt(b, q).value))
            && forall q, x, h ::
                 (StoneGroupAt(b, q).Some? && StoneGroupAt(r.board, q).None? && x in Neighbors(q)
                  && OnGrid(b, x) && StoneGroupAt(r.board, x) == Some(h) && h != StoneGroupAt(b, q).value)
                 ==> q in r.board.groups[h].Liberties)
  {
    var sc, newsg, b1, r2 := PlaceSteps(b, turn, p);
    var n := |b.groups|;
    RemoveLibFromFacts(b1, sc.opp, p, 0);
    assert forall o :: o in sc.opp ==> o < n && b1.groups[o] == b.groups[o];
    if r2.err.None? && CaptureFrom(r2.board, sc.opp, 0).err.None? {
      assert p in newsg.Stones;
      LoopsOnOpposite(b1, sc.opp, p, n);
      var r := CaptureFrom(r2.board, sc.opp, 0).board;
      forall q | StoneGroupAt(b, q).Some? && StoneGroupAt(r, q).None?
        ensures StoneGroupAt(b1, q) == StoneGroupAt(b, q)
      {
        assert q !in newsg.Stones;
      }
    }
  }

  // ---------------------------------------------------------------------------------------
  // Duplicate-free liberty lists

  /** Every group of the board lists each of its liberties once. AddLiberty refuses a
      liberty the group already has, so no operation of the board lists one twice. */
  predicate LibsNoDups(b: BoardValue)
  {
    forall h :: 0 <= h < |b.groups| ==> NoDups(b.groups[h].Liberties)
  }

  /** A removed stone's liberties are given only to groups that lack it. */
  lemma {:induction false} GiveLibertiesNoDups(b: BoardValue, g: GroupId, e: Point, qs: seq<Point>)
    requires Indexed(b) && g < |b.groups| && LibsNoDups(b)
    ensures LibsNoDups(GiveLiberties(b, g, e, qs))
    decreases |qs|
  {
    if qs != [] {
      GiveLibertiesNoDups(b, g, e, qs[..|qs| - 1]);
    }
  }

  lemma {:induction false} RemoveUpToNoDups(b: BoardValue, g: GroupId, i: nat)
    requires Indexed(b) && g < |b.groups| && i <= |b.groups[g].Stones| && LibsNoDups(b)
    ensures LibsNoDups(RemoveUpTo(b, g, i))
  {
    if i > 0 {
      RemoveUpToNoDups(b, g, i - 1);
      var e := b.groups[g].Stones[i - 1];
      GiveLibertiesNoDups(RemoveUpTo(b, g, i - 1), g, e, Neighbors(e));
    }
  }

  lemma {:induction false} CaptureFromNoDups(b: BoardValue, opp: seq<GroupId>, i: nat)
    requires Indexed(b) && i <= |opp| && IdsIn(opp, |b.groups|) && LibsNoDups(b)
    ensures LibsNoDups(CaptureFrom(b, opp, i).board)
    decreases |opp| - i
  {
    if i < |opp| {
      if |b.groups[opp[i]].Liberties| != 0 {
        CaptureFromNoDups(b, opp, i + 1);
      } else if GroupMatches(b, opp[i]) {
        var g := opp[i];
        RemoveUpToNoDups(b, g, |b.groups[g].Stones|);
        CaptureFromNoDups(RemoveGroup(b, g).board, opp, i + 1);
      }
    }
  }

  /** The liberty loop's swap-removal keeps a duplicate-free list duplicate-free. */
  lemma {:induction false} RemoveLibFromNoDups(b: BoardValue, opp: seq<GroupId>, p: Point, i: nat)
    requires Indexed(b) && i <= |opp| && IdsIn(opp, |b.groups|) && LibsNoDups(b)
    ensures LibsNoDups(RemoveLibFrom(b, opp, p, i).board)
    decreases |opp| - i
  {
    if i < |opp| && p in b.groups[opp[i]].Liberties {
      var o := opp[i];
      WithoutLibertyLosesExactlyP(b.groups[o], p);
      RemoveLibFromNoDups(b.(groups := b.groups[o := WithoutLiberty(b.groups[o], p)]), opp, p, i + 1);
    }
  }

  /** The new stone's liberties are distinct neighbours of p. */
  lemma {:induction false} ScanLibsNoDups(b: BoardValue, turn: Players.Player, p: Point, i: nat)
    requires Indexed(b) && i <= 4
    ensures NoDups(ScanUpTo(b, turn, p, i).libs)
  {
    if i > 0 {
      ScanLibsNoDups(b, turn, p, i - 1);
      ScanLibs(b, turn, p, i - 1);
      NeighborsDistinct(p);
      assert Neighbors(p)[i - 1] !in Neighbors(p)[..i - 1];
    }
  }

  lemma {:induction false} MergeFromNoDups(g: Group, ids: seq<GroupId>, groups: seq<Group>, i: nat)
    requires i <= |ids| && IdsIn(ids, |groups|) && NoDups(g.Liberties)
    ensures var r := MergeFrom(g, ids, groups, i); r.Some? ==> NoDups(r.value.Liberties)
    decreases |ids| - i
  {
    if i < |ids| && g.Color == groups[ids[i]].Color {
      MergeFromNoDups(Merged(g, groups[ids[i]]), ids, groups, i + 1);
    }
  }

  /** A placement, failed or not, leaves every liberty list duplicate-free if it found them
      so. */
  lemma PlaceKeepsLibsNoDups(b: BoardValue, turn: Players.Player, p: Point)
    requires Indexed(b) && LibsNoDups(b)
    ensures LibsNoDups(Place(b, turn, p).board)
  {
    if OnGrid(b, p) && StoneGroupAt(b, p).None? {
      var sc := ScanUpTo(b, turn, p, 4);
      var g0 := Group(turn, [p], sc.libs);
      ScanLibsNoDups(b, turn, p, 4);
      MergeFromNoDups(g0, sc.same, b.groups, 0);
      var m := MergeFrom(g0, sc.same, b.groups, 0);
      if m.Some? {
        var b1 := Join(b, m.value, turn, p);
        assert LibsNoDups(b1) by {
          forall h | 0 <= h < |b1.groups|
            ensures NoDups(b1.groups[h].Liberties)
          {
            if h < |b.groups| {
              assert b1.groups[h] == b1.groups[..|b.groups|][h];
            }
          }
        }
        RemoveLibFromNoDups(b1, sc.opp, p, 0);
        var r2 := RemoveLibFrom(b1, sc.opp, p, 0);
        if r2.err.None? {
          CaptureFromNoDups(r2.board, sc.opp, 0);
        }
      }
    }
  }

  /** So on a board whose liberty lists are duplicate-free, which every board reached from an
      empty one is, a successful placement takes p from every opposite neighbour group. */
  lemma PlaceTakesP(b: BoardValue, turn: Players.Player, p: Point)
    requires Indexed(b) && LibsNoDups(b) && OnGrid(b, p) && StoneGroupAt(b, p).None?
    ensures var r := Place(b, turn, p);
      r.err.None? ==> forall o: GroupId :: OppBeside(b, turn, p, o) ==> p !in r.board.groups[o].Liberties
  {
    PlaceOpposite(b, turn, p);
    assert forall o: GroupId :: OppBeside(b, turn, p, o) ==> o < |b.groups|;
  }

  // ---------------------------------------------------------------------------------------
  // Eyes

  /** Off-grid and friendly counts add up to the number of points looked at exactly when every
      on-grid one among them is friendly. */
  lemma {:induction false} CountsCoverAll(b: BoardValue, cs: seq<Point>, color: Players.Player, i: nat)
    requires Indexed(b) && i <= |cs|
    ensures CountOffGrid(b, cs, i) + CountFriendly(b, cs, color, i) <= i
    ensures CountOffGrid(b, cs, i) + CountFriendly(b, cs, color, i) == i
        <==> forall k :: 0 <= k < i && OnGrid(b, cs[k]) ==> ColorAt(b, cs[k]) == Some(color)
  {
    if i > 0 {
      CountsCoverAll(b, cs, color, i - 1);
    }
  }

  /** Some of the points looked at are off the grid exactly when the off-grid count is positive. */
  lemma {:induction false} OffGridCount(b: BoardValue, cs: seq<Point>, i: nat)
    requires i <= |cs|
    ensures CountOffGrid(b, cs, i) > 0 <==> exists k :: 0 <= k < i && !OnGrid(b, cs[k])
  {
    if i > 0 {
      OffGridCount(b, cs, i - 1);
    }
  }

  /** The eye rule: an empty point whose on-grid orthogonal neighbours all hold stones of the
      colour is an eye when, at the edge, every on-grid diagonal is friendly too, and inside,
      at least three of the four diagonals are. */
  lemma EyeRule(b: BoardValue, p: Point, color: Players.Player)
    requires Indexed(b)
    ensures IsEye(b, p, color) <==>
      && StoneGroupAt(b, p).None?
      && (forall q :: q in Neighbors(p) && OnGrid(b, q) ==> ColorAt(b, q) == Some(color))
      && if exists q :: q in Corners(p) && !OnGrid(b, q)
         then forall q :: q in Corners(p) && OnGrid(b, q) ==> ColorAt(b, q) == Some(color)
         else CountFriendly(b, Corners(p), color, 4) >= 3
  {
    var cs := Corners(p);
    CountsCoverAll(b, cs, color, 4);
    OffGridCount(b, cs, 4);
    assert forall q :: q in cs <==> exists k :: 0 <= k < 4 && cs[k] == q;
    assert forall q :: q in Neighbors(p) <==> exists k :: 0 <= k < 4 && Neighbors(p)[k] == q;
  }
}
