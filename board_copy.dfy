/** What Board.Copy (board.go) gives: on a board whose groups and map agree, the copy shares
    groups exactly as the original does, is Equal to it, and starts from the empty-board hash
    whatever the original's hash was. */
module BoardCopy {
  import opened Wrappers
  import opened Points
  import opened Seqs
  import opened Stones
  import opened Boards
  import Zobrist

  /** Each live group lists exactly the points that map to it. */
  ghost predicate Consistent(b: BoardValue)
  {
    && Indexed(b)
    && forall g, q :: g in LiveSet(b) ==> (q in b.groups[g].Stones <==> StoneGroupAt(b, q) == Some(g))
  }

  /** Each listed group of a consistent board lists exactly the points that map to it. */
  lemma LocallyConsistent(b: BoardValue, ids: seq<GroupId>)
    requires Consistent(b) && Enumerates(b, ids) && IdsIn(ids, |b.groups|)
    ensures forall k, q :: 0 <= k < |ids| ==> (q in b.groups[ids[k]].Stones <==> StoneGroupAt(b, q) == Some(ids[k]))
  {
    assert forall k :: 0 <= k < |ids| ==> ids[k] in Elems(ids);
  }

  /** Every point in the map of a partial copy is a stone of the copied group it points to. */
  lemma {:induction false} CopyMapOwners(b: BoardValue, ids: seq<GroupId>, i: nat)
    requires IdsIn(ids, |b.groups|) && i <= |ids|
    ensures forall q :: q in CopyMap(b, ids, i) ==>
              CopyMap(b, ids, i)[q].value < i && q in b.groups[ids[CopyMap(b, ids, i)[q].value]].Stones
  {
    if i > 0 {
      CopyMapOwners(b, ids, i - 1);
      var stones := b.groups[ids[i - 1]].Stones;
      assert stones[..|stones|] == stones;
      var m0, m := CopyMap(b, ids, i - 1), CopyMap(b, ids, i);
      forall q | q in m
        ensures m[q].value < i && q in b.groups[ids[m[q].value]].Stones
      {
        if q !in stones {
          assert q in m0 && m[q] == m0[q];
        }
      }
    }
  }

  /** After copying the first i listed groups, each of their stones points to the copy of its
      group: on a consistent board no stone is listed by two groups, so no later group
      overwrites an entry. */
  lemma {:induction false} CopyMapHolds(b: BoardValue, ids: seq<GroupId>, i: nat)
    requires Indexed(b) && IdsIn(ids, |b.groups|) && NoDups(ids) && i <= |ids|
    requires forall k, q :: 0 <= k < |ids| && q in b.groups[ids[k]].Stones ==> StoneGroupAt(b, q) == Some(ids[k])
    ensures forall q, k :: 0 <= k < i && q in b.groups[ids[k]].Stones ==>
              q in CopyMap(b, ids, i) && CopyMap(b, ids, i)[q] == Some(k)
  {
    if i > 0 {
      CopyMapHolds(b, ids, i - 1);
      var stones := b.groups[ids[i - 1]].Stones;
      assert stones[..|stones|] == stones;
      var m0, m := CopyMap(b, ids, i - 1), CopyMap(b, ids, i);
      forall q, k | 0 <= k < i && q in b.groups[ids[k]].Stones
        ensures q in m && m[q] == Some(k)
      {
        if k < i - 1 {
          assert StoneGroupAt(b, q) == Some(ids[k]);
          assert q !in stones;
          assert q in m0 && m0[q] == Some(k);
        }
      }
    }
  }

  /** The slots 0 to n - 1. */
  function Range(n: nat): (r: set<nat>)
    ensures forall k :: k in r <==> 0 <= k < n
  {
    if n == 0 then {} else Range(n - 1) + {n - 1}
  }

  lemma {:induction false} CardRange(n: nat)
    ensures |Range(n)| == n
  {
    if n > 0 {
      CardRange(n - 1);
    }
  }

  lemma LiveSetOfCopy(b: BoardValue, ids: seq<GroupId>)
    requires Consistent(b) && Enumerates(b, ids) && IdsIn(ids, |b.groups|)
    ensures LiveSet(CopyInOrder(b, ids)) == Range(|ids|)
  {
    var c := CopyInOrder(b, ids);
    LocallyConsistent(b, ids);
    CopyMapOwners(b, ids, |ids|);
    CopyMapHolds(b, ids, |ids|);
    forall k | k in LiveSet(c)
      ensures k in Range(|ids|)
    {
      var o :| o in c.stoneMap.Values && o.Some? && o.value == k;
      var q :| q in c.stoneMap && c.stoneMap[q] == o;
    }
    forall k | k in Range(|ids|)
      ensures k in LiveSet(c)
    {
      assert 0 <= k < |ids| && ids[k] in Elems(ids);
      var o :| o in b.stoneMap.Values && o.Some? && o.value == ids[k];
      var q :| q in b.stoneMap && b.stoneMap[q] == o;
      assert StoneGroupAt(b, q) == Some(ids[k]);
      assert q in b.groups[ids[k]].Stones;
      assert q in c.stoneMap && c.stoneMap[q] == Some(k);
      assert c.stoneMap[q] in c.stoneMap.Values;
    }
  }

  /** Copy in any order that lists the live groups once each (the order Go's map iteration
      happens to take) shares groups as the original does: a point is in the k-th group of
      the copy exactly when it is in the k-th listed group of the original. */
  lemma CopySharesGroups(b: BoardValue, ids: seq<GroupId>)
    requires Consistent(b) && Enumerates(b, ids) && IdsIn(ids, |b.groups|)
    ensures forall q, k :: StoneGroupAt(CopyInOrder(b, ids), q) == Some(k) <==>
              0 <= k < |ids| && StoneGroupAt(b, q) == Some(ids[k])
  {
    var c := CopyInOrder(b, ids);
    LocallyConsistent(b, ids);
    CopyMapOwners(b, ids, |ids|);
    CopyMapHolds(b, ids, |ids|);
    forall q, k
      ensures StoneGroupAt(c, q) == Some(k) <==> 0 <= k < |ids| && StoneGroupAt(b, q) == Some(ids[k])
    {
      if StoneGroupAt(c, q) == Some(k) {
        assert q in b.groups[ids[k]].Stones;
      }
      if 0 <= k < |ids| && StoneGroupAt(b, q) == Some(ids[k]) {
        assert q in b.groups[ids[k]].Stones;
      }
    }
  }

  /** The copy is consistent, Equal to the original, and its hash is the empty board's. */
  lemma CopyFacts(b: BoardValue, ids: seq<GroupId>)
    requires Consistent(b) && Enumerates(b, ids) && IdsIn(ids, |b.groups|)
    ensures Consistent(CopyInOrder(b, ids)) && BoardsEqual(b, CopyInOrder(b, ids))
    ensures CopyInOrder(b, ids).hash == Zobrist.EmptyBoardHashCode
  {
    var c := CopyInOrder(b, ids);
    CopySharesGroups(b, ids);
    LocallyConsistent(b, ids);
    LiveSetOfCopy(b, ids);
    forall k, q | k in LiveSet(c)
      ensures q in c.groups[k].Stones <==> StoneGroupAt(c, q) == Some(k)
    {
      assert q in c.groups[k].Stones <==> StoneGroupAt(b, q) == Some(ids[k]);
    }
    CardRange(|ids|);
    CardOfNoDups(ids);
    forall g | g in LiveSet(b)
      ensures exists h :: h in LiveSet(c) && SameGroup(b.groups[g], c.groups[h])
    {
      var k :| 0 <= k < |ids| && ids[k] == g;
      assert SameGroup(b.groups[g], c.groups[k]);
    }
  }

  /** CopyOf takes the groups in ascending order of their slots. */
  lemma CopyOfFacts(b: BoardValue)
    requires Consistent(b)
    ensures var c := CopyOf(b);
      && Consistent(c) && BoardsEqual(b, c) && c.hash == Zobrist.EmptyBoardHashCode
  {
    CopyFacts(b, AllStoneGroups(b));
  }
}
