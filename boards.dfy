/** The board (board.go): its size, the map from each occupied point to the group its stone
    belongs to, and the Zobrist hash of the position.

    Go keeps *StoneGroup pointers in the map and compares them by identity. The model keeps
    the groups in an arena, `groups`, and the map holds arena slots; two points share a group
    exactly when they map to the same slot. A group that is merged away or captured keeps its
    slot but is no longer referenced. An entry that a capture sets to nil stays in the map as
    None, as it does in Go.

    The functions on BoardValue are the specification of each operation; the Board class at
    the end performs the same operations step by step on its fields and is proved to reach
    exactly the value the specification gives. */
module Boards {
  import opened Wrappers
  import opened Points
  import opened Seqs
  import opened Stones
  import Players
  import Zobrist

  type GroupId = nat

  datatype BoardValue = BoardValue(
    Width: U16,
    Height: U16,
    stoneMap: map<Point, Option<GroupId>>,
    groups: seq<Group>,
    hash: bv64)

  /** Every group the map refers to has a slot: the model's counterpart of a valid pointer. */
  predicate Indexed(b: BoardValue)
  {
    forall p :: p in b.stoneMap && b.stoneMap[p].Some? ==> b.stoneMap[p].value < |b.groups|
  }

  predicate IdsIn(ids: seq<GroupId>, n: nat)
  {
    forall k :: 0 <= k < |ids| ==> ids[k] < n
  }

  /** NewBoard: an empty board of the given size whose hash is that of the empty board. */
  function NewBoard(w: U16, h: U16): (b: BoardValue)
    ensures Indexed(b) && b.Width == w && b.Height == h
    ensures forall p :: StoneGroupAt(b, p).None?
    ensures b.hash == Zobrist.EmptyBoardHashCode
  {
    BoardValue(w, h, map[], [], Zobrist.EmptyBoardHashCode)
  }

  /** IsOnGrid: coordinates count from 1 and both bounds are inclusive. */
  predicate OnGrid(b: BoardValue, p: Point)
  {
    InRect(p, b.Width, b.Height)
  }

  /** GetStoneGroup: the group at p, or nil when p has no entry or its entry was cleared. */
  function StoneGroupAt(b: BoardValue, p: Point): Option<GroupId>
  {
    if p in b.stoneMap then b.stoneMap[p] else None
  }

  /** Get: the colour of the stone at p, or nil for an empty point. */
  function ColorAt(b: BoardValue, p: Point): (r: Option<Players.Player>)
    requires Indexed(b)
    ensures r.Some? <==> StoneGroupAt(b, p).Some?
    ensures r.Some? ==> r.value == b.groups[StoneGroupAt(b, p).value].Color
  {
    match StoneGroupAt(b, p)
    case None => None
    case Some(g) => Some(b.groups[g].Color)
  }

  // ---------------------------------------------------------------------------------------
  // The groups on the board

  /** The groups some entry of the map refers to: what GetAllStoneGroups collects. */
  function LiveSet(b: BoardValue): set<GroupId>
  {
    set o | o in b.stoneMap.Values && o.Some? :: o.value
  }

  /** A list of the live groups, each once: the result of GetAllStoneGroups in some order. */
  predicate Enumerates(b: BoardValue, ids: seq<GroupId>)
  {
    NoDups(ids) && Elems(ids) == LiveSet(b)
  }

  lemma LiveSetIndexed(b: BoardValue)
    requires Indexed(b)
    ensures forall g :: g in LiveSet(b) ==> g < |b.groups|
  {
    forall g | g in LiveSet(b)
      ensures g < |b.groups|
    {
      var o :| o in b.stoneMap.Values && o.Some? && o.value == g;
      var p :| p in b.stoneMap && b.stoneMap[p] == o;
    }
  }

  /** The live groups with slot at least k, in ascending order. */
  function LiveFrom(b: BoardValue, k: nat): (r: seq<GroupId>)
    requires Indexed(b)
    ensures NoDups(r)
    ensures forall g :: g in r <==> k <= g && g in LiveSet(b)
    decreases |b.groups| - k
  {
    LiveSetIndexed(b);
    if k >= |b.groups| then []
    else (if k in LiveSet(b) then [k] else []) + LiveFrom(b, k + 1)
  }

  /** GetAllStoneGroups, with Go's map order fixed to ascending slots. */
  function AllStoneGroups(b: BoardValue): (r: seq<GroupId>)
    requires Indexed(b)
    ensures Enumerates(b, r) && IdsIn(r, |b.groups|)
  {
    LiveSetIndexed(b);
    var r := LiveFrom(b, 0);
    assert forall k :: 0 <= k < |r| ==> r[k] in LiveSet(b);
    r
  }

  // ---------------------------------------------------------------------------------------
  // Copy and Equal

  /** The map after pointing each of the first i stones at group id. */
  function MapStones(m: map<Point, Option<GroupId>>, stones: seq<Point>, id: GroupId, i: nat)
    : (r: map<Point, Option<GroupId>>)
    requires i <= |stones|
    ensures forall q :: q in r <==> q in m || q in stones[..i]
    ensures forall q :: q in r ==> r[q] == if q in stones[..i] then Some(id) else m[q]
  {
    if i == 0 then m
    else
      assert stones[..i] == stones[..i - 1] + [stones[i - 1]];
      MapStones(m, stones, id, i - 1)[stones[i - 1] := Some(id)]
  }

  /** The map of a copy after copying the first i groups of ids: the stones of the k-th copied
      group point to slot k. */
  function CopyMap(b: BoardValue, ids: seq<GroupId>, i: nat): (r: map<Point, Option<GroupId>>)
    requires i <= |ids| && IdsIn(ids, |b.groups|)
    ensures forall q :: q in r ==> r[q].Some? && r[q].value < i
  {
    if i == 0 then map[]
    else MapStones(CopyMap(b, ids, i - 1), b.groups[ids[i - 1]].Stones, i - 1, |b.groups[ids[i - 1]].Stones|)
  }

  /** Copy, taking the groups in the order ids lists them: a board of the same size with a copy
      of each listed group, whose stones map to the copy. The hash is not carried over: the
      copy starts from the empty-board hash, as NewBoard leaves it. */
  function CopyInOrder(b: BoardValue, ids: seq<GroupId>): (c: BoardValue)
    requires IdsIn(ids, |b.groups|)
    ensures Indexed(c) && |c.groups| == |ids|
    ensures c.Width == b.Width && c.Height == b.Height
    ensures c.hash == Zobrist.EmptyBoardHashCode
    ensures forall k :: 0 <= k < |ids| ==> c.groups[k] == b.groups[ids[k]]
  {
    BoardValue(b.Width, b.Height, CopyMap(b, ids, |ids|),
               seq(|ids|, k requires 0 <= k < |ids| => b.groups[ids[k]]),
               Zobrist.EmptyBoardHashCode)
  }

  /** The loop that points each stone of a list at one group. */
  method MapStonesLoop(m0: map<Point, Option<GroupId>>, stones: seq<Point>, id: GroupId)
    returns (m: map<Point, Option<GroupId>>)
    ensures m == MapStones(m0, stones, id, |stones|)
  {
    m := m0;
    var i := 0;
    while i < |stones|
      invariant 0 <= i <= |stones|
      invariant m == MapStones(m0, stones, id, i)
    {
      m := m[stones[i] := Some(id)];
      i := i + 1;
    }
  }

  /** The loop of Copy over the groups it copies, in the order ids lists them. */
  method CopyLoop(b: BoardValue, ids: seq<GroupId>) returns (cg: seq<Group>, cm: map<Point, Option<GroupId>>)
    requires IdsIn(ids, |b.groups|)
    ensures cg == CopyInOrder(b, ids).groups && cm == CopyInOrder(b, ids).stoneMap
  {
    cg, cm := [], map[];
    var k := 0;
    while k < |ids|
      invariant 0 <= k <= |ids|
      invariant |cg| == k && forall m :: 0 <= m < k ==> cg[m] == b.groups[ids[m]]
      invariant cm == CopyMap(b, ids, k)
    {
      var csg := b.groups[ids[k]];
      cg := cg + [csg];
      cm := MapStonesLoop(cm, csg.Stones, k);
      k := k + 1;
    }
  }

  /** Copy as a value: Go's map order fixed to ascending slots. */
  function CopyOf(b: BoardValue): (c: BoardValue)
    requires Indexed(b)
    ensures Indexed(c) && c.hash == Zobrist.EmptyBoardHashCode
    ensures c.Width == b.Width && c.Height == b.Height
  {
    CopyInOrder(b, AllStoneGroups(b))
  }

  /** Equal: the same size, as many groups, and for each group of b an Equal group of c. */
  predicate BoardsEqual(b: BoardValue, c: BoardValue)
    requires Indexed(b) && Indexed(c)
  {
    LiveSetIndexed(b);
    LiveSetIndexed(c);
    && b.Width == c.Width && b.Height == c.Height
    && |LiveSet(b)| == |LiveSet(c)|
    && forall g :: g in LiveSet(b) ==>
         exists h :: h in LiveSet(c) && SameGroup(b.groups[g], c.groups[h])
  }

  // ---------------------------------------------------------------------------------------
  // Capturing a group: removeStones

  datatype PlaceError = OffGrid | Occupied | MergeColorMismatch | MissingLiberty | GroupMismatch

  /** A board after an operation that may stop early, and the error that stopped it. */
  datatype Placed = Placed(board: BoardValue, err: Option<PlaceError>)

  /** removeStones' check: every stone of group g maps to g. */
  predicate GroupMatches(b: BoardValue, g: GroupId)
    requires g < |b.groups|
  {
    forall e :: e in b.groups[g].Stones ==> e in b.stoneMap && b.stoneMap[e] == Some(g)
  }

  /** What the groups around a removed stone e of group g gain from the points qs, taken in
      order: each on-grid point holding a group other than g gets e as a liberty (AddLiberty's
      error on a repeated liberty is ignored, and changes nothing). */
  function GiveLiberties(b: BoardValue, g: GroupId, e: Point, qs: seq<Point>): (r: BoardValue)
    requires Indexed(b) && g < |b.groups|
    ensures Indexed(r) && |r.groups| == |b.groups|
    ensures r.Width == b.Width && r.Height == b.Height
    ensures r.stoneMap == b.stoneMap && r.hash == b.hash && r.groups[g] == b.groups[g]
    ensures forall h :: 0 <= h < |b.groups| ==>
      r.groups[h].Color == b.groups[h].Color && r.groups[h].Stones == b.groups[h].Stones
  {
    if qs == [] then b
    else
      var b1 := GiveLiberties(b, g, e, qs[..|qs| - 1]);
      var q := qs[|qs| - 1];
      if !OnGrid(b1, q) then b1
      else
        match StoneGroupAt(b1, q)
        case None => b1
        case Some(h) =>
          if h == g then b1 else b1.(groups := b1.groups[h := WithLiberty(b1.groups[h], e)])
  }

  /** One stone e of group g leaves the board: its neighbours gain it as a liberty, its entry
      is cleared and its code is XORed out of the hash. */
  function RemoveStone(b: BoardValue, g: GroupId, e: Point): (r: BoardValue)
    requires Indexed(b) && g < |b.groups|
    ensures Indexed(r) && |r.groups| == |b.groups|
    ensures r.Width == b.Width && r.Height == b.Height && r.groups[g] == b.groups[g]
  {
    var b1 := GiveLiberties(b, g, e, Neighbors(e));
    b1.(stoneMap := b1.stoneMap[e := None],
        hash := Zobrist.Toggle(b1.hash, Zobrist.Code(e, b.groups[g].Color)))
  }

  /** The first i stones of group g removed, in the order of its stone list. */
  function RemoveUpTo(b: BoardValue, g: GroupId, i: nat): (r: BoardValue)
    requires Indexed(b) && g < |b.groups| && i <= |b.groups[g].Stones|
    ensures Indexed(r) && |r.groups| == |b.groups|
    ensures r.Width == b.Width && r.Height == b.Height && r.groups[g] == b.groups[g]
  {
    if i == 0 then b else RemoveStone(RemoveUpTo(b, g, i - 1), g, b.groups[g].Stones[i - 1])
  }

  /** removeStones: a group some of whose stones do not map to it is an error, reported before
      anything changes; otherwise every stone of the group is removed. */
  function RemoveGroup(b: BoardValue, g: GroupId): (r: Placed)
    requires Indexed(b) && g < |b.groups|
    ensures Indexed(r.board) && |r.board.groups| == |b.groups|
    ensures r.board.Width == b.Width && r.board.Height == b.Height
    ensures !GroupMatches(b, g) ==> r == Placed(b, Some(GroupMismatch))
    ensures GroupMatches(b, g) ==> r.err.None?
  {
    if !GroupMatches(b, g) then Placed(b, Some(GroupMismatch))
    else Placed(RemoveUpTo(b, g, |b.groups[g].Stones|), None)
  }

  // ---------------------------------------------------------------------------------------
  // Placing a stone: PlaceStone

  /** The neighbour scan: empty on-grid neighbours (liberties of the new stone, one per
      neighbour) and the adjacent groups of the mover's colour and of any other colour, each
      listed once (add_group). */
  datatype Scan = Scan(libs: seq<Point>, same: seq<GroupId>, opp: seq<GroupId>)

  function AddGroup(list: seq<GroupId>, g: GroupId): (r: seq<GroupId>)
    ensures forall h :: h in r <==> h in list || h == g
    ensures NoDups(list) ==> NoDups(r)
  {
    if g in list then list else list + [g]
  }

  /** The scan after the first i of the four neighbours of p. */
  function ScanUpTo(b: BoardValue, turn: Players.Player, p: Point, i: nat): (r: Scan)
    requires Indexed(b) && i <= 4
    ensures IdsIn(r.same, |b.groups|) && IdsIn(r.opp, |b.groups|)
    ensures NoDups(r.same) && NoDups(r.opp)
  {
    if i == 0 then Scan([], [], [])
    else
      var acc := ScanUpTo(b, turn, p, i - 1);
      var e := Neighbors(p)[i - 1];
      if !OnGrid(b, e) then acc
      else
        match StoneGroupAt(b, e)
        case None => acc.(libs := acc.libs + [e])
        case Some(g) =>
          if b.groups[g].Color == turn then acc.(same := AddGroup(acc.same, g))
          else acc.(opp := AddGroup(acc.opp, g))
  }

  /** The merge loop from its i-th turn on, with g merged so far; None when MergeIn reports a
      colour mismatch, which stops the loop. */
  function MergeFrom(g: Group, ids: seq<GroupId>, groups: seq<Group>, i: nat): (r: Option<Group>)
    requires i <= |ids| && IdsIn(ids, |groups|)
    decreases |ids| - i
  {
    if i == |ids| then Some(g)
    else if g.Color != groups[ids[i]].Color then None
    else MergeFrom(Merged(g, groups[ids[i]]), ids, groups, i + 1)
  }

  /** The liberty loop from its i-th turn on: each opposite group loses p as a liberty; one
      that lacks it stops the loop with an error, leaving the board as it then stands. */
  function RemoveLibFrom(b: BoardValue, opp: seq<GroupId>, p: Point, i: nat): (r: Placed)
    requires Indexed(b) && i <= |opp| && IdsIn(opp, |b.groups|)
    ensures Indexed(r.board) && |r.board.groups| == |b.groups|
    ensures r.board.stoneMap == b.stoneMap && r.board.hash == b.hash
    ensures r.err.Some? ==> r.err == Some(MissingLiberty)
    ensures r.board.Width == b.Width && r.board.Height == b.Height
    decreases |opp| - i
  {
    if i == |opp| then Placed(b, None)
    else
      var o := opp[i];
      if p !in b.groups[o].Liberties then Placed(b, Some(MissingLiberty))
      else RemoveLibFrom(b.(groups := b.groups[o := WithoutLiberty(b.groups[o], p)]), opp, p, i + 1)
  }

  /** The capture loop from its i-th turn on: each opposite group that has no liberty left when
      its turn comes is removed; a failed removal stops the loop. */
  function CaptureFrom(b: BoardValue, opp: seq<GroupId>, i: nat): (r: Placed)
    requires Indexed(b) && i <= |opp| && IdsIn(opp, |b.groups|)
    ensures Indexed(r.board) && |r.board.groups| == |b.groups|
    ensures r.err.Some? ==> r.err == Some(GroupMismatch)
    ensures r.board.Width == b.Width && r.board.Height == b.Height
    decreases |opp| - i
  {
    if i == |opp| then Placed(b, None)
    else if |b.groups[opp[i]].Liberties| != 0 then CaptureFrom(b, opp, i + 1)
    else
      var r := RemoveGroup(b, opp[i]);
      if r.err.Some? then r else CaptureFrom(r.board, opp, i + 1)
  }

  /** PlaceStone: turn plays at p. An off-grid or occupied point is an error reported before
      anything changes. Otherwise the stone and its same-colour neighbour groups become one new
      group, the hash takes the stone's code, the opposite neighbour groups lose p as a
      liberty, and those left without liberties are captured. */
  function Place(b: BoardValue, turn: Players.Player, p: Point): (r: Placed)
    requires Indexed(b)
    ensures Indexed(r.board)
    ensures r.board.Width == b.Width && r.board.Height == b.Height
    ensures !OnGrid(b, p) ==> r == Placed(b, Some(OffGrid))
    ensures OnGrid(b, p) && StoneGroupAt(b, p).Some? ==> r == Placed(b, Some(Occupied))
  {
    if !OnGrid(b, p) then Placed(b, Some(OffGrid))
    else if StoneGroupAt(b, p).Some? then Placed(b, Some(Occupied))
    else
      var sc := ScanUpTo(b, turn, p, 4);
      match MergeFrom(Group(turn, [p], sc.libs), sc.same, b.groups, 0)
      case None => Placed(b, Some(MergeColorMismatch))
      case Some(newsg) =>
        var b1 := Join(b, newsg, turn, p);
        var r2 := RemoveLibFrom(b1, sc.opp, p, 0);
        if r2.err.Some? then r2 else CaptureFrom(r2.board, sc.opp, 0)
  }

  /** The new group takes the next slot, its stones map to it, and the hash takes the code of
      the placed stone. */
  function Join(b: BoardValue, newsg: Group, turn: Players.Player, p: Point): (r: BoardValue)
    requires Indexed(b)
    ensures Indexed(r) && |r.groups| == |b.groups| + 1 && r.groups[|b.groups|] == newsg
    ensures r.Width == b.Width && r.Height == b.Height
    ensures r.groups[..|b.groups|] == b.groups
  {
    var n := |b.groups|;
    b.(groups := b.groups + [newsg],
       stoneMap := MapStones(b.stoneMap, newsg.Stones, n, |newsg.Stones|),
       hash := Zobrist.Toggle(b.hash, Zobrist.Code(p, turn)))
  }

  // ---------------------------------------------------------------------------------------
  // Eyes

  /** The four diagonal neighbours, with uint16 wrap-around. */
  function Corners(p: Point): seq<Point>
  {
    [Point(Dec(p.Row), Dec(p.Col)), Point(Dec(p.Row), Inc(p.Col)),
     Point(Inc(p.Row), Dec(p.Col)), Point(Inc(p.Row), Inc(p.Col))]
  }

  /** How many of the first i points are off the grid. */
  function CountOffGrid(b: BoardValue, cs: seq<Point>, i: nat): (n: nat)
    requires i <= |cs|
    ensures n <= i
  {
    if i == 0 then 0 else CountOffGrid(b, cs, i - 1) + (if OnGrid(b, cs[i - 1]) then 0 else 1)
  }

  /** How many of the first i points are on the grid and hold a stone of colour. */
  function CountFriendly(b: BoardValue, cs: seq<Point>, color: Players.Player, i: nat): (n: nat)
    requires Indexed(b) && i <= |cs|
    ensures n <= i
  {
    if i == 0 then 0
    else
      CountFriendly(b, cs, color, i - 1)
      + (if OnGrid(b, cs[i - 1]) && ColorAt(b, cs[i - 1]) == Some(color) then 1 else 0)
  }

  /** IsPointAnEye: p is empty and every on-grid orthogonal neighbour holds a stone of colour;
      then, at the edge (some diagonal off the grid) every on-grid diagonal must be friendly,
      and inside at least three diagonals must be. */
  predicate IsEye(b: BoardValue, p: Point, color: Players.Player)
    requires Indexed(b)
  {
    && StoneGroupAt(b, p).None?
    && (forall k :: 0 <= k < 4 && OnGrid(b, Neighbors(p)[k]) ==> ColorAt(b, Neighbors(p)[k]) == Some(color))
    && var off, friendly := CountOffGrid(b, Corners(p), 4), CountFriendly(b, Corners(p), color, 4);
       if off > 0 then off + friendly == 4 else friendly >= 3
  }

  // ---------------------------------------------------------------------------------------
  // The mutable board

  class Board {
    var Width: U16
    var Height: U16
    var stoneMap: map<Point, Option<GroupId>>
    var groups: seq<Group>
    var hash: bv64

    function Value(): BoardValue
      reads this
    {
      BoardValue(Width, Height, stoneMap, groups, hash)
    }

    /** NewBoard. */
    constructor (w: U16, h: U16)
      ensures Value() == NewBoard(w, h)
    {
      Width, Height, stoneMap, groups, hash := w, h, map[], [], Zobrist.EmptyBoardHashCode;
    }

    function GetZobristHash(): (r: bv64)
      reads this
      ensures r == Value().hash
    {
      hash
    }

    /** GetAllStoneGroups: one pass over the map entries, in Go's unspecified map order, keeping
        each group the first time it is met. */
    method GetAllStoneGroups() returns (v: seq<GroupId>)
      ensures Enumerates(Value(), v)
    {
      v := [];
      var keys := stoneMap.Keys;
      while keys != {}
        invariant keys <= stoneMap.Keys
        invariant NoDups(v)
        invariant forall g :: g in v <==>
          exists q :: q in stoneMap && q !in keys && stoneMap[q] == Some(g)
        decreases |keys|
      {
        var q :| q in keys;
        keys := keys - {q};
        var e := stoneMap[q];
        if e.Some? && e.value !in v {
          v := v + [e.value];
        }
      }
      forall g | g in LiveSet(Value())
        ensures g in v
      {
        var o :| o in stoneMap.Values && o.Some? && o.value == g;
        var q :| q in stoneMap && stoneMap[q] == o;
      }
    }

    /** Copy: a new board of the same size holding a copy of each group, taken in the order
        GetAllStoneGroups returns them. */
    method Copy() returns (nb: Board, ghost order: seq<GroupId>)
      requires Indexed(Value())
      ensures fresh(nb) && Enumerates(Value(), order) && IdsIn(order, |groups|)
      ensures nb.Value() == CopyInOrder(Value(), order)
    {
      nb := new Board(Width, Height);
      var all := GetAllStoneGroups();
      LiveSetIndexed(Value());
      assert forall k :: 0 <= k < |all| ==> all[k] in LiveSet(Value());
      order := all;
      var cg, cm := CopyLoop(Value(), all);
      nb.groups, nb.stoneMap := cg, cm;
      assert nb.groups == CopyInOrder(Value(), order).groups;
    }

    /** Equal; a nil board is never equal. Each group is compared with StoneGroup.Equal. */
    method Equal(c: Board?) returns (r: bool)
      requires Indexed(Value()) && (c != null ==> Indexed(c.Value()))
      ensures r <==> c != null && BoardsEqual(Value(), c.Value())
    {
      if c == null {
        return false;
      }
      if Width != c.Width || Height != c.Height {
        return false;
      }
      var bsg := GetAllStoneGroups();
      var csg := c.GetAllStoneGroups();
      CardOfNoDups(bsg);
      CardOfNoDups(csg);
      LiveSetIndexed(Value());
      LiveSetIndexed(c.Value());
      if |bsg| != |csg| {
        return false;
      }
      assert forall k :: 0 <= k < |bsg| ==> bsg[k] in LiveSet(Value());
      assert forall k :: 0 <= k < |csg| ==> csg[k] in LiveSet(c.Value());
      var i := 0;
      while i < |bsg|
        invariant 0 <= i <= |bsg|
        invariant forall k :: 0 <= k < i ==>
          exists h :: h in LiveSet(c.Value()) && SameGroup(groups[bsg[k]], c.groups[h])
      {
        var found := false;
        var j := 0;
        while j < |csg| && !found
          invariant 0 <= j <= |csg|
          invariant found ==> exists h :: h in LiveSet(c.Value()) && SameGroup(groups[bsg[i]], c.groups[h])
          invariant !found ==> forall m :: 0 <= m < j ==> !SameGroup(groups[bsg[i]], c.groups[csg[m]])
        {
          if SameGroup(groups[bsg[i]], c.groups[csg[j]]) {
            found := true;
          }
          j := j + 1;
        }
        if !found {
          assert bsg[i] in LiveSet(Value());
          forall h | h in LiveSet(c.Value())
            ensures !SameGroup(groups[bsg[i]], c.groups[h])
          {
            assert h in Elems(csg);
          }
          return false;
        }
        i := i + 1;
      }
      forall g | g in LiveSet(Value())
        ensures exists h :: h in LiveSet(c.Value()) && SameGroup(groups[g], c.groups[h])
      {
        assert g in Elems(bsg);
      }
      return true;
    }

    /** The liberties a removed stone e of group g gives to its neighbours' groups. */
    method GiveLibertiesAround(g: GroupId, e: Point)
      requires Indexed(Value()) && g < |groups|
      modifies this
      ensures Value() == GiveLiberties(old(Value()), g, e, Neighbors(e))
    {
      ghost var b0 := Value();
      var ns := Neighbors(e);
      var j := 0;
      while j < 4
        invariant 0 <= j <= 4
        invariant Value() == GiveLiberties(b0, g, e, ns[..j])
      {
        assert ns[..j + 1][..j] == ns[..j];
        var q := ns[j];
        if InRect(q, Width, Height) {
          var nsg := StoneGroupAt(Value(), q);
          if nsg.Some? && nsg.value != g {
            groups := groups[nsg.value := WithLiberty(groups[nsg.value], e)];
          }
        }
        j := j + 1;
      }
      assert ns[..4] == ns;
    }

    /** One stone e of group g leaves the board. */
    method RemoveOne(g: GroupId, e: Point)
      requires Indexed(Value()) && g < |groups|
      modifies this
      ensures Value() == RemoveStone(old(Value()), g, e)
    {
      ghost var b0 := Value();
      var color := groups[g].Color;
      GiveLibertiesAround(g, e);
      stoneMap, hash := stoneMap[e := None], Zobrist.Toggle(hash, Zobrist.Code(e, color));
    }

    /** removeStones' check that every stone of group g maps to g. */
    method CheckGroup(g: GroupId) returns (ok: bool)
      requires g < |groups|
      ensures ok == GroupMatches(Value(), g)
    {
      var stones := groups[g].Stones;
      var k := 0;
      while k < |stones|
        invariant 0 <= k <= |stones|
        invariant forall m :: 0 <= m < k ==> stones[m] in stoneMap && stoneMap[stones[m]] == Some(g)
      {
        var e := stones[k];
        if e !in stoneMap || stoneMap[e] != Some(g) {
          return false;
        }
        k := k + 1;
      }
      return true;
    }

    /** removeStones. */
    method RemoveStones(g: GroupId) returns (err: bool)
      requires Indexed(Value()) && g < |groups|
      modifies this
      ensures Placed(Value(), if err then Some(GroupMismatch) else None) == RemoveGroup(old(Value()), g)
    {
      var ok := CheckGroup(g);
      if !ok {
        return true;
      }
      var sg := groups[g];
      var k := 0;
      ghost var b0 := Value();
      while k < |sg.Stones|
        invariant 0 <= k <= |sg.Stones|
        invariant Value() == RemoveUpTo(b0, g, k)
      {
        RemoveOne(g, sg.Stones[k]);
        k := k + 1;
      }
      return false;
    }

    /** The neighbour scan of PlaceStone; the board is only read. */
    method ScanNeighbors(turn: Players.Player, p: Point) returns (sc: Scan)
      requires Indexed(Value())
      ensures sc == ScanUpTo(Value(), turn, p, 4)
    {
      var libs, same, opp := [], [], [];
      var ns := Neighbors(p);
      var i := 0;
      while i < 4
        invariant 0 <= i <= 4
        invariant Scan(libs, same, opp) == ScanUpTo(Value(), turn, p, i)
      {
        var e := ns[i];
        if InRect(e, Width, Height) {
          var nsg := StoneGroupAt(Value(), e);
          if nsg.None? {
            libs := libs + [e];
          } else if groups[nsg.value].Color == turn {
            same := AddGroup(same, nsg.value);
          } else {
            opp := AddGroup(opp, nsg.value);
          }
        }
        i := i + 1;
      }
      return Scan(libs, same, opp);
    }

    /** The merge loop of PlaceStone, on the new group before it is on the board. */
    method MergeAll(g0: Group, same: seq<GroupId>) returns (newsg: Group, ok: bool)
      requires IdsIn(same, |groups|)
      ensures ok ==> MergeFrom(g0, same, groups, 0) == Some(newsg)
      ensures !ok ==> MergeFrom(g0, same, groups, 0).None?
    {
      newsg := g0;
      var i := 0;
      while i < |same|
        invariant 0 <= i <= |same|
        invariant MergeFrom(g0, same, groups, 0) == MergeFrom(newsg, same, groups, i)
      {
        var e := groups[same[i]];
        if newsg.Color != e.Color {
          return newsg, false;
        }
        newsg := Merged(newsg, e);
        i := i + 1;
      }
      return newsg, true;
    }

    /** The new group goes on the board: its stones map to it and the hash takes p's code. */
    method JoinGroup(newsg: Group, turn: Players.Player, p: Point)
      requires Indexed(Value())
      modifies this
      ensures Value() == Join(old(Value()), newsg, turn, p)
    {
      var m := MapStonesLoop(stoneMap, newsg.Stones, |groups|);
      groups, stoneMap, hash := groups + [newsg], m, Zobrist.Toggle(hash, Zobrist.Code(p, turn));
    }

    /** The loop that takes p from the opposite groups' liberties. */
    method RemoveLibertyFromAll(opp: seq<GroupId>, p: Point) returns (err: Option<PlaceError>)
      requires Indexed(Value()) && IdsIn(opp, |groups|)
      modifies this
      ensures Placed(Value(), err) == RemoveLibFrom(old(Value()), opp, p, 0)
    {
      ghost var b1 := Value();
      var i := 0;
      while i < |opp|
        invariant 0 <= i <= |opp|
        invariant Indexed(Value()) && IdsIn(opp, |groups|)
        invariant RemoveLibFrom(Value(), opp, p, i) == RemoveLibFrom(b1, opp, p, 0)
      {
        var o := opp[i];
        if p !in groups[o].Liberties {
          return Some(MissingLiberty);
        }
        groups := groups[o := WithoutLiberty(groups[o], p)];
        i := i + 1;
      }
      return None;
    }

    /** The capture loop of PlaceStone. */
    method CaptureAll(opp: seq<GroupId>) returns (err: Option<PlaceError>)
      requires Indexed(Value()) && IdsIn(opp, |groups|)
      modifies this
      ensures Placed(Value(), err) == CaptureFrom(old(Value()), opp, 0)
    {
      ghost var b2 := Value();
      var i := 0;
      while i < |opp|
        invariant 0 <= i <= |opp|
        invariant Indexed(Value()) && IdsIn(opp, |groups|)
        invariant CaptureFrom(Value(), opp, i) == CaptureFrom(b2, opp, 0)
      {
        if |groups[opp[i]].Liberties| == 0 {
          var e := RemoveStones(opp[i]);
          if e {
            return Some(GroupMismatch);
          }
        }
        i := i + 1;
      }
      return None;
    }

    /** PlaceStone. */
    method PlaceStone(turn: Players.Player, p: Point) returns (err: Option<PlaceError>)
      requires Indexed(Value())
      modifies this
      ensures Placed(Value(), err) == Place(old(Value()), turn, p)
    {
      if !InRect(p, Width, Height) {
        return Some(OffGrid);
      }
      if StoneGroupAt(Value(), p).Some? {
        return Some(Occupied);
      }
      var sc := ScanNeighbors(turn, p);
      var newsg, ok := MergeAll(Group(turn, [p], sc.libs), sc.same);
      if !ok {
        return Some(MergeColorMismatch);
      }
      JoinGroup(newsg, turn, p);
      err := RemoveLibertyFromAll(sc.opp, p);
      if err.Some? {
        return err;
      }
      err := CaptureAll(sc.opp);
    }

    /** IsPointAnEye. */
    method IsPointAnEye(p: Point, color: Players.Player) returns (r: bool)
      requires Indexed(Value())
      ensures r == IsEye(Value(), p, color)
    {
      if StoneGroupAt(Value(), p).Some? {
        return false;
      }
      var ns := Neighbors(p);
      var k := 0;
      while k < 4
        invariant 0 <= k <= 4
        invariant forall j :: 0 <= j < k && OnGrid(Value(), ns[j]) ==> ColorAt(Value(), ns[j]) == Some(color)
      {
        if InRect(ns[k], Width, Height) {
          var nsg := StoneGroupAt(Value(), ns[k]);
          if nsg.None? {
            return false;
          }
          if groups[nsg.value].Color != color {
            return false;
          }
        }
        k := k + 1;
      }
      var friendly, off := 0, 0;
      var corners := Corners(p);
      k := 0;
      while k < 4
        invariant 0 <= k <= 4
        invariant friendly == CountFriendly(Value(), corners, color, k)
        invariant off == CountOffGrid(Value(), corners, k)
      {
        if InRect(corners[k], Width, Height) {
          var csg := StoneGroupAt(Value(), corners[k]);
          if csg.Some? && groups[csg.value].Color == color {
            friendly := friendly + 1;
          }
        } else {
          off := off + 1;
        }
        k := k + 1;
      }
      if off > 0 {
        return off + friendly == 4;
      } else {
        return friendly >= 3;
      }
    }
  }
}
