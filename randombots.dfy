/** The two random agents (botRandom.go, botFastRandom.go). Both play a uniformly chosen point
    that is a valid play and not one of the mover's own eyes, and pass when there is none; the
    random choices are left open: any index in range, any permutation. */
module RandomBots {
  import opened Points
  import opened Boards
  import opened Moves
  import opened GameStates
  import Players

  // ---------------------------------------------------------------------------------------
  // The points of the grid, row by row

  /** (r, 1), (r, 2), ..., (r, c). */
  function RowPoints(r: U16, c: U16): (ps: seq<Point>)
    ensures |ps| == c
    ensures forall k :: 0 <= k < c ==> ps[k] == Point(r, k + 1)
  {
    if c == 0 then [] else RowPoints(r, c - 1) + [Point(r, c)]
  }

  /** Rows 1 to rows, each from column 1 to cols. */
  function GridPoints(rows: U16, cols: U16): (ps: seq<Point>)
    ensures |ps| == rows * cols
  {
    if rows == 0 then [] else GridPoints(rows - 1, cols) + RowPoints(rows, cols)
  }

  /** The grid holds exactly the points of the rectangle ... */
  lemma {:induction false} GridMembers(rows: U16, cols: U16)
    ensures forall q :: q in GridPoints(rows, cols) <==> 1 <= q.Row <= rows && 1 <= q.Col <= cols
  {
    if rows > 0 {
      GridMembers(rows - 1, cols);
      forall q: Point | q.Row == rows && 1 <= q.Col <= cols
        ensures q in RowPoints(rows, cols)
      {
        assert RowPoints(rows, cols)[q.Col - 1] == q;
      }
    }
  }

  /** ... in row-major order, so each of them once. */
  lemma {:induction false} GridOrder(rows: U16, cols: U16)
    ensures forall i, j :: 0 <= i < j < |GridPoints(rows, cols)| ==>
      Before(GridPoints(rows, cols)[i], GridPoints(rows, cols)[j])
  {
    if rows > 0 {
      GridOrder(rows - 1, cols);
      GridMembers(rows - 1, cols);
      var g := GridPoints(rows - 1, cols);
      assert forall k :: 0 <= k < |g| ==> g[k] in g;
    }
  }

  // ---------------------------------------------------------------------------------------
  // Candidates

  /** A point either bot may play: a valid play that does not fill one of the mover's eyes. */
  predicate Qualifies(gs: GameState, q: Point)
    requires Indexed(gs.board)
  {
    ValidMove(gs, NewPlay(q)) && !IsEye(gs.board, q, gs.turn)
  }

  /** Qualifies as a function value, for the loops that take the test as a parameter. */
  function QualifierOf(gs: GameState): Point -> bool
  {
    q => Indexed(gs.board) && Qualifies(gs, q)
  }

  /** The points of ps that pass ok, in order. */
  function Filter(ok: Point -> bool, ps: seq<Point>): seq<Point>
  {
    if ps == [] then []
    else
      var q := ps[|ps| - 1];
      Filter(ok, ps[..|ps| - 1]) + (if ok(q) then [q] else [])
  }

  /** The candidates of ps: the points that qualify, in order. */
  function Candidates(gs: GameState, ps: seq<Point>): seq<Point>
  {
    Filter(QualifierOf(gs), ps)
  }

  /** One more point joins the filtered list at the end when it passes. */
  lemma FilterSnoc(ok: Point -> bool, xs: seq<Point>, q: Point)
    ensures Filter(ok, xs + [q]) == Filter(ok, xs) + (if ok(q) then [q] else [])
  {
    assert (xs + [q])[..|xs|] == xs;
  }

  lemma {:induction false} FilterAppend(ok: Point -> bool, xs: seq<Point>, ys: seq<Point>)
    ensures Filter(ok, xs + ys) == Filter(ok, xs) + Filter(ok, ys)
    decreases |ys|
  {
    if ys == [] {
      assert xs + ys == xs;
    } else {
      var l := |ys| - 1;
      assert (xs + ys)[..|xs + ys| - 1] == xs + ys[..l];
      FilterAppend(ok, xs, ys[..l]);
    }
  }

  /** The filtered list holds exactly the points of ps that pass. */
  lemma {:induction false} FilterMembers(ok: Point -> bool, ps: seq<Point>)
    ensures forall q :: q in Filter(ok, ps) <==> q in ps && ok(q)
  {
    if ps != [] {
      FilterMembers(ok, ps[..|ps| - 1]);
      assert ps == ps[..|ps| - 1] + [ps[|ps| - 1]];
    }
  }

  /** So the candidates are exactly the qualifying points. */
  lemma CandidatesMembers(gs: GameState, ps: seq<Point>)
    requires Indexed(gs.board)
    ensures forall q :: q in Candidates(gs, ps) <==> q in ps && Qualifies(gs, q)
  {
    FilterMembers(QualifierOf(gs), ps);
  }

  // ---------------------------------------------------------------------------------------
  // RandomBot

  /** The inner loop of RandomBot.SelectMove: the points of row r that pass ok, the candidate
      test (IsValidMove, then IsPointAnEye), appended to those found so far. */
  method ScanRow(ok: Point -> bool, r: U16, width: U16, found: seq<Point>) returns (candidates: seq<Point>)
    requires width < 0xFFFF
    ensures candidates == found + Filter(ok, RowPoints(r, width))
  {
    candidates := found;
    var c: U16 := 1;
    while c <= width
      invariant 1 <= c <= width + 1
      invariant candidates == found + Filter(ok, RowPoints(r, c - 1))
    {
      var candidate := Point(r, c);
      assert RowPoints(r, c) == RowPoints(r, c - 1) + [candidate];
      FilterSnoc(ok, RowPoints(r, c - 1), candidate);
      if ok(candidate) {
        candidates := candidates + [candidate];
      }
      c := c + 1;
    }
  }

  /** The nested loops of RandomBot.SelectMove: the points of the grid that pass ok, in
      row-major order, rows up to height and columns up to width. Go's uint16 loop counters
      would wrap and never stop on a side of 65535, which is excluded. */
  method CollectCandidates(ok: Point -> bool, height: U16, width: U16) returns (candidates: seq<Point>)
    requires width < 0xFFFF && height < 0xFFFF
    ensures candidates == Filter(ok, GridPoints(height, width))
  {
    candidates := [];
    var r: U16 := 1;
    while r <= height
      invariant 1 <= r <= height + 1
      invariant candidates == Filter(ok, GridPoints(r - 1, width))
    {
      FilterAppend(ok, GridPoints(r - 1, width), RowPoints(r, width));
      candidates := ScanRow(ok, r, width, candidates);
      r := r + 1;
    }
  }

  /** RandomBot.SelectMove: pass when there is no candidate, else play any one of them. */
  method RandomSelectMove(gs: GameState) returns (m: Move)
    requires Indexed(gs.board) && gs.board.Width < 0xFFFF && gs.board.Height < 0xFFFF
    ensures var cs := Candidates(gs, GridPoints(gs.board.Height, gs.board.Width));
      && (cs == [] <==> m == NewPass())
      && (cs != [] ==> exists i :: 0 <= i < |cs| && m == NewPlay(cs[i]))
    ensures m == NewPass() || (IsPurePlay(m) && ValidMove(gs, m) && !IsEye(gs.board, m.Pnt, gs.turn))
  {
    var candidates := CollectCandidates(QualifierOf(gs), gs.board.Height, gs.board.Width);
    CandidatesMembers(gs, GridPoints(gs.board.Height, gs.board.Width));
    if |candidates| <= 0 {
      return NewPass();
    }
    var i :| 0 <= i < |candidates|;
    assert candidates[i] in candidates;
    return NewPlay(candidates[i]);
  }

  // ---------------------------------------------------------------------------------------
  // FastRandomBot

  /** The fill loops of FastRandomBot.SelectMove, on Go ints: rows up to Height, columns up
      to Width. */
  method GridOf(gs: GameState) returns (cache: seq<Point>)
    ensures cache == GridPoints(gs.board.Height, gs.board.Width)
  {
    cache := [];
    var r := 1;
    while r <= gs.board.Height as int
      invariant 1 <= r <= gs.board.Height as int + 1
      invariant cache == GridPoints(r - 1, gs.board.Width)
    {
      var c := 1;
      assert GridPoints(r - 1, gs.board.Width) + RowPoints(r, 0) == GridPoints(r - 1, gs.board.Width);
      while c <= gs.board.Width as int
        invariant 1 <= c <= gs.board.Width as int + 1
        invariant cache == GridPoints(r - 1, gs.board.Width) + RowPoints(r, c - 1)
      {
        cache := cache + [Point(r, c)];
        c := c + 1;
      }
      r := r + 1;
    }
  }

  /** The scan of FastRandomBot.SelectMove: a play at the first point that passes ok, the
      candidate test, or a pass when none does. */
  method FirstPassing(ok: Point -> bool, ps: seq<Point>) returns (m: Move)
    ensures || (m == NewPass() && forall k :: 0 <= k < |ps| ==> !ok(ps[k]))
            || exists i :: 0 <= i < |ps| && m == NewPlay(ps[i]) && ok(ps[i]) && forall k :: 0 <= k < i ==> !ok(ps[k])
  {
    for i := 0 to |ps|
      invariant forall k :: 0 <= k < i ==> !ok(ps[k])
    {
      var candidate := ps[i];
      if ok(candidate) {
        return NewPlay(candidate);
      }
    }
    return NewPass();
  }

  /** FastRandomBot: the grid's points are cached on the first call and shuffled before every
      scan. */
  class FastRandomBot {
    var point_cache: seq<Point>

    /** NewFastRandomBot. */
    constructor ()
      ensures point_cache == []
    {
      point_cache := [];
    }

    /** randShuffle: rand.Shuffle's Fisher-Yates pass, each step swapping slot i with any slot
        j <= i; the cache keeps its points, in some order. */
    method Shuffle()
      modifies this
      ensures |point_cache| == |old(point_cache)|
      ensures multiset(point_cache) == multiset(old(point_cache))
    {
      var s := point_cache;
      var i := |s| - 1;
      while i > 0
        invariant -1 <= i < |s| && |s| == |point_cache|
        invariant multiset(s) == multiset(point_cache)
      {
        var j :| 0 <= j <= i;
        s := s[i := s[j]][j := s[i]];
        i := i - 1;
      }
      point_cache := s;
    }

    /** SelectMove: fill the cache with the grid's points, rows up to Height and columns up to
        Width, when it is empty; shuffle it; play the first cached point that qualifies, or
        pass. */
    method SelectMove(gs: GameState) returns (m: Move)
      requires Indexed(gs.board)
      modifies this
      ensures old(point_cache) == [] ==>
        multiset(point_cache) == multiset(GridPoints(gs.board.Height, gs.board.Width))
      ensures old(point_cache) != [] ==> multiset(point_cache) == multiset(old(point_cache))
      ensures || (m == NewPass() && forall k :: 0 <= k < |point_cache| ==> !Qualifies(gs, point_cache[k]))
              || exists i :: 0 <= i < |point_cache| && m == NewPlay(point_cache[i]) && Qualifies(gs, point_cache[i])
                             && forall k :: 0 <= k < i ==> !Qualifies(gs, point_cache[k])
    {
      if |point_cache| <= 0 {
        point_cache := GridOf(gs);
      }
      Shuffle();
      m := FirstPassing(QualifierOf(gs), point_cache);
    }
  }
}
