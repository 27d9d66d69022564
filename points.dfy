/** Board coordinates (point.go) and the column letters of board.go. Row and column are Go
    uint16 values, so arithmetic on them wraps modulo 65536. */
module Points {
  import opened Wrappers
  import Strconv

  type U16 = x: int | 0 <= x < 0x1_0000

  datatype Point = Point(Row: U16, Col: U16)

  /** uint16 subtraction and addition of one, with Go's wrap-around. */
  function Dec(x: U16): (r: U16)
    ensures (r + 1) % 0x1_0000 == x
  {
    if x == 0 then 0xFFFF else x - 1
  }

  function Inc(x: U16): (r: U16)
    ensures r == (x + 1) % 0x1_0000
  {
    if x == 0xFFFF then 0 else x + 1
  }

  /** Cutting a uint16 value to 16 bits leaves it unchanged. */
  lemma U16Mod(x: U16)
    ensures x % 0x1_0000 == x
  {
  }

  /** The four orthogonal neighbours, in the source's order: left, down, right, up. */
  function Neighbors(p: Point): seq<Point>
  {
    [Point(p.Row, Dec(p.Col)), Point(Inc(p.Row), p.Col), Point(p.Row, Inc(p.Col)), Point(Dec(p.Row), p.Col)]
  }

  /** A point inside a grid of the given size, counted from 1 on both axes. */
  predicate InRect(q: Point, width: int, height: int)
  {
    1 <= q.Row <= height && 1 <= q.Col <= width
  }

  function Abs(x: int): nat { if x < 0 then -x else x }

  /** Column letters; I is skipped so that it is not mistaken for 1. */
  const COLS: string := "ABCDEFGHJKLMNOPQRST"

  /** strings.Index of a one-character needle: the first position of c in s, or -1. */
  function IndexOf(s: string, c: char): (i: int)
    ensures -1 <= i < |s|
    ensures i == -1 <==> c !in s
    ensures 0 <= i ==> s[i] == c && c !in s[..i]
  {
    if s == [] then -1
    else if s[0] == c then 0
    else
      var j := IndexOf(s[1..], c);
      if j == -1 then -1
      else
        assert s[..j + 1] == [s[0]] + s[1..][..j];
        j + 1
  }

  /** PointFromCoords("B17"): the column is one more than the letter's index in COLS (0 when the
      letter is absent, as for 'I'); the row is strconv.Atoi of the rest, cut to uint16. An empty
      string (coords[0] out of range) or a row that is not a number panics: None. */
  function PointFromCoords(coords: string): (r: Option<Point>)
    ensures coords == [] ==> r.None?
    ensures coords != [] ==> (r.Some? <==> Strconv.Atoi(coords[1..]).Some?)
    ensures r.Some? ==> r.value.Col == IndexOf(COLS, coords[0]) + 1
    ensures r.Some? ==> r.value.Row == Strconv.Atoi(coords[1..]).value % 0x1_0000
  {
    if coords == [] then None
    else
      var col := IndexOf(COLS, coords[0]) + 1;
      match Strconv.Atoi(coords[1..])
      case None => None
      case Some(row) => Some(Point(row % 0x1_0000, col))
  }

  /** A column letter followed by a numeral reads as that column and row. */
  lemma PointFromLetterAndDigits(c: char, digits: string)
    requires Strconv.Atoi(digits).Some?
    ensures PointFromCoords([c] + digits)
         == Some(Point(Strconv.Atoi(digits).value % 0x1_0000, IndexOf(COLS, c) + 1))
  {
    assert ([c] + digits)[1..] == digits;
  }

  /** Neighbourhood is symmetric, wrap-around included. */
  lemma NeighborsSymmetric(p: Point, q: Point)
    ensures q in Neighbors(p) <==> p in Neighbors(q)
  {
  }

  /** Inside a grid, the neighbours of an inside point that are themselves inside are exactly the
      inside points at Manhattan distance one. */
  lemma NeighborsOnGrid(p: Point, q: Point, width: U16, height: U16)
    requires InRect(p, width, height)
    ensures q in Neighbors(p) && InRect(q, width, height)
        <==> InRect(q, width, height) && Abs(q.Row - p.Row) + Abs(q.Col - p.Col) == 1
  {
  }

  /** The four neighbours are pairwise distinct. */
  lemma NeighborsDistinct(p: Point)
    ensures forall i, j :: 0 <= i < j < 4 ==> Neighbors(p)[i] != Neighbors(p)[j]
  {
  }

  /** 'I' is not a column letter: its column is 0. */
  lemma ColumnOfI()
    ensures PointFromCoords("I5") == Some(Point(5, 0))
  {
    assert 'I' !in COLS;
    assert "I5"[1..] == "5";
    assert Strconv.DigitsValue("5") == 5 by {
      assert "5"[..0] == [];
    }
  }
}
