/** Stone groups (stones.go): a chain of connected stones of one colour, with the list of its
    liberties. Both lists are Go slices kept in insertion order; the pure functions below give
    the new lists an operation produces, and the StoneGroup class updates its fields in place
    with the same loops as the Go methods and is proved to produce exactly those lists. */
module Stones {
  import opened Points
  import opened Seqs
  import Players

  datatype Group = Group(Color: Players.Player, Stones: seq<Point>, Liberties: seq<Point>)

  /** AddLiberty: a liberty already listed is an error and changes nothing; a new one goes at
      the end, so the list keeps its order and gains exactly p. */
  function WithLiberty(g: Group, p: Point): (r: Group)
    ensures r.Color == g.Color && r.Stones == g.Stones
    ensures p in g.Liberties ==> r == g
    ensures p !in g.Liberties ==> g.Liberties < r.Liberties && |r.Liberties| == |g.Liberties| + 1
    ensures forall q :: q in r.Liberties <==> q in g.Liberties || q == p
    ensures NoDups(g.Liberties) ==> NoDups(r.Liberties)
  {
    if p in g.Liberties then g else g.(Liberties := g.Liberties + [p])
  }

  /** RemoveLiberty: an absent liberty is an error and changes nothing; otherwise the last
      liberty moves into p's slot and the list is cut by one. */
  function WithoutLiberty(g: Group, p: Point): (r: Group)
    ensures r.Color == g.Color && r.Stones == g.Stones
    ensures p !in g.Liberties ==> r == g
    ensures p in g.Liberties ==> |r.Liberties| == |g.Liberties| - 1
  {
    var i := FirstIndex(g.Liberties, p);
    if i == -1 then g
    else
      var l := |g.Liberties|;
      g.(Liberties := g.Liberties[i := g.Liberties[l - 1]][..l - 1])
  }

  /** Moving the last element into slot i and cutting the last slot drops one copy of s[i]. */
  lemma SwapRemoveMultiset(s: seq<Point>, i: nat)
    requires i < |s|
    ensures multiset(s[i := s[|s| - 1]][..|s| - 1]) == multiset(s) - multiset{s[i]}
  {
    var l := |s|;
    var t := s[i := s[l - 1]];
    assert s == s[..l - 1] + [s[l - 1]];
    assert t == t[..l - 1] + [t[l - 1]];
    if i < l - 1 {
      assert multiset(t) == multiset(s) - multiset{s[i]} + multiset{s[l - 1]};
    }
  }

  lemma SwapRemoveNoDups(s: seq<Point>, i: nat)
    requires i < |s| && NoDups(s)
    ensures var r := s[i := s[|s| - 1]][..|s| - 1]; NoDups(r) && s[i] !in r
  {
    var l := |s|;
    var r := s[i := s[l - 1]][..l - 1];
    forall a, b | 0 <= a < b < |r|
      ensures r[a] != r[b]
    {
      if a == i {
        assert r[a] == s[l - 1] && r[b] == s[b];
      } else if b == i {
        assert r[b] == s[l - 1] && r[a] == s[a];
      }
    }
  }

  /** Removing a listed liberty loses exactly one copy of it and nothing else; the former last
      element takes its slot and every other slot keeps its element; a duplicate-free list no
      longer holds p afterwards. */
  lemma WithoutLibertyLosesExactlyP(g: Group, p: Point)
    requires p in g.Liberties
    ensures var r := WithoutLiberty(g, p).Liberties;
      var s := g.Liberties;
      var i := FirstIndex(s, p);
      multiset(r) == multiset(s) - multiset{p}
      && (i < |r| ==> r[i] == s[|s| - 1])
      && (forall k :: 0 <= k < |r| && k != i ==> r[k] == s[k])
      && (NoDups(s) ==> NoDups(r) && p !in r)
  {
    var s := g.Liberties;
    var i := FirstIndex(s, p);
    var r := s[i := s[|s| - 1]][..|s| - 1];
    assert WithoutLiberty(g, p).Liberties == r;
    SwapRemoveMultiset(s, i);
    if NoDups(s) {
      SwapRemoveNoDups(s, i);
    }
  }

  /** The stone loop of MergeIn: each stone of src not yet in the list is appended, in src
      order. */
  function AppendAbsent(acc: seq<Point>, src: seq<Point>): (r: seq<Point>)
    ensures acc <= r
    ensures forall q :: q in r <==> q in acc || q in src
    ensures NoDups(acc) ==> NoDups(r)
    decreases |src|
  {
    if src == [] then acc
    else AppendAbsent(if src[0] in acc then acc else acc + [src[0]], src[1..])
  }

  /** The liberty loop of MergeIn: each liberty of src that is neither listed yet nor one of
      the merged stones is appended, in src order. */
  function AppendLiberties(acc: seq<Point>, src: seq<Point>, stones: seq<Point>): (r: seq<Point>)
    ensures acc <= r
    ensures forall q :: q in r <==> q in acc || (q in src && q !in stones)
    ensures NoDups(acc) ==> NoDups(r)
    decreases |src|
  {
    if src == [] then acc
    else
      var e := src[0];
      AppendLiberties(if e in acc || e in stones then acc else acc + [e], src[1..], stones)
  }

  lemma AppendAbsentStep(acc: seq<Point>, src: seq<Point>, k: nat)
    requires k < |src|
    ensures AppendAbsent(acc, src[k..])
      == AppendAbsent(if src[k] in acc then acc else acc + [src[k]], src[k + 1..])
  {
    assert src[k..][1..] == src[k + 1..];
  }

  lemma AppendLibertiesStep(acc: seq<Point>, src: seq<Point>, stones: seq<Point>, k: nat)
    requires k < |src|
    ensures AppendLiberties(acc, src[k..], stones)
      == AppendLiberties(if src[k] in acc || src[k] in stones then acc else acc + [src[k]],
                         src[k + 1..], stones)
  {
    assert src[k..][1..] == src[k + 1..];
  }

  /** MergeIn: groups of different colours are an error and nothing changes; otherwise the
      stones of mg join sg's and mg's liberties that are new and not stones join sg's. */
  function Merged(sg: Group, mg: Group): (r: Group)
    ensures sg.Color != mg.Color ==> r == sg
    ensures r.Color == sg.Color
    ensures sg.Stones <= r.Stones && sg.Liberties <= r.Liberties
    ensures sg.Color == mg.Color ==>
      (forall q :: q in r.Stones <==> q in sg.Stones || q in mg.Stones)
      && (forall q :: q in r.Liberties <==>
            q in sg.Liberties || (q in mg.Liberties && q !in sg.Stones && q !in mg.Stones))
    ensures NoDups(sg.Stones) ==> NoDups(r.Stones)
    ensures NoDups(sg.Liberties) ==> NoDups(r.Liberties)
  {
    if sg.Color != mg.Color then sg
    else
      var cs := AppendAbsent(sg.Stones, mg.Stones);
      Group(sg.Color, cs, AppendLiberties(sg.Liberties, mg.Liberties, cs))
  }

  /** Equal: same colour and counts, and every stone and liberty of a found in c. */
  predicate SameGroup(a: Group, c: Group)
  {
    && a.Color == c.Color
    && |a.Stones| == |c.Stones|
    && |a.Liberties| == |c.Liberties|
    && (forall e :: e in a.Stones ==> e in c.Stones)
    && (forall e :: e in a.Liberties ==> e in c.Liberties)
  }

  /** For duplicate-free lists, Equal is equality of colour, stone set and liberty set. */
  lemma SameGroupIsSetEquality(a: Group, c: Group)
    requires NoDups(a.Stones) && NoDups(c.Stones) && NoDups(a.Liberties) && NoDups(c.Liberties)
    ensures SameGroup(a, c) <==>
      a.Color == c.Color && Elems(a.Stones) == Elems(c.Stones)
      && Elems(a.Liberties) == Elems(c.Liberties)
  {
    if SameGroup(a, c) {
      SameLengthSubset(a.Stones, c.Stones);
      SameLengthSubset(a.Liberties, c.Liberties);
    }
    if a.Color == c.Color && Elems(a.Stones) == Elems(c.Stones)
      && Elems(a.Liberties) == Elems(c.Liberties)
    {
      CardOfNoDups(a.Stones);
      CardOfNoDups(c.Stones);
      CardOfNoDups(a.Liberties);
      CardOfNoDups(c.Liberties);
      assert forall e :: e in a.Stones ==> e in Elems(c.Stones);
      assert forall e :: e in a.Liberties ==> e in Elems(c.Liberties);
    }
  }

  /** contains: scan s and return the first index of e, or (-1, false). */
  method Contains(s: seq<Point>, e: Point) returns (i: int, found: bool)
    ensures found <==> e in s
    ensures i == FirstIndex(s, e)
  {
    var k := 0;
    while k < |s|
      invariant 0 <= k <= |s|
      invariant e !in s[..k]
    {
      if s[k] == e {
        FirstIndexAt(s, e, k);
        return k, true;
      }
      assert s[..k + 1] == s[..k] + [s[k]];
      k := k + 1;
    }
    assert s[..k] == s;
    return -1, false;
  }

  /** The stone loop of MergeIn. */
  method MergeStones(stones: seq<Point>, ms: seq<Point>) returns (cs: seq<Point>)
    ensures cs == AppendAbsent(stones, ms)
  {
    cs := stones;
    var k := 0;
    while k < |ms|
      invariant 0 <= k <= |ms|
      invariant AppendAbsent(cs, ms[k..]) == AppendAbsent(stones, ms)
    {
      AppendAbsentStep(cs, ms, k);
      var _, b := Contains(cs, ms[k]);
      if !b {
        cs := cs + [ms[k]];
      }
      k := k + 1;
    }
    assert ms[k..] == [];
  }

  /** The liberty loop of MergeIn, against the merged stones cs. */
  method MergeLiberties(libs: seq<Point>, ml: seq<Point>, cs: seq<Point>) returns (cl: seq<Point>)
    ensures cl == AppendLiberties(libs, ml, cs)
  {
    cl := libs;
    var k := 0;
    while k < |ml|
      invariant 0 <= k <= |ml|
      invariant AppendLiberties(cl, ml[k..], cs) == AppendLiberties(libs, ml, cs)
    {
      AppendLibertiesStep(cl, ml, cs, k);
      var _, b1 := Contains(cl, ml[k]);
      if !b1 {
        var _, b2 := Contains(cs, ml[k]);
        if !b2 {
          cl := cl + [ml[k]];
        }
      }
      k := k + 1;
    }
    assert ml[k..] == [];
  }

  class StoneGroup {
    var Color: Players.Player
    var Stones: seq<Point>
    var Liberties: seq<Point>

    function Value(): Group
      reads this
    {
      Group(Color, Stones, Liberties)
    }

    constructor (color: Players.Player, stones: seq<Point>, liberties: seq<Point>)
      ensures Value() == Group(color, stones, liberties)
    {
      Color, Stones, Liberties := color, stones, liberties;
    }

    function NumLiberties(): (n: nat)
      reads this
      ensures n == |Value().Liberties|
    {
      |Liberties|
    }

    function NumStones(): (n: nat)
      reads this
      ensures n == |Value().Stones|
    {
      |Stones|
    }

    /** Copy: a new object with the same colour and the same lists in the same order. */
    method Copy() returns (c: StoneGroup)
      ensures fresh(c) && c.Value() == Value()
    {
      c := new StoneGroup(Color, Stones, Liberties);
    }

    /** Equal; a nil argument is never equal. */
    method Equal(c: StoneGroup?) returns (r: bool)
      ensures r <==> c != null && SameGroup(Value(), c.Value())
    {
      if c == null {
        return false;
      }
      if c.Color != Color || |c.Stones| != |Stones| || |c.Liberties| != |Liberties| {
        return false;
      }
      var k := 0;
      while k < |Stones|
        invariant 0 <= k <= |Stones|
        invariant forall j :: 0 <= j < k ==> Stones[j] in c.Stones
      {
        var _, t := Contains(c.Stones, Stones[k]);
        if !t {
          return false;
        }
        k := k + 1;
      }
      k := 0;
      while k < |Liberties|
        invariant 0 <= k <= |Liberties|
        invariant forall j :: 0 <= j < k ==> Liberties[j] in c.Liberties
      {
        var _, t := Contains(c.Liberties, Liberties[k]);
        if !t {
          return false;
        }
        k := k + 1;
      }
      return true;
    }

    method AddLiberty(p: Point) returns (err: bool)
      modifies this
      ensures err <==> p in old(Liberties)
      ensures Value() == WithLiberty(old(Value()), p)
    {
      var _, b := Contains(Liberties, p);
      if b {
        return true;
      }
      Liberties := Liberties + [p];
      return false;
    }

    method RemoveLiberty(p: Point) returns (err: bool)
      modifies this
      ensures err <==> p !in old(Liberties)
      ensures Value() == WithoutLiberty(old(Value()), p)
    {
      var i, b := Contains(Liberties, p);
      if !b {
        return true;
      }
      var s, l := Liberties, |Liberties|;
      var last, at := s[l - 1], s[i];
      s := s[l - 1 := at][i := last];
      assert s[..l - 1] == old(Liberties)[i := last][..l - 1];
      Liberties := s[..l - 1];
      return false;
    }

    method MergeIn(mg: StoneGroup) returns (err: bool)
      modifies this
      ensures err <==> old(Color) != old(mg.Color)
      ensures Value() == Merged(old(Value()), old(mg.Value()))
    {
      if Color != mg.Color {
        return true;
      }
      var cs := MergeStones(Stones, mg.Stones);
      var cl := MergeLiberties(Liberties, mg.Liberties, cs);
      Stones := cs;
      Liberties := cl;
      return false;
    }
  }
}
