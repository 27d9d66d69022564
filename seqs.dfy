/** Sequence facts shared by the slice-based parts of the model. */
module Seqs {

  predicate NoDups<T(==)>(s: seq<T>)
  {
    forall i, j :: 0 <= i < j < |s| ==> s[i] != s[j]
  }

  function Elems<T>(s: seq<T>): set<T>
  {
    set x | x in s
  }

  /** The first position of e in s, or -1: the linear `contains` scans of stones.go and
      gamestate.go. */
  function FirstIndex<T(==)>(s: seq<T>, e: T): (i: int)
    ensures -1 <= i < |s|
    ensures i == -1 <==> e !in s
    ensures 0 <= i ==> s[i] == e && e !in s[..i]
  {
    if s == [] then -1
    else if s[0] == e then 0
    else
      var j := FirstIndex(s[1..], e);
      if j == -1 then -1
      else
        assert s[..j + 1] == [s[0]] + s[1..][..j];
        j + 1
  }

  /** A position holding e with no e before it is the first index. */
  lemma FirstIndexAt<T>(s: seq<T>, e: T, k: nat)
    requires k < |s| && s[k] == e && e !in s[..k]
    ensures FirstIndex(s, e) == k
  {
  }

  lemma {:induction false} CardOfNoDups<T>(s: seq<T>)
    requires NoDups(s)
    ensures |Elems(s)| == |s|
  {
    if s != [] {
      var t := s[..|s| - 1];
      assert s == t + [s[|s| - 1]];
      assert Elems(s) == Elems(t) + {s[|s| - 1]};
      assert s[|s| - 1] !in Elems(t);
      CardOfNoDups(t);
    }
  }

  /** A duplicate-free list that holds every element of another duplicate-free list of the
      same length holds exactly the same elements. */
  lemma SameLengthSubset<T>(a: seq<T>, c: seq<T>)
    requires NoDups(a) && NoDups(c) && |a| == |c|
    requires forall e :: e in a ==> e in c
    ensures Elems(a) == Elems(c)
  {
    CardOfNoDups(a);
    CardOfNoDups(c);
    var A, C := Elems(a), Elems(c);
    assert A <= C;
    assert C == A + (C - A);
    assert |C| == |A| + |C - A|;
  }
}
