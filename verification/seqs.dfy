/** Sequence operations that stand in for the JavaScript `Array` and `Set` methods the source calls. */
module Seqs {

  /** No element occurs twice: a JavaScript `Set` kept as its iteration (insertion) order. */
  predicate NoDup<T(==)>(s: seq<T>)
  {
    forall i, j :: 0 <= i < j < |s| ==> s[i] != s[j]
  }

  /** The elements of a sequence. */
  function Elems<T>(s: seq<T>): set<T>
  {
    set x | x in s
  }

  lemma ElemsEmpty<T>(s: seq<T>)
    ensures Elems(s) == {} <==> s == []
  {
    if s != [] {
      assert s[0] in Elems(s);
    }
  }

  /** `Array.prototype.indexOf`: the first position holding `x`, or -1. */
  function IndexOf<T(==)>(s: seq<T>, x: T): (i: int)
    ensures -1 <= i < |s|
    ensures i == -1 <==> x !in s
    ensures 0 <= i ==> s[i] == x && x !in s[..i]
  {
    if s == [] then -1
    else if s[0] == x then 0
    else
      var j := IndexOf(s[1..], x);
      if j < 0 then -1
      else
        assert s[..j + 1] == [s[0]] + s[1..][..j];
        j + 1
  }

  /**
   * `splice(indexOf(x), 1)` guarded by `index > -1`, and `Set.prototype.delete`:
   * the first occurrence of `x` is dropped, everything else keeps its place.
   */
  function RemoveFirst<T(==)>(s: seq<T>, x: T): (r: seq<T>)
    ensures x !in s ==> r == s
    ensures x in s ==> |r| == |s| - 1
    ensures x in s ==> exists i :: 0 <= i < |s| && s[i] == x && x !in s[..i] && r == s[..i] + s[i + 1..]
  {
    var i := IndexOf(s, x);
    if i < 0 then s
    else
      assert s == s[..i] + [s[i]] + s[i + 1..];
      s[..i] + s[i + 1..]
  }

  /** `Set.prototype.add`: a new element goes to the end of the iteration order, an old one stays put. */
  function SetAdd<T(==)>(s: seq<T>, x: T): (r: seq<T>)
  {
    if x in s then s else s + [x]
  }

  lemma SetAddKeepsSet<T>(s: seq<T>, x: T)
    requires NoDup(s)
    ensures NoDup(SetAdd(s, x))
    ensures Elems(SetAdd(s, x)) == Elems(s) + {x}
    ensures |SetAdd(s, x)| == if x in s then |s| else |s| + 1
  {
  }

  /** Dropping position `i` from a duplicate-free sequence drops exactly its element. */
  lemma DropAtKeepsSet<T>(s: seq<T>, i: nat)
    requires NoDup(s) && i < |s|
    ensures NoDup(s[..i] + s[i + 1..])
    ensures Elems(s[..i] + s[i + 1..]) == Elems(s) - {s[i]}
  {
    var r := s[..i] + s[i + 1..];
    assert forall a :: 0 <= a < |r| ==> r[a] == s[if a < i then a else a + 1];
    forall y | y in s && y != s[i] ensures y in r {
      var k :| 0 <= k < |s| && s[k] == y;
      assert r[if k < i then k else k - 1] == y;
    }
  }

  /** On a duplicate-free sequence, removing the first occurrence removes the element altogether. */
  lemma RemoveFirstKeepsSet<T>(s: seq<T>, x: T)
    requires NoDup(s)
    ensures NoDup(RemoveFirst(s, x))
    ensures Elems(RemoveFirst(s, x)) == Elems(s) - {x}
  {
    var i := IndexOf(s, x);
    if 0 <= i {
      DropAtKeepsSet(s, i);
    }
  }

  /** Appending a new element and then removing it gives back the original sequence. */
  lemma RemoveFirstUndoesAppend<T>(s: seq<T>, x: T)
    requires x !in s
    ensures RemoveFirst(s + [x], x) == s
  {
    assert IndexOf(s + [x], x) == |s|;
    assert (s + [x])[..|s|] == s;
  }
}
