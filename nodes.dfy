/**
 * The link cells of nodes.h: `Node<T>` holds a stored element and the next cell,
 * `DNode<T>` also the previous one.  The source stores a pointer to the element,
 * so a value of `T` here stands for that pointer: two cells hold the same element
 * exactly when they point at the same object.
 */
module Nodes {

  class Cell<T> {
    var data: T
    var next: Cell?<T>

    constructor(data: T)
      ensures this.data == data && next == null
    {
      this.data := data;
      next := null;
    }
  }

  class DCell<T> {
    var data: T
    var next: DCell?<T>
    var prev: DCell?<T>

    constructor(data: T)
      ensures this.data == data && next == null && prev == null
    {
      this.data := data;
      next := null;
      prev := null;
    }
  }

  /** No cell occurs twice in `s`. */
  ghost predicate DistinctCells<C>(s: seq<C>) {
    forall i, j :: 0 <= i < j < |s| ==> s[i] != s[j]
  }

  /** `s` without its first occurrence of `x`; `s` itself when there is none. */
  function RemoveFirst<T(==)>(s: seq<T>, x: T): (r: seq<T>)
    ensures x in s ==> |r| == |s| - 1
    ensures x !in s ==> r == s
  {
    if s == [] then []
    else if s[0] == x then s[1..]
    else
      assert x in s ==> x in s[1..];
      [s[0]] + RemoveFirst(s[1..], x)
  }

  /** Removing the first `x` takes exactly one `x` out of the multiset of `s`, if there is one. */
  lemma {:induction false} RemoveFirstCounts<T>(s: seq<T>, x: T)
    ensures multiset(RemoveFirst(s, x)) == multiset(s) - multiset{x}
  {
    if s != [] {
      if s[0] == x {
        assert s == [x] + s[1..];
      } else {
        assert s == [s[0]] + s[1..];
        RemoveFirstCounts(s[1..], x);
      }
    }
  }

  /** Removing the first `x` cuts `s` at the first position holding `x`. */
  lemma {:induction false} RemoveFirstAt<T>(s: seq<T>, x: T, k: int)
    requires 0 <= k < |s| && s[k] == x && x !in s[..k]
    ensures RemoveFirst(s, x) == s[..k] + s[k + 1..]
  {
    if k == 0 {
      assert s[..0] + s[1..] == s[1..];
    } else {
      var t := s[1..];
      assert s[0] != x by { assert s[0] == s[..k][0]; }
      assert t[..k - 1] == s[..k][1..];
      assert x !in t[..k - 1];
      RemoveFirstAt(t, x, k - 1);
      assert [s[0]] + t[..k - 1] == s[..k];
      assert t[k..] == s[k + 1..];
    }
  }
}
