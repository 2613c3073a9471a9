/**
 * `SinglyLinkedList<T>` and `DoublyLinkedList<T>` of lists.h: cell chains from
 * `head` to `tail` with a `size` counter.  `append` links a new cell after `tail`
 * (or makes it both ends when `head` is null).  `remove(data)` looks for the cell
 * that stores that very element, comparing addresses, not values: removing the
 * head cell only advances `head`, leaving `size` (and, for the doubly linked list,
 * the new head's `prev`) as they were; any other cell found is unlinked and
 * counted off.  The doubly linked list's scan stops before the last cell, so the
 * last element is never removed.
 */
module Lists {
  import opened Nodes

  // ---------------------------------------------------------------------------
  // SinglyLinkedList
  // ---------------------------------------------------------------------------

  /** The contents after the singly linked `remove(x)`: its first occurrence goes. */
  function SinglyRemoved<T(==)>(s: seq<T>, x: T): seq<T>
    requires s != []
  {
    RemoveFirst(s, x)
  }

  /** The `size` after the singly linked `remove(x)`: only a cell behind the head is counted off. */
  function SinglyRemovedSize<T(==)>(s: seq<T>, size: int, x: T): int
    requires s != []
  {
    if s[0] != x && x in s then size - 1 else size
  }

  class SinglyLinkedList<T(==)> {
    var head: Cell?<T>
    var tail: Cell?<T>
    var size: int
    ghost var Contents: seq<T>
    ghost var spine: seq<Cell<T>>
    ghost var Repr: set<object>

    /**
     * The cells from `head` are `spine`, distinct and holding `Contents`, `tail` is
     * the last of them, and `size` never counts fewer than the elements held.
     */
    ghost predicate Valid()
      reads this, Repr
    {
      && this in Repr
      && |spine| == |Contents| <= size
      && DistinctCells(spine)
      && (forall i :: 0 <= i < |spine| ==> spine[i] in Repr && spine[i].data == Contents[i])
      && (forall i :: 0 <= i < |spine| - 1 ==> spine[i].next == spine[i + 1])
      && (head == null <==> spine == [])
      && (spine != [] ==> head == spine[0] && tail == spine[|spine| - 1] && tail.next == null)
    }

    constructor()
      ensures Valid() && fresh(Repr)
      ensures Contents == [] && size == 0 && head == null && tail == null
    {
      head := null;
      tail := null;
      size := 0;
      Contents := [];
      spine := [];
      Repr := {this};
    }

    /** `append(data)`: counts the element and links a new cell holding it at the tail. */
    method Append(x: T)
      requires Valid()
      modifies Repr
      ensures Valid() && fresh(Repr - old(Repr))
      ensures Contents == old(Contents) + [x] && size == old(size) + 1
      ensures old(head) == null ==> head == tail && head != null
      ensures old(head) != null ==> head == old(head) && old(tail).next == tail
    {
      var c := new Cell(x);
      size := size + 1;
      if head == null {
        head := c;
        tail := c;
        spine := [c];
        Contents := [x];
        Repr := Repr + {c};
        return;
      }
      tail.next := c;
      tail := tail.next;
      spine := spine + [c];
      Contents := Contents + [x];
      Repr := Repr + {c};
    }

    /**
     * `remove(data)`: the first cell storing `x` goes.  The head cell is dropped by
     * advancing `head` alone; a later cell is unlinked, `size` drops by one and
     * `tail` moves back when it was that cell.  The source reads `head`
     * unconditionally, so the list must hold an element.
     */
    method Remove(x: T)
      requires Valid() && head != null
      modifies Repr
      ensures Valid() && Repr == old(Repr)
      ensures Contents == SinglyRemoved(old(Contents), x)
      ensures size == SinglyRemovedSize(old(Contents), old(size), x)
      ensures tail == if old(Contents)[0] != x && x in old(Contents) && x !in old(Contents)[..|old(Contents)| - 1]
                      then old(spine)[|old(spine)| - 2] else old(tail)
    {
      if head.data == x {
        head := head.next;
        assert |spine| > 1 ==> spine[0].next == spine[1];
        spine := spine[1..];
        Contents := Contents[1..];
        return;
      }
      var slow, fast := head, head.next;
      ghost var k := 1;
      while fast != null
        invariant Valid() && Contents == old(Contents) && spine == old(spine)
        invariant size == old(size) && tail == old(tail) && Repr == old(Repr)
        invariant 1 <= k <= |spine| && slow == spine[k - 1]
        invariant fast == if k < |spine| then spine[k] else null
        invariant x !in Contents[..k]
        decreases |spine| - k
      {
        if fast.data == x {
          LastAt(Contents, x, k);
          RemoveFirstAt(Contents, x, k);
          Unlink(k, slow, fast);
          return;
        }
        assert Contents[..k + 1] == Contents[..k] + [Contents[k]];
        slow := fast;
        fast := fast.next;
        k := k + 1;
      }
      assert Contents[..k] == Contents;
    }

    /** The step of `remove` that unlinks `fast`, cell `k`, from behind `slow`. */
    method Unlink(ghost k: int, slow: Cell<T>, fast: Cell<T>)
      requires Valid() && 1 <= k < |spine| && slow == spine[k - 1] && fast == spine[k]
      modifies this, slow
      ensures Valid() && Repr == old(Repr)
      ensures Contents == old(Contents)[..k] + old(Contents)[k + 1..] && size == old(size) - 1
      ensures tail == if k == |old(spine)| - 1 then slow else old(tail)
    {
      ghost var s0, c0 := spine, Contents;
      size := size - 1;
      slow.next := fast.next;
      if fast == tail {
        tail := slow;
      }
      spine := spine[..k] + spine[k + 1..];
      Contents := Contents[..k] + Contents[k + 1..];
      UnlinkedChain(s0, k);
      UnlinkedLinks(s0, c0, k);
    }
  }

  /**
   * With cell `k - 1` pointing past cell `k`, the cells left after unlinking `k` are
   * still chained in order and still hold the elements left.
   */
  lemma UnlinkedLinks<T>(s0: seq<Cell<T>>, c0: seq<T>, k: int)
    requires DistinctCells(s0) && 0 < k < |s0| == |c0|
    requires forall i :: 0 <= i < |s0| ==> s0[i].data == c0[i]
    requires forall i :: 0 <= i < |s0| - 1 && i != k - 1 ==> s0[i].next == s0[i + 1]
    requires s0[k - 1].next == if k + 1 < |s0| then s0[k + 1] else null
    ensures var s, c := s0[..k] + s0[k + 1..], c0[..k] + c0[k + 1..];
      && (forall i :: 0 <= i < |s| ==> s[i].data == c[i])
      && (forall i :: 0 <= i < |s| - 1 ==> s[i].next == s[i + 1])
  {
    var s, c := s0[..k] + s0[k + 1..], c0[..k] + c0[k + 1..];
    forall i | 0 <= i < |s| - 1 ensures s[i].next == s[i + 1] {
      if i >= k {
        assert s[i] == s0[i + 1] && s[i + 1] == s0[i + 2];
      }
    }
  }

  /** Unlinking cell `k` keeps the other cells distinct and in chain order. */
  lemma UnlinkedChain<C>(s: seq<C>, k: int)
    requires DistinctCells(s) && 0 < k < |s|
    ensures var s' := s[..k] + s[k + 1..];
      && DistinctCells(s') && |s'| == |s| - 1
      && (forall i :: 0 <= i < k ==> s'[i] == s[i])
      && (forall i :: k <= i < |s'| ==> s'[i] == s[i + 1])
  {
  }

  /** The cell unlinked at `k` was the last exactly when `x` occurs nowhere before the last position. */
  lemma LastAt<T>(c: seq<T>, x: T, k: int)
    requires 0 < k < |c| && c[k] == x && x !in c[..k]
    ensures (k == |c| - 1) <==> (c[|c| - 1] == x && x !in c[..|c| - 1])
  {
    if k < |c| - 1 {
      assert c[k] in c[..|c| - 1];
    }
  }

  // ---------------------------------------------------------------------------
  // DoublyLinkedList
  // ---------------------------------------------------------------------------

  /**
   * The contents after the doubly linked `remove(x)`: the head when it is `x`,
   * else the first `x` before the last position; an `x` only in the last cell stays.
   */
  function DoublyRemoved<T(==)>(s: seq<T>, x: T): seq<T>
    requires s != []
  {
    if s[0] == x then s[1..]
    else if x in s[..|s| - 1] then RemoveFirst(s, x)
    else s
  }

  class DoublyLinkedList<T(==)> {
    var head: DCell?<T>
    var tail: DCell?<T>
    var size: int
    ghost var Contents: seq<T>
    ghost var spine: seq<DCell<T>>
    ghost var Repr: set<object>

    /**
     * The cells from `head` are `spine`, distinct and holding `Contents`, each but
     * the first pointing back at the one before it, `tail` is the last of them, and
     * `size` never counts fewer than the elements held.  The head's `prev` is left
     * free: a head removal does not clear it.
     */
    ghost predicate Valid()
      reads this, Repr
    {
      && this in Repr
      && |spine| == |Contents| <= size
      && DistinctCells(spine)
      && (forall i :: 0 <= i < |spine| ==> spine[i] in Repr && spine[i].data == Contents[i])
      && (forall i :: 0 <= i < |spine| - 1 ==> spine[i].next == spine[i + 1] && spine[i + 1].prev == spine[i])
      && (head == null <==> spine == [])
      && (spine != [] ==> head == spine[0] && tail == spine[|spine| - 1] && tail.next == null)
    }

    constructor()
      ensures Valid() && fresh(Repr)
      ensures Contents == [] && size == 0 && head == null && tail == null
    {
      head := null;
      tail := null;
      size := 0;
      Contents := [];
      spine := [];
      Repr := {this};
    }

    /** `append(data)`: counts the element and links a new cell after the tail, pointing back at it. */
    method Append(x: T)
      requires Valid()
      modifies Repr
      ensures Valid() && fresh(Repr - old(Repr))
      ensures Contents == old(Contents) + [x] && size == old(size) + 1
      ensures old(head) == null ==> head == tail && head != null && head.prev == null
      ensures old(head) != null ==> head == old(head) && tail.prev == old(tail)
    {
      var c := new DCell(x);
      size := size + 1;
      if head == null {
        head := c;
        tail := c;
        spine := [c];
        Contents := [x];
        Repr := Repr + {c};
        return;
      }
      LinkAfterTail(c);
    }

    /** The non-empty case of `append`: `c` is linked after the tail and pointed back at it. */
    method LinkAfterTail(c: DCell<T>)
      requires Valid() && head != null && c !in Repr && c.next == null && |spine| < size
      modifies this, tail, c
      ensures Valid() && Repr == old(Repr) + {c}
      ensures Contents == old(Contents) + [c.data] && spine == old(spine) + [c]
      ensures head == old(head) && tail == c && c.prev == old(tail) && size == old(size)
      ensures c.data == old(c.data)
    {
      ghost var s0 := spine;
      assert forall i :: 0 <= i < |s0| - 1 ==> s0[i] != tail && s0[i] != c;
      tail.next := c;
      c.prev := tail;
      tail := c;
      spine := spine + [c];
      Contents := Contents + [c.data];
      Repr := Repr + {c};
      assert forall i :: 0 <= i < |spine| - 1 ==> spine[i].next == spine[i + 1] && spine[i + 1].prev == spine[i];
    }

    /**
     * `remove(data)`: a head storing `x` is dropped by advancing `head` alone, so
     * `size` and the new head's `prev` stay.  Otherwise the scan runs while the
     * current cell has a successor, so it never looks at the last cell; a cell
     * found is unlinked, its successor pointed back past it, and `size` drops by
     * one.  The source reads `head` and, when the head does not match, its
     * successor, so those must exist.
     */
    method Remove(x: T)
      requires Valid() && head != null && (head.data != x ==> head.next != null)
      modifies Repr
      ensures Valid() && Repr == old(Repr) && tail == old(tail)
      ensures Contents == DoublyRemoved(old(Contents), x)
      ensures size == if old(Contents)[0] != x && x in old(Contents)[..|old(Contents)| - 1]
                      then old(size) - 1 else old(size)
      ensures old(Contents)[0] == x && head != null ==> head.prev == old(head)
    {
      if head.data == x {
        head := head.next;
        assert |spine| > 1 ==> spine[0].next == spine[1];
        spine := spine[1..];
        Contents := Contents[1..];
        return;
      }
      var slow, fast := head, head.next;
      ghost var k := 1;
      assert fast == spine[1];
      while fast.next != null
        invariant Valid() && Contents == old(Contents) && spine == old(spine)
        invariant size == old(size) && tail == old(tail) && Repr == old(Repr)
        invariant 1 <= k < |spine| && slow == spine[k - 1] && fast == spine[k]
        invariant fast.next == if k + 1 < |spine| then spine[k + 1] else null
        invariant x !in Contents[..k]
        decreases |spine| - k
      {
        if fast.data == x {
          RemoveFirstAt(Contents, x, k);
          assert Contents[k] in Contents[..|Contents| - 1];
          Unlink(k, slow, fast);
          return;
        }
        assert Contents[..k + 1] == Contents[..k] + [Contents[k]];
        slow := fast;
        fast := fast.next;
        k := k + 1;
      }
      assert k == |spine| - 1;
    }

    /**
     * The step of `remove` that unlinks `fast`, cell `k`, from between `slow` and
     * its successor.  The scan only reaches a cell with a
     * successor, so the source's branch for a `fast` that is the tail cannot run.
     */
    method Unlink(ghost k: int, slow: DCell<T>, fast: DCell<T>)
      requires Valid() && 1 <= k < |spine| - 1 && slow == spine[k - 1] && fast == spine[k]
      modifies this, slow, spine[k + 1]
      ensures Valid() && Repr == old(Repr) && tail == old(tail)
      ensures Contents == old(Contents)[..k] + old(Contents)[k + 1..] && size == old(size) - 1
    {
      ghost var s0, c0 := spine, Contents;
      size := size - 1;
      Relink(s0, k, slow, fast, tail);
      spine := spine[..k] + spine[k + 1..];
      Contents := Contents[..k] + Contents[k + 1..];
      DoublyUnlinkedLinks(s0, c0, k, Repr);
    }
  }

  /**
   * Points cell `k - 1` of the chain `s` and cell `k + 1` at each other, past cell
   * `k`; no other link and no element changes.
   */
  method Relink<T>(ghost s: seq<DCell<T>>, ghost k: int, slow: DCell<T>, fast: DCell<T>, tail: DCell<T>)
    requires DistinctCells(s) && 0 < k < |s| - 1 && slow == s[k - 1] && fast == s[k] && tail == s[|s| - 1]
    requires forall i :: 0 <= i < |s| - 1 ==> s[i].next == s[i + 1] && s[i + 1].prev == s[i]
    modifies slow, s[k + 1]
    ensures forall i :: 0 <= i < |s| ==> s[i].data == old(s[i].data)
    ensures forall i :: 0 <= i < |s| - 1 && i != k - 1 ==> s[i].next == s[i + 1]
    ensures forall i :: 0 <= i < |s| - 1 && i != k ==> s[i + 1].prev == s[i]
    ensures slow.next == s[k + 1] && s[k + 1].prev == slow && tail.next == old(tail.next)
  {
    slow.next := fast.next;
    if fast == tail {
      assert false;
    } else {
      fast.next.prev := slow;
    }
  }

  /**
   * With cell `k - 1` and cell `k + 1` pointing at each other, the cells left after
   * unlinking `k` are still chained both ways and still hold the elements left.
   */
  lemma DoublyUnlinkedLinks<T>(s0: seq<DCell<T>>, c0: seq<T>, k: int, repr: set<object>)
    requires DistinctCells(s0) && 0 < k < |s0| - 1 && |s0| == |c0|
    requires forall i :: 0 <= i < |s0| ==> s0[i] in repr && s0[i].data == c0[i]
    requires forall i :: 0 <= i < |s0| - 1 && i != k - 1 ==> s0[i].next == s0[i + 1]
    requires forall i :: 0 <= i < |s0| - 1 && i != k ==> s0[i + 1].prev == s0[i]
    requires s0[k - 1].next == s0[k + 1] && s0[k + 1].prev == s0[k - 1]
    ensures var s, c := s0[..k] + s0[k + 1..], c0[..k] + c0[k + 1..];
      && |s| == |c| && DistinctCells(s) && s[0] == s0[0] && s[|s| - 1] == s0[|s0| - 1]
      && (forall i :: 0 <= i < |s| ==> s[i] in repr && s[i].data == c[i])
      && (forall i :: 0 <= i < |s| - 1 ==> s[i].next == s[i + 1] && s[i + 1].prev == s[i])
  {
    UnlinkedChain(s0, k);
    var s, c := s0[..k] + s0[k + 1..], c0[..k] + c0[k + 1..];
    forall i | 0 <= i < |s| - 1 ensures s[i].next == s[i + 1] && s[i + 1].prev == s[i] {
      if i >= k {
        assert s[i] == s0[i + 1] && s[i + 1] == s0[i + 2];
      }
    }
  }

  // ---------------------------------------------------------------------------
  // Laws
  // ---------------------------------------------------------------------------

  /** Appending an element the list does not hold and removing it restores the contents. */
  lemma AppendThenRemove<T>(s: seq<T>, x: T)
    requires x !in s
    ensures SinglyRemoved(s + [x], x) == s
    ensures s != [] ==> DoublyRemoved(s + [x], x) == s + [x]
  {
    RemoveFirstAt(s + [x], x, |s|);
    assert (s + [x])[..|s|] == s;
  }

  /**
   * The singly linked list removes what the doubly linked one does, and more: the
   * two differ exactly when `x` occurs only in the last cell, which the doubly
   * linked scan never looks at.
   */
  lemma RemovalsAgree<T>(s: seq<T>, x: T)
    requires s != []
    ensures DoublyRemoved(s, x) != SinglyRemoved(s, x) <==> s[0] != x && x in s && x !in s[..|s| - 1]
  {
    if s[0] != x && x in s && x !in s[..|s| - 1] {
      assert s[|s| - 1] == x by {
        assert forall i :: 0 <= i < |s| - 1 ==> s[..|s| - 1][i] == s[i];
      }
      RemoveFirstAt(s, x, |s| - 1);
      assert |SinglyRemoved(s, x)| == |s| - 1;
    }
    if s[0] != x && x in s[..|s| - 1] {
      assert x in s by {
        var i :| 0 <= i < |s| - 1 && s[..|s| - 1][i] == x;
        assert s[i] == x;
      }
    }
  }

  /** A list's `size` less its length grows by one with every head removal and is otherwise kept. */
  lemma HeadRemovalLeavesSize<T>(s: seq<T>, size: int, x: T)
    requires s != [] && |s| <= size
    ensures var s', size' := SinglyRemoved(s, x), SinglyRemovedSize(s, size, x);
      size' - |s'| == size - |s| + (if s[0] == x then 1 else 0)
  {
    if s[0] == x {
      assert RemoveFirst(s, x) == s[1..];
    }
  }
}
