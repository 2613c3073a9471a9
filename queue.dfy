/**
 * `Queue<T>` of queue.h: a chain of cells from `head` to `tail`.  `enqueue` links
 * a new cell after `tail`, or makes it both ends when `tail` is null; `dequeue`
 * unlinks the head cell.  Dequeuing the last element leaves `tail` on the cell it
 * just unlinked, so the queue is stranded: later enqueues hang cells off that
 * cell while `head` stays null, and the queue never holds an element again.
 * `size` is never updated from 0.
 */
module Queues {
  import opened Wrappers
  import opened Nodes

  /** What a queue holds, front first, and whether it is stranded (`head` null, `tail` set). */
  datatype QueueView<T> = QueueView(items: seq<T>, stranded: bool)

  /** A view the source can reach: a stranded queue holds nothing. */
  predicate Reachable<T>(v: QueueView<T>) {
    v.stranded ==> v.items == []
  }

  /** The view after `enqueue(x)`: a stranded queue loses `x`. */
  function Enqueued<T>(v: QueueView<T>, x: T): QueueView<T> {
    if v.stranded then v else QueueView(v.items + [x], false)
  }

  /** What `dequeue` returns and the view after it; taking the last element strands the queue. */
  function Dequeued<T>(v: QueueView<T>): (Option<T>, QueueView<T>) {
    if v.items == [] then (None, v)
    else (Some(v.items[0]), QueueView(v.items[1..], |v.items| == 1))
  }

  class Queue<T> {
    var size: int
    var head: Cell?<T>
    var tail: Cell?<T>
    ghost var Contents: seq<T>
    ghost var spine: seq<Cell<T>>
    ghost var Repr: set<object>

    /**
     * The cells from `head` are `spine`, distinct and holding `Contents`, and `tail`
     * is the last of them; with no cells `tail` is null or the cell last unlinked.
     */
    ghost predicate Valid()
      reads this, Repr
    {
      && this in Repr
      && size == 0
      && |spine| == |Contents|
      && DistinctCells(spine)
      && (forall i :: 0 <= i < |spine| ==> spine[i] in Repr && spine[i].data == Contents[i])
      && (forall i :: 0 <= i < |spine| - 1 ==> spine[i].next == spine[i + 1])
      && (head == null <==> spine == [])
      && (spine != [] ==> head == spine[0] && tail == spine[|spine| - 1] && tail.next == null)
      && (tail != null ==> tail in Repr)
    }

    ghost function View(): QueueView<T>
      reads this
    {
      QueueView(Contents, head == null && tail != null)
    }

    constructor()
      ensures Valid() && fresh(Repr)
      ensures View() == QueueView([], false)
    {
      size := 0;
      head := null;
      tail := null;
      Contents := [];
      spine := [];
      Repr := {this};
    }

    /** `enqueue(data)`: a new cell after `tail`, or as both ends when `tail` is null. */
    method Enqueue(x: T)
      requires Valid()
      modifies Repr
      ensures Valid() && fresh(Repr - old(Repr))
      ensures View() == Enqueued(old(View()), x)
      ensures old(tail) == null ==> head == tail && head != null
      ensures old(tail) != null ==> head == old(head) && old(tail).next == tail
    {
      var c := new Cell(x);
      if tail != null {
        tail.next := c;
        tail := c;
        if spine != [] {
          spine := spine + [c];
          Contents := Contents + [x];
        }
        Repr := Repr + {c};
        return;
      }
      head := c;
      tail := c;
      spine := [c];
      Contents := [x];
      Repr := Repr + {c};
    }

    /** `dequeue()`: null on an empty queue, otherwise the head element, with `head` advanced. */
    method Dequeue() returns (r: Option<T>)
      requires Valid()
      modifies this
      ensures Valid() && Repr == old(Repr) && tail == old(tail)
      ensures (r, View()) == Dequeued(old(View()))
    {
      if head == null {
        return None;
      }
      assert |spine| > 1 ==> spine[0].next == spine[1];
      r := Some(head.data);
      head := head.next;
      spine := spine[1..];
      Contents := Contents[1..];
    }
  }

  // ---------------------------------------------------------------------------
  // Laws of the view
  // ---------------------------------------------------------------------------

  /** The view after enqueuing `xs`, first element first. */
  function EnqueueAll<T>(v: QueueView<T>, xs: seq<T>): QueueView<T>
    decreases |xs|
  {
    if xs == [] then v else EnqueueAll(Enqueued(v, xs[0]), xs[1..])
  }

  /** The elements `n` dequeues return, in order (`None` for an empty queue), and the view after them. */
  function DequeueAll<T>(v: QueueView<T>, n: nat): (seq<Option<T>>, QueueView<T>)
    decreases n
  {
    if n == 0 then ([], v)
    else
      var (x, v') := Dequeued(v);
      var (xs, w) := DequeueAll(v', n - 1);
      ([x] + xs, w)
  }

  /** Every view the calls lead to from a reachable one is reachable. */
  lemma ReachableKept<T>(v: QueueView<T>, x: T)
    requires Reachable(v)
    ensures Reachable(Enqueued(v, x)) && Reachable(Dequeued(v).1)
  {
  }

  /** On a queue that is not stranded, enqueuing appends in order. */
  lemma {:induction false} EnqueueAllAppends<T>(v: QueueView<T>, xs: seq<T>)
    requires !v.stranded
    ensures EnqueueAll(v, xs) == QueueView(v.items + xs, false)
    decreases |xs|
  {
    if xs != [] {
      EnqueueAllAppends(Enqueued(v, xs[0]), xs[1..]);
      assert v.items + [xs[0]] + xs[1..] == v.items + xs;
    }
  }

  /** Dequeuing `n` elements returns the front `n`, front first; taking the last strands the queue. */
  lemma {:induction false} DequeueAllShape<T>(v: QueueView<T>, n: nat)
    requires !v.stranded && 0 < n <= |v.items|
    ensures DequeueAll(v, n).0 == seq(n, i requires 0 <= i < n => Some(v.items[i]))
    ensures DequeueAll(v, n).1 == QueueView(v.items[n..], n == |v.items|)
    decreases n
  {
    var (x, v') := Dequeued(v);
    if n > 1 {
      DequeueAllShape(v', n - 1);
    }
  }

  /**
   * FIFO: a fresh queue given `xs` returns them in the order they came, and the
   * dequeue that empties it leaves it stranded.
   */
  lemma FirstInFirstOut<T>(xs: seq<T>)
    requires xs != []
    ensures DequeueAll(EnqueueAll(QueueView([], false), xs), |xs|)
      == (seq(|xs|, i requires 0 <= i < |xs| => Some(xs[i])), QueueView([], true))
  {
    EnqueueAllAppends(QueueView([], false), xs);
    assert [] + xs == xs;
    DequeueAllShape(QueueView(xs, false), |xs|);
    assert xs[|xs|..] == [];
  }

  /** A stranded queue keeps nothing it is given: every later dequeue returns null. */
  lemma {:induction false} StrandedLosesAll<T>(v: QueueView<T>, xs: seq<T>, n: nat)
    requires v.stranded && v.items == []
    ensures EnqueueAll(v, xs) == v
    ensures var (ys, w) := DequeueAll(v, n);
      w == v && |ys| == n && forall i :: 0 <= i < n ==> ys[i] == None
    decreases |xs| + n
  {
    if xs != [] {
      StrandedLosesAll(v, xs[1..], n);
    } else if n > 0 {
      StrandedLosesAll(v, xs, n - 1);
    }
  }
}
