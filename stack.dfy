/**
 * `Stack<T>` of stack.h: a chain of cells hanging from `top` and a `size` counter.
 * `push` allocates a cell in front of `top` and counts it; `pop` unlinks the top
 * cell and returns its element, but leaves `size` as it was, so `size` counts the
 * pushes ever made rather than the elements held.
 */
module Stacks {
  import opened Nodes
  import opened Sequences

  /** What a stack holds, top first, and its `size` counter. */
  datatype StackView<T> = StackView(items: seq<T>, size: int)

  /** The view after `push(x)`. */
  function Pushed<T>(v: StackView<T>, x: T): StackView<T> {
    StackView([x] + v.items, v.size + 1)
  }

  /** The element `pop` returns and the view after it; the source needs a top cell. */
  function Popped<T>(v: StackView<T>): (T, StackView<T>)
    requires v.items != []
  {
    (v.items[0], StackView(v.items[1..], v.size))
  }

  class Stack<T> {
    var size: int
    var top: Cell?<T>
    ghost var Contents: seq<T>
    ghost var spine: seq<Cell<T>>
    ghost var Repr: set<object>

    /** The cells from `top` are `spine`, they hold `Contents`, and the last one ends the chain. */
    ghost predicate Valid()
      reads this, Repr
    {
      && this in Repr
      && |spine| == |Contents|
      && (forall i :: 0 <= i < |spine| ==> spine[i] in Repr && spine[i].data == Contents[i])
      && (top == null <==> spine == [])
      && (spine != [] ==> top == spine[0] && spine[|spine| - 1].next == null)
      && (forall i :: 0 <= i < |spine| - 1 ==> spine[i].next == spine[i + 1])
    }

    ghost function View(): StackView<T>
      reads this
    {
      StackView(Contents, size)
    }

    constructor()
      ensures Valid() && fresh(Repr)
      ensures View() == StackView([], 0)
    {
      size := 0;
      top := null;
      Contents := [];
      spine := [];
      Repr := {this};
    }

    /** `push(data)`: counts the element and puts a new cell holding it on top. */
    method Push(x: T)
      requires Valid()
      modifies this
      ensures Valid() && fresh(Repr - old(Repr))
      ensures View() == Pushed(old(View()), x)
    {
      size := size + 1;
      var c := new Cell(x);
      if top == null {
        top := c;
      } else {
        c.next := top;
        top := c;
      }
      spine := [c] + spine;
      Contents := [x] + Contents;
      Repr := Repr + {c};
    }

    /**
     * `pop()`: returns the element of the top cell and unlinks it; `size` is not
     * decremented.  The source reads `top` unconditionally, so the stack must hold
     * an element.
     */
    method Pop() returns (x: T)
      requires Valid() && top != null
      modifies this
      ensures Valid() && Repr == old(Repr)
      ensures old(View()).items != [] && (x, View()) == Popped(old(View()))
    {
      assert |spine| > 1 ==> spine[0].next == spine[1];
      x := top.data;
      top := top.next;
      spine := spine[1..];
      Contents := Contents[1..];
    }
  }

  // ---------------------------------------------------------------------------
  // Laws of the view
  // ---------------------------------------------------------------------------

  /** The view after pushing `xs`, first element first. */
  function PushAll<T>(v: StackView<T>, xs: seq<T>): StackView<T>
    decreases |xs|
  {
    if xs == [] then v else PushAll(Pushed(v, xs[0]), xs[1..])
  }

  /** The elements `n` pops return, in order, and the view after them. */
  function PopAll<T>(v: StackView<T>, n: nat): (seq<T>, StackView<T>)
    requires n <= |v.items|
    decreases n
  {
    if n == 0 then ([], v)
    else
      var (x, v') := Popped(v);
      var (xs, w) := PopAll(v', n - 1);
      ([x] + xs, w)
  }

  /** Pushing `xs` puts them on top, last pushed first, and counts each of them. */
  lemma {:induction false} PushAllShape<T>(v: StackView<T>, xs: seq<T>)
    ensures PushAll(v, xs) == StackView(Reversed(xs) + v.items, v.size + |xs|)
    decreases |xs|
  {
    if xs != [] {
      PushAllShape(Pushed(v, xs[0]), xs[1..]);
      assert Reversed(xs) == Reversed(xs[1..]) + [xs[0]];
    }
  }

  /** Popping `n` elements returns the top `n`, top first, and keeps `size`. */
  lemma {:induction false} PopAllShape<T>(v: StackView<T>, n: nat)
    requires n <= |v.items|
    ensures PopAll(v, n) == (v.items[..n], StackView(v.items[n..], v.size))
    decreases n
  {
    if n > 0 {
      var (x, v') := Popped(v);
      PopAllShape(v', n - 1);
      assert v.items[..n] == [x] + v'.items[..n - 1];
      assert v'.items[n - 1..] == v.items[n..];
    }
  }

  /**
   * LIFO: popping as many elements as were pushed returns them in reverse order
   * and restores the elements below, while `size` keeps every push.
   */
  lemma LastInFirstOut<T>(v: StackView<T>, xs: seq<T>)
    ensures |xs| <= |PushAll(v, xs).items|
    ensures PopAll(PushAll(v, xs), |xs|) == (Reversed(xs), StackView(v.items, v.size + |xs|))
  {
    PushAllShape(v, xs);
    var w := PushAll(v, xs);
    PopAllShape(w, |xs|);
    assert w.items[..|xs|] == Reversed(xs);
    assert w.items[|xs|..] == v.items;
  }

  /** A call on a stack: `push(x)` or `pop()`. */
  datatype StackOp<T> = PushOp(x: T) | PopOp

  /** The view after the calls `ops`, or nothing once a `pop` meets an empty stack. */
  function Replay<T>(v: StackView<T>, ops: seq<StackOp<T>>): StackView<T>
    decreases |ops|
  {
    if ops == [] then v
    else match ops[0]
      case PushOp(x) => Replay(Pushed(v, x), ops[1..])
      case PopOp => if v.items == [] then v else Replay(Popped(v).1, ops[1..])
  }

  /** Every `pop` in `ops` meets a non-empty stack. */
  predicate PopsSafe<T>(v: StackView<T>, ops: seq<StackOp<T>>)
    decreases |ops|
  {
    ops == [] ||
    match ops[0]
      case PushOp(x) => PopsSafe(Pushed(v, x), ops[1..])
      case PopOp => v.items != [] && PopsSafe(Popped(v).1, ops[1..])
  }

  /** The number of `pop` calls in `ops`. */
  function CountPops<T>(ops: seq<StackOp<T>>): (n: nat)
    ensures n <= |ops|
  {
    if ops == [] then 0 else (if ops[0].PopOp? then 1 else 0) + CountPops(ops[1..])
  }

  /**
   * `size` counts every `push` and ignores every `pop`, so after any calls it
   * exceeds the number of elements held by the number of pops (plus the excess
   * it started with).
   */
  lemma {:induction false} SizeCountsPushes<T>(v: StackView<T>, ops: seq<StackOp<T>>)
    requires PopsSafe(v, ops)
    ensures Replay(v, ops).size == v.size + |ops| - CountPops(ops)
    ensures |Replay(v, ops).items| == |v.items| + |ops| - 2 * CountPops(ops)
    decreases |ops|
  {
    if ops != [] {
      match ops[0]
      case PushOp(x) => SizeCountsPushes(Pushed(v, x), ops[1..]);
      case PopOp => SizeCountsPushes(Popped(v).1, ops[1..]);
    }
  }
}
