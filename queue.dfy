/** The double-ended queue of src/network/queue_mt.hpp.

    Every operation of the source holds one mutex for its whole duration, so
    each one is modelled as a single atomic step on the sequence `contents`
    (the `std::deque`); the mutex itself is not modelled. As in the source,
    `front`, `back`, `pop_front` and `pop_back` demand a non-empty queue of
    their callers. */
module Queues {

  class Queue<T> {
    /** The elements, front first. */
    var contents: seq<T>

    constructor ()
      ensures contents == []
    {
      contents := [];
    }

    /** First element in the queue. */
    method Front() returns (t: T)
      requires |contents| > 0
      ensures t == contents[0]
    {
      t := contents[0];
    }

    /** Last element in the queue. */
    method Back() returns (t: T)
      requires |contents| > 0
      ensures t == contents[|contents| - 1]
    {
      t := contents[|contents| - 1];
    }

    /** Adds an element at the end of the queue. */
    method PushBack(t: T)
      modifies this
      ensures contents == old(contents) + [t]
    {
      contents := contents + [t];
    }

    /** Adds an element at the start of the queue. */
    method PushFront(t: T)
      modifies this
      ensures contents == [t] + old(contents)
    {
      contents := [t] + contents;
    }

    /** Removes and returns the first element. */
    method PopFront() returns (t: T)
      requires |contents| > 0
      modifies this
      ensures t == old(contents)[0] && contents == old(contents)[1..]
    {
      t := contents[0];
      contents := contents[1..];
    }

    /** Removes and returns the last element. */
    method PopBack() returns (t: T)
      requires |contents| > 0
      modifies this
      ensures t == old(contents)[|old(contents)| - 1]
      ensures contents == old(contents)[..|old(contents)| - 1]
    {
      t := contents[|contents| - 1];
      contents := contents[..|contents| - 1];
    }

    /** Empties the queue. */
    method Clear()
      modifies this
      ensures contents == []
    {
      contents := [];
    }

    /** Number of elements in the queue. */
    method Size() returns (n: nat)
      ensures n == |contents|
    {
      n := |contents|;
    }

    /** Whether the queue is empty: `size() == 0`. */
    method Empty() returns (b: bool)
      ensures b <==> |contents| == 0
    {
      var n := Size();
      b := n == 0;
    }
  }

  /** First in, first out: every element pushed with PushBack onto a fresh
      queue comes out of PopFront in the order it was pushed. */
  method FirstInFirstOut<T>(xs: seq<T>) returns (ys: seq<T>)
    ensures ys == xs
  {
    var q := new Queue<T>();
    var i := 0;
    while i < |xs|
      invariant i <= |xs|
      invariant q.contents == xs[..i]
    {
      q.PushBack(xs[i]);
      i := i + 1;
    }
    ys := [];
    var empty := q.Empty();
    while !empty
      invariant ys + q.contents == xs
      invariant empty <==> q.contents == []
      decreases |q.contents|
    {
      var t := q.PopFront();
      ys := ys + [t];
      empty := q.Empty();
    }
  }
}
