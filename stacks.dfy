/** The last-in-first-out container `Stack` (generic_search.py, lines 6-18). */
module Stacks {
  import opened Sequences

  /** The list after `append(item)`: the new top is the last element. */
  function Pushed<T>(s: seq<T>, item: T): seq<T> {
    s + [item]
  }

  /** What `list.pop()` returns and the list it leaves behind. */
  function Popped<T>(s: seq<T>): (T, seq<T>)
    requires s != []
  {
    (s[|s| - 1], s[..|s| - 1])
  }

  /** The list after pushing every element of `items`, first to last. */
  function PushAll<T>(s: seq<T>, items: seq<T>): (r: seq<T>)
    ensures |r| == |s| + |items|
    decreases |items|
  {
    if items == [] then s else PushAll(Pushed(s, items[0]), items[1..])
  }

  /** `n` successive pops: the popped elements in pop order, and what is left. */
  function PopN<T>(s: seq<T>, n: nat): (r: (seq<T>, seq<T>))
    requires n <= |s|
    ensures |r.0| == n && |r.1| == |s| - n
  {
    if n == 0 then ([], s)
    else
      var (popped, rest) := PopN(s, n - 1);
      var (top, remaining) := Popped(rest);
      (popped + [top], remaining)
  }

  /** A push followed by a pop returns the pushed item and restores the list. */
  lemma PushThenPop<T>(s: seq<T>, item: T)
    ensures Popped(Pushed(s, item)) == (item, s)
  {
  }

  /** `n` pushes followed by `n` pops return the items in reverse push order
      and leave the list as it was before the pushes. */
  lemma {:induction false} PushAllThenPopAll<T>(s: seq<T>, items: seq<T>)
    ensures PopN(PushAll(s, items), |items|) == (Reversed(items), s)
    decreases |items|
  {
    if items != [] {
      var rest := items[1..];
      PushAllThenPopAll(Pushed(s, items[0]), rest);
      assert PushAll(s, items) == PushAll(Pushed(s, items[0]), rest);
      assert Pushed(s, items[0])[..|s|] == s;
    }
  }

  /** A stack whose items live in a list that its methods update in place. */
  class Stack<T> {
    var container: seq<T>

    constructor ()
      ensures container == []
    {
      container := [];
    }

    /** The `empty` property: no item is held. */
    predicate Empty()
      reads this
      ensures Empty() <==> |container| == 0
    {
      container == []
    }

    method Push(item: T)
      modifies this
      ensures container == Pushed(old(container), item)
    {
      container := container + [item];
    }

    /** Python's `list.pop` raises on an empty list, so callers must not pop an empty stack. */
    method Pop() returns (item: T)
      requires !Empty()
      modifies this
      ensures (item, container) == Popped(old(container))
    {
      item := container[|container| - 1];
      container := container[..|container| - 1];
    }
  }
}
