/** Depth-first search `dfs` (generic_search.py, lines 58-72): a reference
    definition of one run (`Expand`, `Run`, `Search`), the imperative search
    over the `Stack` class proved equal to it, and what a run guarantees. */
module DepthFirst {
  import opened Wrappers
  import opened Sequences
  import opened Stacks
  import opened SearchNodes

  /** Every successor of a state in `S` is in `S`. */
  ghost predicate ClosedUnder<T>(S: set<T>, successors: T -> seq<T>) {
    forall s, c :: s in S && c in successors(s) ==> c in S
  }

  /** Each state of `p` after the first is a successor of the one before it. */
  ghost predicate IsWalk<T>(p: seq<T>, successors: T -> seq<T>) {
    forall i :: 0 <= i < |p| - 1 ==> p[i + 1] in successors(p[i])
  }

  /** Every node on the frontier wraps an explored state. */
  ghost predicate FrontierIn<T>(frontier: seq<Node<T>>, explored: set<T>) {
    forall k :: 0 <= k < |frontier| ==> frontier[k].state in explored
  }

  /** Some node on the frontier wraps `s`. */
  ghost predicate OnFrontier<T>(s: T, frontier: seq<Node<T>>) {
    exists k :: 0 <= k < |frontier| && frontier[k].state == s
  }

  /** `s` has been expanded: it failed the goal test and all its successors are explored. */
  ghost predicate Settled<T>(s: T, explored: set<T>, goalTest: T -> bool, successors: T -> seq<T>) {
    !goalTest(s) && forall c :: c in successors(s) ==> c in explored
  }

  /** `n` was built by the search: its root wraps `initial` and each node's
      state is a successor of its parent's state. */
  ghost predicate FromInitial<T>(n: Node<T>, initial: T, successors: T -> seq<T>)
    decreases n
  {
    match n.parent
    case None => n.state == initial
    case Some(p) => n.state in successors(p.state) && FromInitial(p, initial, successors)
  }

  /** `n` was built by the search, its path repeats no state and lies in `explored`. */
  ghost predicate Discovered<T>(n: Node<T>, initial: T, successors: T -> seq<T>, explored: set<T>) {
    && FromInitial(n, initial, successors)
    && Distinct(PathOf(n))
    && forall s :: s in PathOf(n) ==> s in explored
  }

  /** The `for child in successors(...)` loop of one expansion: every child not yet
      explored is added to `explored` and pushed, wrapped in a node whose parent is `parent`. */
  function Expand<T(==)>(children: seq<T>, parent: Node<T>, frontier: seq<Node<T>>, explored: set<T>)
    : (res: (seq<Node<T>>, set<T>))
    decreases |children|
  {
    if children == [] then (frontier, explored)
    else
      var (f, e) := Expand(children[..|children| - 1], parent, frontier, explored);
      var child := children[|children| - 1];
      if child in e then (f, e) else (f + [Node(child, Some(parent))], e + {child})
  }

  /** What one expansion does to the frontier: the nodes below the old top stay
      where they are; each pushed node wraps a previously unexplored child of
      `parent`; no state is pushed twice; every unexplored child is pushed. */
  lemma {:induction false} ExpandPushes<T>(children: seq<T>, parent: Node<T>, frontier: seq<Node<T>>, explored: set<T>)
    ensures var (f, e) := Expand(children, parent, frontier, explored);
      && |frontier| <= |f| && f[..|frontier|] == frontier
      && (forall k :: |frontier| <= k < |f| ==>
            f[k].parent == Some(parent) && f[k].state in children && f[k].state !in explored)
      && (forall k, l :: |frontier| <= k < l < |f| ==> f[k].state != f[l].state)
      && (forall c :: c in children && c !in explored ==> exists k :: |frontier| <= k < |f| && f[k].state == c)
    decreases |children|
  {
    if children != [] {
      var earlier := children[..|children| - 1];
      var child := children[|children| - 1];
      assert children == earlier + [child];
      ExpandPushes(earlier, parent, frontier, explored);
      ExpandExplores(earlier, parent, frontier, explored);
      var (f, e) := Expand(earlier, parent, frontier, explored);
      if child !in e {
        var f' := f + [Node(child, Some(parent))];
        assert f'[..|frontier|] == f[..|frontier|];
        assert f'[|f|].state == child;
        forall c | c in children && c !in explored
          ensures exists k :: |frontier| <= k < |f'| && f'[k].state == c
        {
          if c != child {
            assert c in earlier;
            var k :| |frontier| <= k < |f| && f[k].state == c;
            assert f'[k] == f[k];
          }
        }
      }
    }
  }

  /** What one expansion does to the explored set: it only grows, afterwards it
      holds every child, and it gains exactly one state per pushed node. */
  lemma {:induction false} ExpandExplores<T>(children: seq<T>, parent: Node<T>, frontier: seq<Node<T>>, explored: set<T>)
    ensures var (f, e) := Expand(children, parent, frontier, explored);
      && e == explored + (set c | c in children)
      && |frontier| <= |f|
      && |f| - |frontier| == |e - explored|
    decreases |children|
  {
    if children == [] {
      assert (set c | c in children) == {};
    } else {
      var earlier := children[..|children| - 1];
      var child := children[|children| - 1];
      assert children == earlier + [child];
      assert (set c | c in children) == (set c | c in earlier) + {child};
      ExpandExplores(earlier, parent, frontier, explored);
      var (f, e) := Expand(earlier, parent, frontier, explored);
      if child !in e {
        assert (e + {child}) - explored == (e - explored) + {child};
      }
    }
  }

  /** A subset is no larger than its superset. */
  lemma {:induction false} SubsetNoLarger<T>(small: set<T>, large: set<T>)
    requires small <= large
    ensures |small| <= |large|
    decreases |small|
  {
    if small != {} {
      var x :| x in small;
      SubsetNoLarger(small - {x}, large - {x});
    }
  }

  /** Growing `small` to `large` inside `universe` either changes nothing or
      leaves fewer unexplored states. */
  lemma FewerUnexplored<T>(universe: set<T>, small: set<T>, large: set<T>)
    requires small <= large <= universe
    ensures small == large || |universe - large| < |universe - small|
  {
    if small != large {
      var x :| x in large && x !in small;
      SubsetNoLarger(universe - large, (universe - small) - {x});
    }
  }

  /** The facts about one expansion that keep a run well defined and terminating. */
  lemma ExpandStep<T>(children: seq<T>, parent: Node<T>, frontier: seq<Node<T>>, explored: set<T>, universe: set<T>)
    requires explored <= universe && FrontierIn(frontier, explored)
    requires forall c :: c in children ==> c in universe
    ensures var (f, e) := Expand(children, parent, frontier, explored);
      && explored <= e <= universe
      && FrontierIn(f, e)
      && (explored == e ==> |f| == |frontier|)
      && (explored == e || |universe - e| < |universe - explored|)
  {
  }

  /** The rest of a search from a given frontier and explored set: the node it
      returns (if any) and the explored set at that point. */
  ghost function Run<T>(frontier: seq<Node<T>>, explored: set<T>, goalTest: T -> bool,
                            successors: T -> seq<T>, universe: set<T>)
    : (res: (Option<Node<T>>, set<T>))
    requires ClosedUnder(universe, successors)
    requires explored <= universe && FrontierIn(frontier, explored)
    ensures explored <= res.1 <= universe
    ensures res.0.Some? ==> goalTest(res.0.value.state)
    decreases |universe - explored|, |frontier|
  {
    if frontier == [] then (None, explored)
    else
      var current := frontier[|frontier| - 1];
      if goalTest(current.state) then (Some(current), explored)
      else
        var (f, e) := Expand(successors(current.state), current, frontier[..|frontier| - 1], explored);
        ExpandStep(successors(current.state), current, frontier[..|frontier| - 1], explored, universe);
        Run(f, e, goalTest, successors, universe)
  }

  /** A whole search: the frontier holds the root node for `initial`, and
      `initial` is the only explored state. */
  ghost function Search<T>(initial: T, goalTest: T -> bool, successors: T -> seq<T>, universe: set<T>)
    : (Option<Node<T>>, set<T>)
    requires initial in universe && ClosedUnder(universe, successors)
  {
    Run([Node(initial, None)], {initial}, goalTest, successors, universe)
  }

  /** A node built by the search stays discovered as `explored` grows. */
  lemma DiscoveredGrows<T>(n: Node<T>, initial: T, successors: T -> seq<T>, explored: set<T>, more: set<T>)
    requires Discovered(n, initial, successors, explored) && explored <= more
    ensures Discovered(n, initial, successors, more)
  {
  }

  /** The node the expansion pushes for an unexplored successor `c` of a
      discovered node is itself discovered. */
  lemma ChildDiscovered<T>(parent: Node<T>, c: T, initial: T, successors: T -> seq<T>, explored: set<T>, more: set<T>)
    requires Discovered(parent, initial, successors, explored)
    requires c in successors(parent.state) && c !in explored
    requires explored <= more && c in more
    ensures Discovered(Node(c, Some(parent)), initial, successors, more)
  {
  }

  /** Expanding a discovered node keeps every frontier node discovered. */
  lemma ExpandKeepsDiscovered<T>(frontier: seq<Node<T>>, explored: set<T>, initial: T,
                                 successors: T -> seq<T>, universe: set<T>)
    requires ClosedUnder(universe, successors)
    requires explored <= universe && FrontierIn(frontier, explored) && frontier != []
    requires forall k :: 0 <= k < |frontier| ==> Discovered(frontier[k], initial, successors, explored)
    ensures var current := frontier[|frontier| - 1];
      var (f, e) := Expand(successors(current.state), current, frontier[..|frontier| - 1], explored);
      forall k :: 0 <= k < |f| ==> Discovered(f[k], initial, successors, e)
  {
    var current := frontier[|frontier| - 1];
    var rest := frontier[..|frontier| - 1];
    var (f, e) := Expand(successors(current.state), current, rest, explored);
    ExpandStep(successors(current.state), current, rest, explored, universe);
    ExpandPushes(successors(current.state), current, rest, explored);
    forall k | 0 <= k < |f|
      ensures Discovered(f[k], initial, successors, e)
    {
      if k < |rest| {
        assert f[k] == frontier[k];
        DiscoveredGrows(f[k], initial, successors, explored, e);
      } else {
        assert f[k] == Node(f[k].state, Some(current));
        ChildDiscovered(current, f[k].state, initial, successors, explored, e);
      }
    }
  }

  /** Every node a run returns was built by the search from `initial`. */
  lemma {:induction false} RunReturnsDiscovered<T>(frontier: seq<Node<T>>, explored: set<T>, initial: T,
                                                   goalTest: T -> bool, successors: T -> seq<T>, universe: set<T>)
    requires ClosedUnder(universe, successors)
    requires explored <= universe && FrontierIn(frontier, explored)
    requires forall k :: 0 <= k < |frontier| ==> Discovered(frontier[k], initial, successors, explored)
    ensures var res := Run(frontier, explored, goalTest, successors, universe);
      res.0.Some? ==> Discovered(res.0.value, initial, successors, res.1)
    decreases |universe - explored|, |frontier|
  {
    if frontier != [] {
      var current := frontier[|frontier| - 1];
      if !goalTest(current.state) {
        var rest := frontier[..|frontier| - 1];
        var (f, e) := Expand(successors(current.state), current, rest, explored);
        ExpandStep(successors(current.state), current, rest, explored, universe);
        ExpandKeepsDiscovered(frontier, explored, initial, successors, universe);
        RunReturnsDiscovered(f, e, initial, goalTest, successors, universe);
      }
    }
  }

  /** Every explored state is still on the frontier or has been expanded. */
  ghost predicate Accounted<T>(frontier: seq<Node<T>>, explored: set<T>, goalTest: T -> bool, successors: T -> seq<T>) {
    forall s :: s in explored ==> OnFrontier(s, frontier) || Settled(s, explored, goalTest, successors)
  }

  /** After an expansion, a state that was explored before is still on the
      frontier or has been expanded: the popped state now is. */
  lemma OldStateAccounted<T>(s: T, frontier: seq<Node<T>>, explored: set<T>, f: seq<Node<T>>, e: set<T>,
                             goalTest: T -> bool, successors: T -> seq<T>)
    requires frontier != [] && !goalTest(frontier[|frontier| - 1].state)
    requires |frontier| - 1 <= |f| && f[..|frontier| - 1] == frontier[..|frontier| - 1]
    requires explored <= e
    requires forall c :: c in successors(frontier[|frontier| - 1].state) ==> c in e
    requires s in explored && (OnFrontier(s, frontier) || Settled(s, explored, goalTest, successors))
    ensures OnFrontier(s, f) || Settled(s, e, goalTest, successors)
  {
  }

  /** Popping a node that fails the goal test and expanding it keeps every
      explored state accounted for. */
  lemma ExpandKeepsAccounted<T>(frontier: seq<Node<T>>, explored: set<T>, goalTest: T -> bool,
                                successors: T -> seq<T>, universe: set<T>)
    requires ClosedUnder(universe, successors)
    requires explored <= universe && FrontierIn(frontier, explored) && frontier != []
    requires !goalTest(frontier[|frontier| - 1].state)
    requires Accounted(frontier, explored, goalTest, successors)
    ensures var current := frontier[|frontier| - 1];
      var (f, e) := Expand(successors(current.state), current, frontier[..|frontier| - 1], explored);
      Accounted(f, e, goalTest, successors)
  {
    var current := frontier[|frontier| - 1];
    var rest := frontier[..|frontier| - 1];
    var children := successors(current.state);
    var (f, e) := Expand(children, current, rest, explored);
    ExpandPushes(children, current, rest, explored);
    ExpandExplores(children, current, rest, explored);
    forall s | s in e
      ensures OnFrontier(s, f) || Settled(s, e, goalTest, successors)
    {
      if s in explored {
        OldStateAccounted(s, frontier, explored, f, e, goalTest, successors);
      } else {
        assert s in children;
      }
    }
  }

  /** A run that returns nothing has explored a set closed under `successors`
      in which no state passes the goal test. */
  lemma {:induction false} RunExhausts<T>(frontier: seq<Node<T>>, explored: set<T>,
                                          goalTest: T -> bool, successors: T -> seq<T>, universe: set<T>)
    requires ClosedUnder(universe, successors)
    requires explored <= universe && FrontierIn(frontier, explored)
    requires Accounted(frontier, explored, goalTest, successors)
    ensures var res := Run(frontier, explored, goalTest, successors, universe);
      res.0.None? ==> ClosedUnder(res.1, successors) && forall s :: s in res.1 ==> !goalTest(s)
    decreases |universe - explored|, |frontier|
  {
    if frontier == [] {
      assert forall s :: !OnFrontier(s, frontier);
    } else {
      var current := frontier[|frontier| - 1];
      if !goalTest(current.state) {
        var rest := frontier[..|frontier| - 1];
        var (f, e) := Expand(successors(current.state), current, rest, explored);
        ExpandStep(successors(current.state), current, rest, explored, universe);
        ExpandKeepsAccounted(frontier, explored, goalTest, successors, universe);
        RunExhausts(f, e, goalTest, successors, universe);
      }
    }
  }

  /** Every state of a walk that starts in a set closed under `successors` stays in it. */
  lemma {:induction false} WalkStaysIn<T>(S: set<T>, successors: T -> seq<T>, p: seq<T>, i: nat)
    requires ClosedUnder(S, successors) && IsWalk(p, successors)
    requires 0 < |p| && p[0] in S && i < |p|
    ensures p[i] in S
  {
    if i > 0 {
      WalkStaysIn(S, successors, p, i - 1);
    }
  }

  /** The path of a node built by the search starts at `initial` and follows successor edges. */
  lemma {:induction false} FromInitialPath<T>(n: Node<T>, initial: T, successors: T -> seq<T>)
    requires FromInitial(n, initial, successors)
    ensures PathOf(n)[0] == initial && IsWalk(PathOf(n), successors)
    decreases n
  {
    match n.parent
    case None =>
    case Some(q) =>
      FromInitialPath(q, initial, successors);
      assert PathOf(n) == PathOf(q) + [n.state];
  }

  /** Soundness: a node found by the search passes the goal test, and its path
      starts at `initial`, follows successor edges, repeats no state and ends at it. */
  lemma SearchSound<T>(initial: T, goalTest: T -> bool, successors: T -> seq<T>, universe: set<T>)
    requires initial in universe && ClosedUnder(universe, successors)
    ensures var r := Search(initial, goalTest, successors, universe).0;
      r.Some? ==>
        && goalTest(r.value.state)
        && PathOf(r.value)[0] == initial
        && IsWalk(PathOf(r.value), successors)
        && Distinct(PathOf(r.value))
  {
    var root := Node(initial, None);
    assert Discovered(root, initial, successors, {initial});
    RunReturnsDiscovered([root], {initial}, initial, goalTest, successors, universe);
    var r := Search(initial, goalTest, successors, universe).0;
    if r.Some? {
      FromInitialPath(r.value, initial, successors);
    }
  }

  /** Completeness: a search that finds nothing has explored every state reachable
      from `initial`, and none of them passes the goal test. */
  lemma SearchComplete<T>(initial: T, goalTest: T -> bool, successors: T -> seq<T>, universe: set<T>)
    requires initial in universe && ClosedUnder(universe, successors)
    ensures Search(initial, goalTest, successors, universe).0.None? ==>
      forall p :: IsWalk(p, successors) && 0 < |p| && p[0] == initial ==>
        p[|p| - 1] in Search(initial, goalTest, successors, universe).1 && !goalTest(p[|p| - 1])
  {
    var root := Node(initial, None);
    assert [root][0].state == initial;
    RunExhausts([root], {initial}, goalTest, successors, universe);
    var explored := Search(initial, goalTest, successors, universe).1;
    if Search(initial, goalTest, successors, universe).0.None? {
      forall p | IsWalk(p, successors) && 0 < |p| && p[0] == initial
        ensures p[|p| - 1] in explored && !goalTest(p[|p| - 1])
      {
        WalkStaysIn(explored, successors, p, |p| - 1);
      }
    }
  }

  /** The search itself, over the `Stack` class. `universe` is a finite set of
      states that holds `initial` and is closed under `successors`; it only
      bounds the search for the termination proof. */
  method Dfs<T(==)>(initial: T, goalTest: T -> bool, successors: T -> seq<T>, ghost universe: set<T>)
    returns (r: Option<Node<T>>)
    requires initial in universe && ClosedUnder(universe, successors)
    ensures r == Search(initial, goalTest, successors, universe).0
    ensures r.Some? ==>
      && goalTest(r.value.state)
      && PathOf(r.value)[0] == initial
      && IsWalk(PathOf(r.value), successors)
      && Distinct(PathOf(r.value))
    ensures r.None? ==>
      forall p :: IsWalk(p, successors) && 0 < |p| && p[0] == initial ==> !goalTest(p[|p| - 1])
  {
    var frontier := new Stack<Node<T>>();
    frontier.Push(Node(initial, None));
    var explored := {initial};
    while !frontier.Empty()
      invariant explored <= universe && FrontierIn(frontier.container, explored)
      invariant Run(frontier.container, explored, goalTest, successors, universe)
             == Search(initial, goalTest, successors, universe)
      decreases |universe - explored|, |frontier.container|
    {
      ghost var before, exploredBefore := frontier.container, explored;
      var currentNode := frontier.Pop();
      var currentState := currentNode.state;
      if goalTest(currentState) {
        SearchSound(initial, goalTest, successors, universe);
        return Some(currentNode);
      }
      var children := successors(currentState);
      ghost var rest := frontier.container;
      for i := 0 to |children|
        invariant (frontier.container, explored) == Expand(children[..i], currentNode, rest, exploredBefore)
      {
        var child := children[i];
        assert children[..i + 1][..i] == children[..i];
        if child in explored {
          continue;
        }
        explored := explored + {child};
        frontier.Push(Node(child, Some(currentNode)));
      }
      assert children[..|children|] == children;
      ExpandStep(children, currentNode, rest, exploredBefore, universe);
    }
    SearchComplete(initial, goalTest, successors, universe);
    return None;
  }
}
