# Generic search toolkit in Dafny

A verified model of `generic_search.py`, a small generic search toolkit with no I/O:

- a last-in-first-out `Stack` whose list is updated in place (`push`, `pop`, `empty`);
- a parent-linked search `Node` (a state and the node that discovered it);
- depth-first search `dfs` over a state space given by two callbacks, `goal_test` and `successors`;
- path reconstruction `node_to_path`, which walks parent links to the root and reverses what it collected;
- two membership scans, `linear_contains` and `binary_contains`.

Files and modules:

| file | module | models |
|---|---|---|
| `stacks.dfy` | `Stacks` | the `Stack` class, plus pure `Pushed`/`Popped` views of one push and one pop and the LIFO laws |
| `membership.dfy` | `Membership` | `linear_contains` and `binary_contains` as loops |
| `search_nodes.dfy` | `SearchNodes` | the `Node` record, `PathOf` (the path a node denotes) and the `node_to_path` loop |
| `depth_first.dfy` | `DepthFirst` | the `dfs` loop over the `Stack` class, a reference definition of one run (`Expand`, `Run`, `Search`), and soundness and completeness |
| `as_written.dfy` | `AsWritten` | `dfs` exactly as line 71 is written (see Findings) |
| `scenarios.dfy` | `Scenarios` | concrete runs: the A/B/C/D graph, a diamond that shows the sibling order, the membership values of the demonstration block, and a stack round trip |
| `wrappers.dfy`, `sequences.dfy` | `Wrappers`, `Sequences` | `Option`/`Result`, list reversal, "no repeats" |

Modelling choices:

- `goal_test` and `successors` are total Dafny functions `T -> bool` and `T -> seq<T>`.
- Nodes are immutable after construction and point only to their parents. They are therefore the values of a recursive datatype `Node(state, parent: Option<Node>)`.
- The `Stack` is a class with a `container: seq<T>` field that `Push` and `Pop` reassign. `Dfs` allocates one and drives it exactly as the source does.
- `Dfs` is proved equal to the ghost function `Search`. `Expand` is the reference for the `for child in successors(...)` loop, and `Run` is the reference for the `while` loop. Soundness, completeness and path shape are proved about `Run` and restated in `Dfs`'s postcondition.
- Termination needs a bound. `Dfs` takes a ghost set `universe` that holds `initial` and is closed under `successors`. The loop decreases the pair (number of unexplored states of `universe`, frontier size).
- `binary_contains` is modelled over `int`. Line 49's `//` is Python floor division. Inside the loop `low + high >= 0`, so Dafny's `/` gives the same result.
- `linear_contains` returns `None` when it finds nothing. That value is falsy and is modelled as `false`.
- In the A/B/C/D example the code pushes successors in list order. So C is pushed after B and popped first. C is a dead end, so the search then pops B and finds D through it, giving the path A, B, D (`Scenarios.FindInBranching`). `Scenarios.DiamondRun` shows the same ordering on a graph where it changes the result.

## Model

| member | source | states |
|---|---|---|
| `Stacks.Stack.constructor` | generic_search.py:7-8 | a new stack holds no items |
| `Stacks.Stack.Empty` | generic_search.py:10-12 | `empty` is true exactly when the stack holds no items |
| `Stacks.Stack.Push` | generic_search.py:13-14 | the item becomes the new top and the items below it are unchanged |
| `Stacks.Stack.Pop` | generic_search.py:15-16 | callers may not pop an empty stack (`list.pop` raises); the result is the most recently pushed item, and only that item is removed |
| `Stacks.PushThenPop` | generic_search.py:13-16 | a push followed by a pop returns the pushed item and restores the list |
| `Stacks.PushAllThenPopAll` | generic_search.py:13-16 | n pushes followed by n pops return the items in reverse push order and restore the list as it was before the pushes |
| `Scenarios.PushThenPopOnStack` | generic_search.py:13-16 | on a `Stack` object, a push then a pop hands back the item and leaves the container as it was |
| `Membership.LinearContains` | generic_search.py:38-41 | the result is true iff some element equals the key |
| `Membership.BinaryContains` | generic_search.py:45-56 | a true result always means the key occurs; on an ascending sequence the result is true iff the key occurs |
| `SearchNodes.PathOf` | generic_search.py:74-80 | a node's path is non-empty, has one more state than the node has parent links, starts with the root's state and ends with the node's own state |
| `SearchNodes.NodeToPath` | generic_search.py:74-80 | walking parent links and then reversing yields exactly the node's root-to-node path |
| `DepthFirst.ExpandPushes` | generic_search.py:67-71 | one expansion leaves the nodes below the popped one in place; every pushed node has the popped node as parent and wraps a child that was unexplored; no state is pushed twice; every unexplored child is pushed |
| `DepthFirst.ExpandExplores` | generic_search.py:67-70 | after one expansion, explored is the old explored set plus all the children, and it gains exactly one state per pushed node |
| `DepthFirst.ExpandStep` | generic_search.py:59-71 | one expansion keeps every frontier state explored and every explored state inside the universe; explored only grows, and either it grows or the frontier shrinks, so the search terminates |
| `DepthFirst.Run` | generic_search.py:62-72 | a node a run returns passes the goal test; explored only grows and stays within the universe |
| `DepthFirst.RunReturnsDiscovered` | generic_search.py:62-71 | a node a run returns descends from the root for `initial` through successor edges, and its path repeats no state and lies within explored |
| `DepthFirst.RunExhausts` | generic_search.py:62-72 | when a run returns nothing, its final explored set is closed under `successors` and no state in it passes the goal test |
| `DepthFirst.FromInitialPath` | generic_search.py:71-80 | the path of a node built by the search starts at `initial`, and each state is a successor of the state before it |
| `DepthFirst.SearchSound` | generic_search.py:58-72 | a node found by a whole search passes the goal test; its path starts at `initial`, follows successor edges and repeats no state |
| `DepthFirst.SearchComplete` | generic_search.py:58-72 | when a whole search finds nothing, every state reachable from `initial` has been explored and none of them passes the goal test |
| `DepthFirst.Dfs` | generic_search.py:58-72 | the loop over the `Stack` class returns what the reference search returns, with the soundness and completeness guarantees above |
| `AsWritten.DfsAsWritten` | generic_search.py:71 | with line 71 as written, the only node the search can return is the root |
| `AsWritten.AsWrittenAgreesWhenItReturns` | generic_search.py:58-72 | whenever the code as written does not raise, it returns what the corrected search returns |
| `Scenarios.AsWrittenRaisesOnBranching` | generic_search.py:71 | on the A/B/C/D graph the code as written raises `TypeError`, while the corrected search finds D |
| `Scenarios.FindInBranching` | generic_search.py:58-80 | on A→[B, C], B→[D] with goal D, `dfs` then `node_to_path` gives exactly A, B, D |
| `Scenarios.DiamondRun` | generic_search.py:62-71 | when B and C both lead to D, the sibling listed last (C) is popped first, so D is found through C |
| `Scenarios.FindInDiamond` | generic_search.py:58-80 | on that diamond, `dfs` then `node_to_path` gives A, C, D |
| `Scenarios.MembershipDemo` | generic_search.py:84-86 | `linear_contains([1,3,2,5,64,233,4,6,8], 5)` is true, `binary_contains([1,4,7,12,24,55,100], 24)` is true and `binary_contains([1,4,7,12,24,55,100], 20)` is false |

## Left out

- `Node`'s `cost` and `heurictic` fields and `Node.__lt__` (lines 21-28) are left out. They are float arithmetic and `dfs` never reads them.
- The `Compartable` protocol (lines 30-36) is left out. It only derives `>`, `<=` and `>=` from `<`. `binary_contains` is modelled over `int` with Dafny's own order.
- `Stack.__repr__` (lines 17-18) is left out. It is only string rendering.
- The `__main__` block (lines 83-86) prints to the console and is left out. The values of lines 84 and 86 are proved in `Scenarios.MembershipDemo`. Line 85 is not modelled, because it searches a list of strings and `binary_contains` is modelled over integers.
- Exceptions raised by caller-supplied `goal_test` or `successors` are not modelled. Both callbacks are total functions.
- DepthFirst.Dfs: requires a finite ghost set of states that contains `initial` and is closed under `successors`. The source has no such parameter. On an infinite reachable state space with no goal, the source loops forever, and the model does not cover that case.
- `linear_contains` accepts any iterable. The model takes a finite sequence, which is what one pass over an iterable yields.
- Node identity is not modelled. Nodes are never mutated after construction, so sharing a parent node cannot be observed.

## Findings

| source | as written | input that shows it | evidently intended | confidence | as-written member | corrected member |
|---|---|---|---|---|---|---|
| generic_search.py:71 | `frontier.push(Node[child, current_node])` subscripts the generic class `Node` (one type parameter) with two arguments that are not types. This raises `TypeError` the first time a child is pushed, so `dfs` can only ever return the root or `None` | `initial = "A"`, successors A→[B, C], B→[D], goal `s == "D"`: expanding A raises, although D is reachable | `Node(child, current_node)`: a new node wrapping the child, with the current node as parent | high; not executed | `AsWritten.DfsAsWritten`, shown by `Scenarios.AsWrittenRaisesOnBranching` | `DepthFirst.Dfs`, with `DepthFirst.SearchSound` and `DepthFirst.SearchComplete` |
