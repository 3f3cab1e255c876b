/** The parent-linked search node and `node_to_path`
    (generic_search.py, lines 20-25 and 74-80). */
module SearchNodes {
  import opened Wrappers
  import opened Sequences

  /** A node records a state and the node it was discovered from; a root has no parent.
      Nodes never change after construction, so they are values here. */
  datatype Node<T> = Node(state: T, parent: Option<Node<T>>)

  /** The number of parent links from `n` up to its root. */
  function Depth<T>(n: Node<T>): nat
    decreases n
  {
    match n.parent
    case None => 0
    case Some(p) => Depth(p) + 1
  }

  /** The ancestor of `n` whose parent is `None`. */
  function Root<T>(n: Node<T>): (r: Node<T>)
    ensures r.parent.None?
    decreases n
  {
    match n.parent
    case None => n
    case Some(p) => Root(p)
  }

  /** The states from the root down to `n`. */
  function PathOf<T>(n: Node<T>): (p: seq<T>)
    ensures |p| == Depth(n) + 1
    ensures p[0] == Root(n).state
    ensures p[|p| - 1] == n.state
    decreases n
  {
    match n.parent
    case None => [n.state]
    case Some(q) => PathOf(q) + [n.state]
  }

  /** The states from the root down to the parent of `n` (empty for a root). */
  ghost function Above<T>(n: Node<T>): seq<T> {
    match n.parent
    case None => []
    case Some(q) => PathOf(q)
  }

  /** A path is the path above a node followed by the node's own state. */
  lemma PathSplit<T>(n: Node<T>)
    ensures PathOf(n) == Above(n) + [n.state]
  {
  }

  /** Walks the parent links collecting states, then reverses the collected list. */
  method NodeToPath<T>(node: Node<T>) returns (path: seq<T>)
    ensures path == PathOf(node)
  {
    var current := node;
    path := [current.state];
    while current.parent.Some?
      invariant Above(current) + Reversed(path) == PathOf(node)
      decreases current
    {
      ghost var below := current;
      current := current.parent.value;
      assert Above(below) == PathOf(current);
      PathSplit(current);
      ReversedAppendOne(path, current.state);
      path := path + [current.state];
    }
    assert Above(current) == [];
    path := Reversed(path);
  }
}
