/** `dfs` exactly as generic_search.py line 71 writes it: `Node[child, current_node]`
    subscripts the generic class `Node` (one type parameter) with two non-type
    arguments, which raises `TypeError` instead of building a node. */
module AsWritten {
  import opened Wrappers
  import opened SearchNodes
  import opened DepthFirst

  /** The exception the subscription raises. */
  datatype PythonError = TypeError

  /** The first iteration pops the root node. If it passes the goal test it is
      returned; otherwise the first successor other than `initial` reaches line 71
      and raises. With no such successor nothing is pushed and the search ends. */
  function DfsAsWritten<T(==)>(initial: T, goalTest: T -> bool, successors: T -> seq<T>)
    : (r: Result<Option<Node<T>>, PythonError>)
    ensures r.Ok? && r.value.Some? ==> r.value.value == Node(initial, None)
  {
    if goalTest(initial) then Ok(Some(Node(initial, None)))
    else if exists c :: c in successors(initial) && c != initial then Err(TypeError)
    else Ok(None)
  }

  /** Whenever the code as written does not raise, it agrees with the corrected search. */
  lemma AsWrittenAgreesWhenItReturns<T>(initial: T, goalTest: T -> bool, successors: T -> seq<T>, universe: set<T>)
    requires initial in universe && ClosedUnder(universe, successors)
    ensures DfsAsWritten(initial, goalTest, successors).Ok? ==>
      DfsAsWritten(initial, goalTest, successors).value == Search(initial, goalTest, successors, universe).0
  {
    var root := Node(initial, None);
    if !goalTest(initial) && forall c :: c in successors(initial) ==> c == initial {
      var children := successors(initial);
      ExpandExplores(children, root, [], {initial});
      var (f, e) := Expand(children, root, [], {initial});
      assert e == {initial};
      assert f == [];
      assert Search(initial, goalTest, successors, universe) == Run(f, e, goalTest, successors, universe);
    }
  }
}
