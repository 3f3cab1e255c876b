/** Worked runs of the toolkit on small concrete inputs. */
module Scenarios {
  import opened Wrappers
  import opened Stacks
  import opened SearchNodes
  import opened DepthFirst
  import opened Membership
  import opened AsWritten

  /** The goal of both graphs below. */
  function IsD(s: string): bool {
    s == "D"
  }

  /** A -> [B, C], B -> [D], C and D have no successors. */
  function Branching(s: string): seq<string> {
    if s == "A" then ["B", "C"] else if s == "B" then ["D"] else []
  }

  /** A -> [B, C], B -> [D], C -> [D], D has no successors. */
  function Diamond(s: string): seq<string> {
    if s == "A" then ["B", "C"] else if s == "B" || s == "C" then ["D"] else []
  }

  const Letters: set<string> := {"A", "B", "C", "D"}

  /** In the branching graph the only walk from A to D is A, B, D. */
  lemma OnlyWalkToD(p: seq<string>)
    requires IsWalk(p, Branching) && 0 < |p| && p[0] == "A" && p[|p| - 1] == "D"
    ensures p == ["A", "B", "D"]
  {
    assert |p| >= 3 by {
      assert p[1] in Branching("A");
    }
    assert p[1] == "B" by {
      assert p[2] in Branching(p[1]);
    }
    assert p[2] == "D";
    assert |p| == 3 by {
      assert |p| > 3 ==> p[3] in Branching(p[2]);
    }
  }

  /** Searching the branching graph for D finds it and reconstructs A, B, D;
      this follows from the contracts of `Dfs` and `NodeToPath` alone. */
  method FindInBranching() returns (path: seq<string>)
    ensures path == ["A", "B", "D"]
  {
    var r := Dfs("A", IsD, Branching, Letters);
    assert IsWalk(["A", "B", "D"], Branching);
    assert r.Some?;
    path := NodeToPath(r.value);
    OnlyWalkToD(path);
  }

  /** Expanding one more child continues the expansion of the children before it. */
  lemma ExpandSnoc<T>(earlier: seq<T>, child: T, parent: Node<T>, frontier: seq<Node<T>>, explored: set<T>)
    ensures var (f, e) := Expand(earlier, parent, frontier, explored);
      Expand(earlier + [child], parent, frontier, explored)
        == if child in e then (f, e) else (f + [Node(child, Some(parent))], e + {child})
  {
    assert (earlier + [child])[..|earlier|] == earlier;
  }

  /** The root's expansion in both graphs: B then C are pushed. */
  lemma ExpandRoot(successors: string -> seq<string>)
    requires successors("A") == ["B", "C"]
    ensures Expand(successors("A"), Node("A", None), [], {"A"})
         == ([Node("B", Some(Node("A", None))), Node("C", Some(Node("A", None)))], {"A", "B", "C"})
  {
    var a := Node("A", None);
    var b := Node("B", Some(a));
    var c := Node("C", Some(a));
    ExpandSnoc([], "B", a, [], {"A"});
    assert Expand([], a, [], {"A"}) == ([], {"A"});
    assert "B" !in {"A"} && [] + [b] == [b];
    assert [] + ["B"] == ["B"] && {"A"} + {"B"} == {"A", "B"};
    assert Expand(["B"], a, [], {"A"}) == ([b], {"A", "B"});
    ExpandSnoc(["B"], "C", a, [], {"A"});
    assert "C" !in {"A", "B"} && [b] + [c] == [b, c];
    assert ["B"] + ["C"] == ["B", "C"] && {"A", "B"} + {"C"} == {"A", "B", "C"};
  }

  /** Expanding a node whose only successor is the unexplored D pushes one node for D. */
  lemma ExpandToD(parent: Node<string>, below: seq<Node<string>>, explored: set<string>)
    requires "D" !in explored
    ensures Expand(["D"], parent, below, explored) == (below + [Node("D", Some(parent))], explored + {"D"})
  {
    var children := ["D"];
    assert children[..0] == [];
    assert Expand(children[..0], parent, below, explored) == (below, explored);
  }

  /** In the diamond both B and C lead to D. The root's successors are pushed
      B then C, so C is popped first and D is discovered through C. */
  lemma DiamondRun()
    ensures Search("A", IsD, Diamond, Letters).0 == Some(Node("D", Some(Node("C", Some(Node("A", None))))))
  {
    var a := Node("A", None);
    var b := Node("B", Some(a));
    var c := Node("C", Some(a));
    var d := Node("D", Some(c));
    ExpandRoot(Diamond);
    assert Run([a], {"A"}, IsD, Diamond, Letters) == Run([b, c], {"A", "B", "C"}, IsD, Diamond, Letters);
    assert [b, c][..1] == [b];
    assert Diamond("C") == ["D"];
    ExpandToD(c, [b], {"A", "B", "C"});
    assert [b] + [d] == [b, d] && {"A", "B", "C"} + {"D"} == {"A", "B", "C", "D"};
    assert Run([b, c], {"A", "B", "C"}, IsD, Diamond, Letters)
        == Run([b, d], {"A", "B", "C", "D"}, IsD, Diamond, Letters);
  }

  /** The reconstructed path in the diamond goes through the sibling listed last. */
  method FindInDiamond() returns (path: seq<string>)
    ensures path == ["A", "C", "D"]
  {
    var r := Dfs("A", IsD, Diamond, Letters);
    DiamondRun();
    path := NodeToPath(r.value);
  }

  /** On the branching graph the code as written raises at line 71, while the
      corrected search finds D. */
  lemma AsWrittenRaisesOnBranching()
    ensures DfsAsWritten("A", IsD, Branching) == Err(TypeError)
    ensures Search("A", IsD, Branching, Letters).0.Some?
  {
    assert "B" in Branching("A");
    var a := Node("A", None);
    var b := Node("B", Some(a));
    var c := Node("C", Some(a));
    var d := Node("D", Some(b));
    ExpandRoot(Branching);
    assert Run([a], {"A"}, IsD, Branching, Letters) == Run([b, c], {"A", "B", "C"}, IsD, Branching, Letters);
    assert [b, c][..1] == [b];
    assert Run([b, c], {"A", "B", "C"}, IsD, Branching, Letters) == Run([b], {"A", "B", "C"}, IsD, Branching, Letters);
    assert Branching("B") == ["D"] && Branching("C") == [];
    ExpandToD(b, [], {"A", "B", "C"});
    assert [b][..0] == [] && [] + [d] == [d] && {"A", "B", "C"} + {"D"} == {"A", "B", "C", "D"};
    assert Run([b], {"A", "B", "C"}, IsD, Branching, Letters) == Run([d], {"A", "B", "C", "D"}, IsD, Branching, Letters);
  }

  /** The membership calls of the module's demonstration block, on integers. */
  method MembershipDemo() returns (linearHit: bool, binaryHit: bool, binaryMiss: bool)
    ensures linearHit && binaryHit && !binaryMiss
  {
    linearHit := LinearContains([1, 3, 2, 5, 64, 233, 4, 6, 8], 5);
    var sorted := [1, 4, 7, 12, 24, 55, 100];
    assert Sorted(sorted);
    assert sorted[4] == 24;
    binaryHit := BinaryContains(sorted, 24);
    binaryMiss := BinaryContains(sorted, 20);
  }

  /** On a `Stack` object: a push followed by a pop hands back the pushed item
      and leaves the stack as it was. */
  method PushThenPopOnStack<T>(stack: Stack<T>, item: T) returns (popped: T)
    modifies stack
    ensures popped == item && stack.container == old(stack.container)
  {
    stack.Push(item);
    popped := stack.Pop();
    PushThenPop(old(stack.container), item);
  }
}
