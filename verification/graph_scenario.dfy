/**
 * The scenario of the repository's graph test: six nodes, seven edges, three searches
 * from 0 to 3 with a node and then an edge removed in between.
 */
module GraphScenario {
  import opened Graphs
  import opened PathSearch
  import OM = OrderedMaps
  import opened GraphBuilder

  function Adj(ks: seq<int>, m: map<int, int>): OM.OrderedMap<int> {
    OM.OrderedMap(ks, m)
  }

  /** The graph after each step of building the test graph. */
  const S0: Graph := Graph(map[
    0 := Adj([], map[]),
    1 := Adj([], map[]),
    2 := Adj([], map[]),
    3 := Adj([], map[]),
    4 := Adj([], map[]),
    5 := Adj([], map[])], 6, 0)

  const S1: Graph := Graph(map[
    0 := Adj([1], map[1 := 10]),
    1 := Adj([0], map[0 := 10]),
    2 := Adj([], map[]),
    3 := Adj([], map[]),
    4 := Adj([], map[]),
    5 := Adj([], map[])], 6, 1)

  lemma AddEdgeStep1()
    ensures AddEdge(S0, 0, 1, 10) == Done(S1)
  {
    assert [] + [1] == [1];
    assert [] + [0] == [0];
  }

  const S2: Graph := Graph(map[
    0 := Adj([1], map[1 := 10]),
    1 := Adj([0, 2], map[0 := 10, 2 := 10]),
    2 := Adj([1], map[1 := 10]),
    3 := Adj([], map[]),
    4 := Adj([], map[]),
    5 := Adj([], map[])], 6, 2)

  lemma AddEdgeStep2()
    ensures AddEdge(S1, 1, 2, 10) == Done(S2)
  {
    assert [0] + [2] == [0, 2];
    assert [] + [1] == [1];
  }

  const S3: Graph := Graph(map[
    0 := Adj([1], map[1 := 10]),
    1 := Adj([0, 2], map[0 := 10, 2 := 10]),
    2 := Adj([1, 3], map[1 := 10, 3 := 10]),
    3 := Adj([2], map[2 := 10]),
    4 := Adj([], map[]),
    5 := Adj([], map[])], 6, 3)

  lemma AddEdgeStep3()
    ensures AddEdge(S2, 2, 3, 10) == Done(S3)
  {
    assert [1] + [3] == [1, 3];
    assert [] + [2] == [2];
  }

  const S4: Graph := Graph(map[
    0 := Adj([1, 4], map[1 := 10, 4 := 10]),
    1 := Adj([0, 2], map[0 := 10, 2 := 10]),
    2 := Adj([1, 3], map[1 := 10, 3 := 10]),
    3 := Adj([2], map[2 := 10]),
    4 := Adj([0], map[0 := 10]),
    5 := Adj([], map[])], 6, 4)

  lemma AddEdgeStep4()
    ensures AddEdge(S3, 0, 4, 10) == Done(S4)
  {
    assert [1] + [4] == [1, 4];
    assert [] + [0] == [0];
  }

  const S5: Graph := Graph(map[
    0 := Adj([1, 4], map[1 := 10, 4 := 10]),
    1 := Adj([0, 2], map[0 := 10, 2 := 10]),
    2 := Adj([1, 3], map[1 := 10, 3 := 10]),
    3 := Adj([2, 4], map[2 := 10, 4 := 15]),
    4 := Adj([0, 3], map[0 := 10, 3 := 15]),
    5 := Adj([], map[])], 6, 5)

  lemma AddEdgeStep5()
    ensures AddEdge(S4, 4, 3, 15) == Done(S5)
  {
    assert [0] + [3] == [0, 3];
    assert [2] + [4] == [2, 4];
  }

  const S6: Graph := Graph(map[
    0 := Adj([1, 4, 5], map[1 := 10, 4 := 10, 5 := 10]),
    1 := Adj([0, 2], map[0 := 10, 2 := 10]),
    2 := Adj([1, 3], map[1 := 10, 3 := 10]),
    3 := Adj([2, 4], map[2 := 10, 4 := 15]),
    4 := Adj([0, 3], map[0 := 10, 3 := 15]),
    5 := Adj([0], map[0 := 10])], 6, 6)

  lemma AddEdgeStep6()
    ensures AddEdge(S5, 0, 5, 10) == Done(S6)
  {
    assert [1, 4] + [5] == [1, 4, 5];
    assert [] + [0] == [0];
  }

  const S7: Graph := Graph(map[
    0 := Adj([1, 4, 5], map[1 := 10, 4 := 10, 5 := 10]),
    1 := Adj([0, 2], map[0 := 10, 2 := 10]),
    2 := Adj([1, 3], map[1 := 10, 3 := 10]),
    3 := Adj([2, 4, 5], map[2 := 10, 4 := 15, 5 := 10]),
    4 := Adj([0, 3], map[0 := 10, 3 := 15]),
    5 := Adj([0, 3], map[0 := 10, 3 := 10])], 6, 7)

  lemma AddEdgeStep7()
    ensures AddEdge(S6, 5, 3, 10) == Done(S7)
  {
    assert [0] + [3] == [0, 3];
    assert [2, 4] + [5] == [2, 4, 5];
  }

  /** The test graph, as the seven `add_edge` calls leave it. */
  const G1: Graph := S7

  const G2: Graph := Graph(map[
    0 := Adj([1, 4], map[1 := 10, 4 := 10]),
    1 := Adj([0, 2], map[0 := 10, 2 := 10]),
    2 := Adj([1, 3], map[1 := 10, 3 := 10]),
    3 := Adj([2, 4], map[2 := 10, 4 := 15]),
    4 := Adj([0, 3], map[0 := 10, 3 := 15])], 5, 7)

  const G3: Graph := Graph(map[
    0 := Adj([1, 4], map[1 := 10, 4 := 10]),
    1 := Adj([0, 2], map[0 := 10, 2 := 10]),
    2 := Adj([1, 3], map[1 := 10, 3 := 10]),
    3 := Adj([2], map[2 := 10]),
    4 := Adj([0], map[0 := 10])], 5, 6)

  lemma Forget5()
    ensures OM.Forget(G1.paths[0], 5) == Adj([1, 4], map[1 := 10, 4 := 10])
    ensures OM.Forget(G1.paths[3], 5) == Adj([2, 4], map[2 := 10, 4 := 15])
  {
    assert OM.Without([5], 5) == [];
    assert OM.Without([4, 5], 5) == [4];
    assert OM.Without([1, 4, 5], 5) == [1, 4];
    assert OM.Without([2, 4, 5], 5) == [2, 4];
    assert map[1 := 10, 4 := 10, 5 := 10] - {5} == map[1 := 10, 4 := 10];
    assert map[2 := 10, 4 := 15, 5 := 10] - {5} == map[2 := 10, 4 := 15];
  }

  /** Popping 5 from neighbour 3 inside `remove_node(5)`, whatever the rest of the graph. */
  lemma Detach5a(g: Graph)
    requires 3 in g.paths && g.paths[3] == G1.paths[3]
    ensures Detach(g, 5, [3])
         == Done(g.(paths := g.paths[3 := Adj([2, 4], map[2 := 10, 4 := 15])]))
  {
    Forget5();
    assert [3][1..] == [];
  }

  /** Popping 5 from neighbours 0 and then 3. */
  lemma Detach5b(g: Graph)
    requires 0 in g.paths && g.paths[0] == G1.paths[0]
    requires 3 in g.paths && g.paths[3] == G1.paths[3]
    ensures Detach(g, 5, [0, 3])
         == Done(g.(paths := g.paths[0 := Adj([1, 4], map[1 := 10, 4 := 10])]
                                    [3 := Adj([2, 4], map[2 := 10, 4 := 15])]))
  {
    Forget5();
    var h := g.(paths := g.paths[0 := Adj([1, 4], map[1 := 10, 4 := 10])]);
    Detach5a(h);
    assert [0, 3][1..] == [3];
  }

  /** The adjacency `remove_node(5)` leaves: 5 popped, then 5 dropped from 0 and 3. */
  lemma Detached5()
    ensures (G1.paths - {5})[0 := Adj([1, 4], map[1 := 10, 4 := 10])]
                             [3 := Adj([2, 4], map[2 := 10, 4 := 15])] == G2.paths
  {
    var p := (G1.paths - {5})[0 := Adj([1, 4], map[1 := 10, 4 := 10])]
                             [3 := Adj([2, 4], map[2 := 10, 4 := 15])];
    assert p.Keys == G2.paths.Keys;
    forall n | n in p
      ensures p[n] == G2.paths[n]
    {
      assert n in {0, 1, 2, 3, 4};
    }
  }

  lemma RemoveNode5()
    ensures RemoveNode(G1, 5) == Done(G2)
  {
    var g := G1.(paths := G1.paths - {5});
    Detach5b(g);
    Detached5();
    assert G1.paths[5].keys == [0, 3];
  }

  lemma RemoveEdge43()
    ensures RemoveEdge(G2, 4, 3) == Done(G3)
  {
    assert OM.Without([0, 3], 3) == [0];
    assert OM.Without([2, 4], 4) == [2];
    assert map[0 := 10, 3 := 15] - {3} == map[0 := 10];
    assert map[2 := 10, 4 := 15] - {4} == map[2 := 10];
    assert OM.Forget(G2.paths[4], 3) == Adj([0], map[0 := 10]);
    assert OM.Forget(G2.paths[3], 4) == Adj([2], map[2 := 10]);
    var g1 := G2.(paths := G2.paths[4 := Adj([0], map[0 := 10])]);
    assert RemoveEdge(G2, 4, 3) == Done(g1.(paths := g1.paths[3 := Adj([2], map[2 := 10])], edgeCount := 6));
  }

  lemma AnyNonZeroHead(p: seq<int>)
    requires p != [] && p[0] != 0
    ensures AnyNonZero(p)
  {
  }

  /** From 2, with 0 and 1 visited: the direct edge to 3. */
  lemma SearchFrom2(g: Graph)
    requires 2 in g.paths && g.paths[2] == Adj([1, 3], map[1 := 10, 3 := 10])
    ensures Search(g, 2, 3, {0, 1}) == Ok(([2, 3], 10))
  {
    AnyNonZeroHead([3]);
    var seen := {0, 1, 2};
    assert {0, 1} + {2} == seen;
    assert Scan(g, 2, 3, seen, [3], [], Unreachable) == Ok(([3], 0));
    assert Scan(g, 2, 3, seen, [1, 3], [], Unreachable) == Ok(([3], 0)) by {
      assert [1, 3][1..] == [3];
    }
    assert [2] + [3] == [2, 3];
  }

  /** From 1, with 0 visited: on through 2. */
  lemma SearchFrom1(g: Graph)
    requires 1 in g.paths && g.paths[1] == Adj([0, 2], map[0 := 10, 2 := 10])
    requires 2 in g.paths && g.paths[2] == Adj([1, 3], map[1 := 10, 3 := 10])
    ensures Search(g, 1, 3, {0}) == Ok(([1, 2, 3], 20))
  {
    SearchFrom2(g);
    AnyNonZeroHead([2, 3]);
    var seen := {0, 1};
    assert {0} + {1} == seen;
    assert Scan(g, 1, 3, seen, [2], [], Unreachable) == Ok(([2, 3], 10));
    assert Scan(g, 1, 3, seen, [0, 2], [], Unreachable) == Ok(([2, 3], 10)) by {
      assert [0, 2][1..] == [2];
    }
    assert [1] + [2, 3] == [1, 2, 3];
  }

  /** From 4, with 0 visited, while the edge 4-3 exists. */
  lemma SearchFrom4(g: Graph)
    requires 4 in g.paths && g.paths[4] == Adj([0, 3], map[0 := 10, 3 := 15])
    ensures Search(g, 4, 3, {0}) == Ok(([4, 3], 15))
  {
    AnyNonZeroHead([3]);
    var seen := {0, 4};
    assert {0} + {4} == seen;
    assert Scan(g, 4, 3, seen, [3], [], Unreachable) == Ok(([3], 0));
    assert Scan(g, 4, 3, seen, [0, 3], [], Unreachable) == Ok(([3], 0)) by {
      assert [0, 3][1..] == [3];
    }
    assert [4] + [3] == [4, 3];
  }

  /** From 4, with 0 visited, once the edge 4-3 is gone: a dead end. */
  lemma SearchFrom4Cut(g: Graph)
    requires 4 in g.paths && g.paths[4] == Adj([0], map[0 := 10])
    ensures Search(g, 4, 3, {0}) == Ok(([], Unreachable))
  {
    var seen := {0, 4};
    assert {0} + {4} == seen;
    assert Scan(g, 4, 3, seen, [0], [], Unreachable) == Ok(([], Unreachable));
  }

  /** From 5, with 0 visited. */
  lemma SearchFrom5(g: Graph)
    requires 5 in g.paths && g.paths[5] == Adj([0, 3], map[0 := 10, 3 := 10])
    ensures Search(g, 5, 3, {0}) == Ok(([5, 3], 10))
  {
    AnyNonZeroHead([3]);
    var seen := {0, 5};
    assert {0} + {5} == seen;
    assert Scan(g, 5, 3, seen, [3], [], Unreachable) == Ok(([3], 0));
    assert Scan(g, 5, 3, seen, [0, 3], [], Unreachable) == Ok(([3], 0)) by {
      assert [0, 3][1..] == [3];
    }
    assert [5] + [3] == [5, 3];
  }

  lemma SearchG1()
    ensures FindShortestPath(G1, 0, 3) == Ok(([0, 5, 3], 20))
  {
    SearchFrom1(G1);
    SearchFrom4(G1);
    SearchFrom5(G1);
    AnyNonZeroHead([5, 3]);
    var seen := {0};
    assert {} + {0} == seen;
    assert Scan(G1, 0, 3, seen, [5], [4, 3], 15) == Ok(([5, 3], 10));
    assert Scan(G1, 0, 3, seen, [4, 5], [1, 2, 3], 20) == Ok(([5, 3], 10)) by {
      assert [4, 5][1..] == [5];
    }
    assert Scan(G1, 0, 3, seen, [1, 4, 5], [], Unreachable) == Ok(([5, 3], 10)) by {
      assert [1, 4, 5][1..] == [4, 5];
    }
    assert [0] + [5, 3] == [0, 5, 3];
  }

  lemma SearchG2()
    ensures FindShortestPath(G2, 0, 3) == Ok(([0, 4, 3], 25))
  {
    SearchFrom1(G2);
    SearchFrom4(G2);
    AnyNonZeroHead([4, 3]);
    var seen := {0};
    assert {} + {0} == seen;
    assert Scan(G2, 0, 3, seen, [4], [1, 2, 3], 20) == Ok(([4, 3], 15));
    assert Scan(G2, 0, 3, seen, [1, 4], [], Unreachable) == Ok(([4, 3], 15)) by {
      assert [1, 4][1..] == [4];
    }
    assert [0] + [4, 3] == [0, 4, 3];
  }

  lemma SearchG3()
    ensures FindShortestPath(G3, 0, 3) == Ok(([0, 1, 2, 3], 30))
  {
    SearchFrom1(G3);
    SearchFrom4Cut(G3);
    AnyNonZeroHead([1, 2, 3]);
    var seen := {0};
    assert {} + {0} == seen;
    assert Scan(G3, 0, 3, seen, [4], [1, 2, 3], 20) == Ok(([1, 2, 3], 20));
    assert Scan(G3, 0, 3, seen, [1, 4], [], Unreachable) == Ok(([1, 2, 3], 20)) by {
      assert [1, 4][1..] == [4];
    }
    assert [0] + [1, 2, 3] == [0, 1, 2, 3];
  }

  /** The seven `add_edge` calls of the test, in order. */
  const TestConnections: seq<Connection> := C0

  /** `Nk` is the graph after `add_node(0)` up to `add_node(k - 1)`. */
  const N1: Graph := Graph(map[
    0 := Adj([], map[])], 1, 0)

  const N2: Graph := Graph(map[
    0 := Adj([], map[]),
    1 := Adj([], map[])], 2, 0)

  const N3: Graph := Graph(map[
    0 := Adj([], map[]),
    1 := Adj([], map[]),
    2 := Adj([], map[])], 3, 0)

  const N4: Graph := Graph(map[
    0 := Adj([], map[]),
    1 := Adj([], map[]),
    2 := Adj([], map[]),
    3 := Adj([], map[])], 4, 0)

  const N5: Graph := Graph(map[
    0 := Adj([], map[]),
    1 := Adj([], map[]),
    2 := Adj([], map[]),
    3 := Adj([], map[]),
    4 := Adj([], map[])], 5, 0)

  lemma AddNodesFrom5()
    ensures AddNodes(N5, [5]) == Done(S0)
  {
    assert AddNode(N5, 5) == Done(S0);
    assert [5][1..] == [];
  }

  lemma AddNodesFrom4()
    ensures AddNodes(N4, [4, 5]) == Done(S0)
  {
    assert AddNode(N4, 4) == Done(N5);
    AddNodesFrom5();
    assert [4, 5][1..] == [5];
  }

  lemma AddNodesFrom3()
    ensures AddNodes(N3, [3, 4, 5]) == Done(S0)
  {
    assert AddNode(N3, 3) == Done(N4);
    AddNodesFrom4();
    assert [3, 4, 5][1..] == [4, 5];
  }

  lemma AddNodesFrom2()
    ensures AddNodes(N2, [2, 3, 4, 5]) == Done(S0)
  {
    assert AddNode(N2, 2) == Done(N3);
    AddNodesFrom3();
    assert [2, 3, 4, 5][1..] == [3, 4, 5];
  }

  lemma AddNodesFrom1()
    ensures AddNodes(N1, [1, 2, 3, 4, 5]) == Done(S0)
  {
    assert AddNode(N1, 1) == Done(N2);
    AddNodesFrom2();
    assert [1, 2, 3, 4, 5][1..] == [2, 3, 4, 5];
  }

  lemma AddNodesFrom0()
    ensures AddNodes(EmptyGraph, [0, 1, 2, 3, 4, 5]) == Done(S0)
  {
    assert AddNode(EmptyGraph, 0) == Done(N1);
    AddNodesFrom1();
    assert [0, 1, 2, 3, 4, 5][1..] == [1, 2, 3, 4, 5];
  }

  /** `Ck` is the list of test connections from the `k`-th on. */
  const C7: seq<Connection> := []
  const C6: seq<Connection> := [Connection(5, 3, 10)] + C7
  const C5: seq<Connection> := [Connection(0, 5, 10)] + C6
  const C4: seq<Connection> := [Connection(4, 3, 15)] + C5
  const C3: seq<Connection> := [Connection(0, 4, 10)] + C4
  const C2: seq<Connection> := [Connection(2, 3, 10)] + C3
  const C1: seq<Connection> := [Connection(1, 2, 10)] + C2
  const C0: seq<Connection> := [Connection(0, 1, 10)] + C1

  lemma AddEdgesFrom6()
    ensures AddEdges(S6, C6) == Done(S7)
  {
    AddEdgeStep7();
    assert C6[1..] == C7;
  }

  lemma AddEdgesFrom5()
    ensures AddEdges(S5, C5) == Done(S7)
  {
    AddEdgeStep6();
    AddEdgesFrom6();
    assert C5[1..] == C6;
  }

  lemma AddEdgesFrom4()
    ensures AddEdges(S4, C4) == Done(S7)
  {
    AddEdgeStep5();
    AddEdgesFrom5();
    assert C4[1..] == C5;
  }

  lemma AddEdgesFrom3()
    ensures AddEdges(S3, C3) == Done(S7)
  {
    AddEdgeStep4();
    AddEdgesFrom4();
    assert C3[1..] == C4;
  }

  lemma AddEdgesFrom2()
    ensures AddEdges(S2, C2) == Done(S7)
  {
    AddEdgeStep3();
    AddEdgesFrom3();
    assert C2[1..] == C3;
  }

  lemma AddEdgesFrom1()
    ensures AddEdges(S1, C1) == Done(S7)
  {
    AddEdgeStep2();
    AddEdgesFrom2();
    assert C1[1..] == C2;
  }

  lemma AddEdgesFrom0()
    ensures AddEdges(S0, C0) == Done(S7)
  {
    AddEdgeStep1();
    AddEdgesFrom1();
    assert C0[1..] == C1;
  }

  lemma BuildTestGraph()
    ensures Build(EmptyGraph, [0, 1, 2, 3, 4, 5], TestConnections) == Done(G1)
  {
    AddNodesFrom0();
    AddEdgesFrom0();
  }

  /** The repository's graph test, step by step. */
  lemma GraphTest()
    ensures Build(EmptyGraph, [0, 1, 2, 3, 4, 5], TestConnections) == Done(G1)
    ensures FindShortestPath(G1, 0, 3) == Ok(([0, 5, 3], 20))
    ensures RemoveNode(G1, 5) == Done(G2)
    ensures FindShortestPath(G2, 0, 3) == Ok(([0, 4, 3], 25))
    ensures RemoveEdge(G2, 4, 3) == Done(G3)
    ensures FindShortestPath(G3, 0, 3) == Ok(([0, 1, 2, 3], 30))
    ensures GetEdgeWeight(G3, 0, 4) == Ok(10)
  {
    BuildTestGraph();
    SearchG1();
    RemoveNode5();
    SearchG2();
    RemoveEdge43();
    SearchG3();
  }
}
