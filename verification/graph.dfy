/**
 * The undirected weighted graph of the campus navigator.
 *
 * `paths` maps every node id to its adjacency: an insertion-ordered map from
 * neighbour id to edge weight. The operations are pure: each returns the graph
 * the Python method leaves behind, and whether it raised.
 */
module Graphs {
  import OM = OrderedMaps

  /** The two Python exceptions the graph raises. */
  datatype Error = ValueError | KeyError

  type Adjacency = OM.OrderedMap<int>

  datatype Graph = Graph(paths: map<int, Adjacency>, nodeCount: int, edgeCount: int)

  /** What a mutator leaves behind: the new graph, or the exception it raised and the
      graph as the exception left it (which may be partially updated). */
  datatype Outcome = Done(graph: Graph) | Raised(error: Error, graph: Graph)

  /** What a query returns, or the exception it raised. */
  datatype Result<T> = Ok(value: T) | Err(error: Error)

  /** A freshly constructed graph. */
  const EmptyGraph: Graph := Graph(map[], 0, 0)

  predicate HasNode(g: Graph, n: int) {
    n in g.paths
  }

  /** `b` is a key of `a`'s adjacency. */
  predicate HasEdge(g: Graph, a: int, b: int) {
    a in g.paths && b in g.paths[a].entries
  }

  function Weight(g: Graph, a: int, b: int): int
    requires HasEdge(g, a, b)
  {
    g.paths[a].entries[b]
  }

  /** The invariant the public operations keep: every adjacency is a well-formed
      ordered map, every neighbour is a node, and both halves of an edge agree. */
  ghost predicate Valid(g: Graph) {
    && (forall n :: n in g.paths ==> OM.Valid(g.paths[n]))
    && (forall a, b :: HasEdge(g, a, b) ==> HasEdge(g, b, a) && Weight(g, a, b) == Weight(g, b, a))
  }

  /** The adjacency relation (with weights) agrees on every pair of endpoints other than `a`, `b`. */
  ghost predicate SameEdgesExcept(g: Graph, h: Graph, a: int, b: int) {
    forall x, y :: !(x == a && y == b) && !(x == b && y == a) ==>
      (HasEdge(h, x, y) <==> HasEdge(g, x, y)) && (HasEdge(g, x, y) ==> Weight(h, x, y) == Weight(g, x, y))
  }

  /** `add_node(id)`. */
  function AddNode(g: Graph, id: int): (o: Outcome)
    ensures HasNode(g, id) ==> o == Raised(ValueError, g)
    ensures !HasNode(g, id) ==>
      && o.Done?
      && o.graph.paths.Keys == g.paths.Keys + {id}
      && o.graph.paths[id].entries == map[]
      && (forall n :: n in g.paths ==> o.graph.paths[n] == g.paths[n])
      && o.graph.nodeCount == g.nodeCount + 1
      && o.graph.edgeCount == g.edgeCount
  {
    if id in g.paths then Raised(ValueError, g)
    else Done(g.(paths := g.paths[id := OM.Empty()], nodeCount := g.nodeCount + 1))
  }

  /** `add_edge(a, b, w)`: both halves are written, an existing weight is overwritten,
      and the edge counter goes up on every successful call. */
  function AddEdge(g: Graph, a: int, b: int, w: int): (o: Outcome)
    ensures !HasNode(g, a) || !HasNode(g, b) ==> o == Raised(ValueError, g)
    ensures HasNode(g, a) && HasNode(g, b) ==>
      && o.Done?
      && HasEdge(o.graph, a, b) && Weight(o.graph, a, b) == w
      && HasEdge(o.graph, b, a) && Weight(o.graph, b, a) == w
      && SameEdgesExcept(g, o.graph, a, b)
      && o.graph.paths.Keys == g.paths.Keys
      && (forall n :: n in g.paths && n != a && n != b ==> o.graph.paths[n] == g.paths[n])
      && o.graph.nodeCount == g.nodeCount
      && o.graph.edgeCount == g.edgeCount + 1
  {
    if a !in g.paths then Raised(ValueError, g)
    else if b !in g.paths then Raised(ValueError, g)
    else
      var p1 := g.paths[a := OM.Put(g.paths[a], b, w)];
      var p2 := p1[b := OM.Put(p1[b], a, w)];
      Done(g.(paths := p2, edgeCount := g.edgeCount + 1))
  }

  /** The loop of `remove_node`: pop `id` from the adjacency of each node of `ns`, in
      order, raising `KeyError` at the first node that is missing or has no such key. */
  function Detach(g: Graph, id: int, ns: seq<int>): (o: Outcome)
    ensures o.graph.paths.Keys == g.paths.Keys
    ensures o.graph.nodeCount == g.nodeCount && o.graph.edgeCount == g.edgeCount
    decreases |ns|
  {
    if ns == [] then Done(g)
    else
      var n := ns[0];
      if n !in g.paths then Raised(KeyError, g)
      else match OM.Pop(g.paths[n], id)
        case None => Raised(KeyError, g)
        case Some(adj) => Detach(g.(paths := g.paths[n := adj]), id, ns[1..])
  }

  /** `remove_node(id)`: the node goes, and so does every half-edge naming it; the node
      counter goes down and the edge counter is left alone. */
  function RemoveNode(g: Graph, id: int): (o: Outcome)
    ensures !HasNode(g, id) ==> o == Raised(KeyError, g)
    ensures o.graph.paths.Keys == if HasNode(g, id) then g.paths.Keys - {id} else g.paths.Keys
    ensures o.graph.edgeCount == g.edgeCount
  {
    if id !in g.paths then Raised(KeyError, g)
    else
      var connected := g.paths[id].keys;
      match Detach(g.(paths := g.paths - {id}), id, connected)
      case Done(h) => Done(h.(nodeCount := h.nodeCount - 1))
      case Raised(e, h) => Raised(e, h)
  }

  /** `remove_edge(a, b)`: pops `b` from `a`'s adjacency, then `a` from `b`'s. */
  function RemoveEdge(g: Graph, a: int, b: int): (o: Outcome)
    ensures !HasEdge(g, a, b) ==> o == Raised(KeyError, g)
    ensures o.graph.paths.Keys == g.paths.Keys
    ensures o.graph.nodeCount == g.nodeCount
  {
    if a !in g.paths then Raised(KeyError, g)
    else match OM.Pop(g.paths[a], b)
      case None => Raised(KeyError, g)
      case Some(adjA) =>
        var g1 := g.(paths := g.paths[a := adjA]);
        if b !in g1.paths then Raised(KeyError, g1)
        else match OM.Pop(g1.paths[b], a)
          case None => Raised(KeyError, g1)
          case Some(adjB) => Done(g1.(paths := g1.paths[b := adjB], edgeCount := g.edgeCount - 1))
  }

  /** `get_edge_weight(a, b)`. */
  function GetEdgeWeight(g: Graph, a: int, b: int): (r: Result<int>)
    ensures r.Ok? <==> HasEdge(g, a, b)
    ensures r.Ok? ==> r.value == Weight(g, a, b)
    ensures r.Err? ==> r.error == KeyError
  {
    if a in g.paths && b in g.paths[a].entries then Ok(g.paths[a].entries[b]) else Err(KeyError)
  }

  /** In a valid graph the two halves of an edge report the same weight. */
  lemma WeightSymmetric(g: Graph, a: int, b: int)
    requires Valid(g)
    ensures GetEdgeWeight(g, a, b) == GetEdgeWeight(g, b, a)
  {
    assert HasEdge(g, a, b) ==> HasEdge(g, b, a);
    assert HasEdge(g, b, a) ==> HasEdge(g, a, b);
  }

  /** Adding a node keeps the graph valid. */
  lemma AddNodeKeepsValid(g: Graph, id: int)
    requires Valid(g)
    ensures Valid(AddNode(g, id).graph)
  {
    var h := AddNode(g, id).graph;
    if !HasNode(g, id) {
      forall a, b | HasEdge(h, a, b)
        ensures HasEdge(h, b, a) && Weight(h, a, b) == Weight(h, b, a)
      {
        assert a != id;
        assert HasEdge(g, a, b);
      }
    }
  }

  /** Adding an edge keeps the graph valid. */
  lemma AddEdgeKeepsValid(g: Graph, a: int, b: int, w: int)
    requires Valid(g)
    ensures Valid(AddEdge(g, a, b, w).graph)
  {
    var h := AddEdge(g, a, b, w).graph;
    if HasNode(g, a) && HasNode(g, b) {
      forall n | n in h.paths
        ensures OM.Valid(h.paths[n])
      {
        if n != a && n != b {
          assert h.paths[n] == g.paths[n];
        }
      }
      forall x, y | HasEdge(h, x, y)
        ensures HasEdge(h, y, x) && Weight(h, x, y) == Weight(h, y, x)
      {
        if !(x == a && y == b) && !(x == b && y == a) {
          assert HasEdge(g, x, y);
          assert HasEdge(g, y, x);
        }
      }
    }
  }

  /** Re-adding an edge with the same weight changes only the edge counter. */
  lemma AddEdgeIdempotent(g: Graph, a: int, b: int, w: int)
    requires HasNode(g, a) && HasNode(g, b)
    ensures AddEdge(AddEdge(g, a, b, w).graph, a, b, w).graph
         == AddEdge(g, a, b, w).graph.(edgeCount := g.edgeCount + 2)
  {
    var h := AddEdge(g, a, b, w).graph;
    var k := AddEdge(h, a, b, w).graph;
    forall n | n in k.paths
      ensures k.paths[n] == h.paths[n]
    {
      if n == a || n == b {
        assert k.paths[n].entries == h.paths[n].entries;
      }
    }
    assert k.paths == h.paths;
  }

  /** After `add_edge(a, b, w)` both directions of `get_edge_weight` report `w`. */
  lemma EdgeWeightAfterAddEdge(g: Graph, a: int, b: int, w: int)
    requires HasNode(g, a) && HasNode(g, b)
    ensures GetEdgeWeight(AddEdge(g, a, b, w).graph, a, b) == Ok(w)
    ensures GetEdgeWeight(AddEdge(g, a, b, w).graph, b, a) == Ok(w)
  {
  }

  /** The loop of `remove_node` succeeds when every listed node still holds `id`, and
      then removes `id` from exactly those adjacencies. */
  lemma {:induction false} DetachSpec(g: Graph, id: int, ns: seq<int>)
    requires OM.Distinct(ns)
    requires forall n :: n in ns ==> HasEdge(g, n, id)
    ensures Detach(g, id, ns).Done?
    ensures forall n :: n in g.paths ==>
      Detach(g, id, ns).graph.paths[n] == if n in ns then OM.Forget(g.paths[n], id) else g.paths[n]
    decreases |ns|
  {
    if ns != [] {
      var n := ns[0];
      assert n in ns;
      var g1 := g.(paths := g.paths[n := OM.Forget(g.paths[n], id)]);
      assert n !in ns[1..] && OM.Distinct(ns[1..]) by {
        forall j | 0 <= j < |ns[1..]|
          ensures ns[1..][j] != n
        {
          assert ns[1..][j] == ns[j + 1];
        }
      }
      forall m | m in ns[1..]
        ensures HasEdge(g1, m, id)
      {
        assert m in ns;
      }
      DetachSpec(g1, id, ns[1..]);
      assert Detach(g, id, ns) == Detach(g1, id, ns[1..]);
    }
  }

  /** The loop of `remove_node` raises `KeyError` when it meets a node that is gone. */
  lemma {:induction false} DetachRaisesOnMissing(g: Graph, id: int, ns: seq<int>, i: int)
    requires 0 <= i < |ns| && ns[i] !in g.paths
    ensures Detach(g, id, ns) == Raised(KeyError, Detach(g, id, ns).graph)
    decreases |ns|
  {
    var n := ns[0];
    if n in g.paths && HasEdge(g, n, id) {
      assert i > 0;
      var g1 := g.(paths := g.paths[n := OM.Forget(g.paths[n], id)]);
      assert ns[1..][i - 1] == ns[i];
      DetachRaisesOnMissing(g1, id, ns[1..], i - 1);
    }
  }

  /** When the loop of `remove_node` raises at a missing node `ns[i]`, the nodes it has
      not reached yet keep their adjacency. */
  lemma {:induction false} DetachKeepsLater(g: Graph, id: int, ns: seq<int>, i: int, n: int)
    requires 0 <= i < |ns| && ns[i] !in g.paths
    requires n in g.paths && n !in ns[..i + 1]
    ensures n in Detach(g, id, ns).graph.paths
    ensures Detach(g, id, ns).graph.paths[n] == g.paths[n]
    decreases |ns|
  {
    assert ns[0] == ns[..i + 1][0];
    var m := ns[0];
    if m in g.paths && HasEdge(g, m, id) {
      assert i > 0;
      var g1 := g.(paths := g.paths[m := OM.Forget(g.paths[m], id)]);
      assert ns[1..][i - 1] == ns[i];
      assert ns[1..][..i] == ns[..i + 1][1..];
      DetachKeepsLater(g1, id, ns[1..], i - 1, n);
    }
  }

  /** A self-loop makes `remove_node(id)` raise with the graph broken: a neighbour listed
      after `id` in `id`'s adjacency still holds its half-edge to `id`, which is no longer
      a node. */
  lemma RemoveNodeSelfLoopDangles(g: Graph, id: int, k: int, j: int)
    requires Valid(g) && HasNode(g, id)
    requires 0 <= k < j < |g.paths[id].keys|
    requires g.paths[id].keys[k] == id
    ensures RemoveNode(g, id).Raised?
    ensures HasEdge(RemoveNode(g, id).graph, g.paths[id].keys[j], id)
    ensures !Valid(RemoveNode(g, id).graph)
  {
    var ns := g.paths[id].keys;
    var n := ns[j];
    var g0 := g.(paths := g.paths - {id});
    assert OM.Valid(g.paths[id]);
    assert n != id && n in g.paths[id].entries;
    assert HasEdge(g, id, n) ==> HasEdge(g, n, id);
    var pre := ns[..k + 1];
    forall q | 0 <= q < |pre|
      ensures pre[q] != n
    {
      assert pre[q] == ns[q];
    }
    DetachRaisesOnMissing(g0, id, ns, k);
    DetachKeepsLater(g0, id, ns, k, n);
    var h := RemoveNode(g, id).graph;
    assert HasEdge(h, n, id) && !HasEdge(h, id, n);
  }

  /** `remove_node(id)` on a valid graph, for a node without a self-loop: the node and
      every half-edge naming it are gone, all other edges and weights stay, the node
      counter drops by one, the edge counter is unchanged, and the graph stays valid. */
  lemma RemoveNodeSpec(g: Graph, id: int)
    requires Valid(g) && HasNode(g, id) && !HasEdge(g, id, id)
    ensures var o := RemoveNode(g, id);
      && o.Done?
      && o.graph.paths.Keys == g.paths.Keys - {id}
      && (forall n :: n in o.graph.paths ==> !HasEdge(o.graph, n, id))
      && (forall n :: n in o.graph.paths ==>
            o.graph.paths[n] == if HasEdge(g, n, id) then OM.Forget(g.paths[n], id) else g.paths[n])
      && (forall x, y :: x != id && y != id ==>
            (HasEdge(o.graph, x, y) <==> HasEdge(g, x, y))
            && (HasEdge(g, x, y) ==> Weight(o.graph, x, y) == Weight(g, x, y)))
      && o.graph.nodeCount == g.nodeCount - 1
      && o.graph.edgeCount == g.edgeCount
      && Valid(o.graph)
  {
    var ns := g.paths[id].keys;
    var g0 := g.(paths := g.paths - {id});
    assert OM.Valid(g.paths[id]);
    forall n | n in ns
      ensures HasEdge(g0, n, id)
    {
      assert HasEdge(g, id, n);
      assert n != id;
    }
    DetachSpec(g0, id, ns);
    var h := Detach(g0, id, ns).graph;
    var o := RemoveNode(g, id);
    assert o.graph.paths == h.paths;
    forall n | n in h.paths
      ensures h.paths[n] == if HasEdge(g, n, id) then OM.Forget(g.paths[n], id) else g.paths[n]
      ensures h.paths[n].entries.Keys == g.paths[n].entries.Keys - {id}
      ensures forall x :: x in h.paths[n].entries ==> h.paths[n].entries[x] == g.paths[n].entries[x]
      ensures OM.Valid(h.paths[n])
    {
      assert OM.Valid(g.paths[n]);
      assert HasEdge(g, n, id) ==> HasEdge(g, id, n);
      assert HasEdge(g, id, n) ==> HasEdge(g, n, id);
    }
  }

  /** `remove_node(id)` on a node with a self-loop raises `KeyError` part-way through:
      the node is already gone but the node counter has not been decremented. */
  lemma RemoveNodeSelfLoop(g: Graph, id: int)
    requires Valid(g) && HasEdge(g, id, id)
    ensures RemoveNode(g, id).Raised? && RemoveNode(g, id).error == KeyError
    ensures !HasNode(RemoveNode(g, id).graph, id)
    ensures RemoveNode(g, id).graph.nodeCount == g.nodeCount
  {
    var ns := g.paths[id].keys;
    assert OM.Valid(g.paths[id]);
    var i :| 0 <= i < |ns| && ns[i] == id;
    DetachRaisesOnMissing(g.(paths := g.paths - {id}), id, ns, i);
  }

  /** `remove_edge(a, b)` on an edge of a valid graph with distinct endpoints: both
      halves are gone, everything else stays, and the edge counter drops by one. */
  lemma RemoveEdgeSpec(g: Graph, a: int, b: int)
    requires Valid(g) && HasEdge(g, a, b) && a != b
    ensures var o := RemoveEdge(g, a, b);
      && o.Done?
      && !HasEdge(o.graph, a, b) && !HasEdge(o.graph, b, a)
      && SameEdgesExcept(g, o.graph, a, b)
      && o.graph.paths.Keys == g.paths.Keys
      && o.graph.nodeCount == g.nodeCount
      && o.graph.edgeCount == g.edgeCount - 1
      && Valid(o.graph)
  {
    assert HasEdge(g, b, a);
    var h := RemoveEdge(g, a, b).graph;
    assert h.paths == g.paths[a := OM.Forget(g.paths[a], b)][b := OM.Forget(g.paths[b], a)];
    forall n | n in h.paths
      ensures OM.Valid(h.paths[n])
    {
      assert OM.Valid(g.paths[n]);
    }
    forall x, y | HasEdge(h, x, y)
      ensures HasEdge(h, y, x) && Weight(h, x, y) == Weight(h, y, x)
    {
      assert HasEdge(g, x, y);
      assert HasEdge(g, y, x);
    }
  }

  /** `remove_edge(a, a)` on a self-loop raises `KeyError` at the second `pop`, after the
      loop is already gone and before the edge counter is decremented. */
  lemma RemoveEdgeSelfLoop(g: Graph, a: int)
    requires HasEdge(g, a, a)
    ensures RemoveEdge(g, a, a).Raised? && RemoveEdge(g, a, a).error == KeyError
    ensures !HasEdge(RemoveEdge(g, a, a).graph, a, a)
    ensures RemoveEdge(g, a, a).graph.edgeCount == g.edgeCount
  {
  }

  /** After `remove_node(id)`, every `get_edge_weight` naming `id` raises `KeyError`. */
  lemma EdgeWeightAfterRemoveNode(g: Graph, id: int, x: int)
    requires Valid(g) && HasNode(g, id) && !HasEdge(g, id, id)
    ensures GetEdgeWeight(RemoveNode(g, id).graph, id, x) == Err(KeyError)
    ensures GetEdgeWeight(RemoveNode(g, id).graph, x, id) == Err(KeyError)
  {
    RemoveNodeSpec(g, id);
  }

  /** `add_node` followed by `remove_node` of the same fresh id restores the graph. */
  lemma AddThenRemoveNode(g: Graph, id: int)
    requires !HasNode(g, id)
    ensures AddNode(g, id).Done?
    ensures RemoveNode(AddNode(g, id).graph, id) == Done(g)
  {
    var h := AddNode(g, id).graph;
    assert h.paths - {id} == g.paths;
  }

  /** `add_edge` of a new edge followed by `remove_edge` restores the graph exactly,
      neighbour order and counters included. */
  lemma AddThenRemoveEdge(g: Graph, a: int, b: int, w: int)
    requires Valid(g) && HasNode(g, a) && HasNode(g, b) && a != b && !HasEdge(g, a, b)
    ensures RemoveEdge(AddEdge(g, a, b, w).graph, a, b) == Done(g)
  {
    assert !HasEdge(g, b, a);
    var h := AddEdge(g, a, b, w).graph;
    OM.PopAfterPut(g.paths[a], b, w);
    OM.PopAfterPut(g.paths[b], a, w);
    var k := RemoveEdge(h, a, b).graph;
    assert k.paths == g.paths;
  }
}
