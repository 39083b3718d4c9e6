/**
 * `graphBuilder`: add every location id as a node, then every connection record as an
 * edge, in list order. An exception from either loop propagates and leaves the graph as
 * the steps before it built it. Reading and decoding the connection file is not modelled:
 * the decoded list of connections is the input.
 */
module GraphBuilder {
  import opened Graphs

  /** One decoded connection record: `from`, `to` and `distance`. */
  datatype Connection = Connection(source: int, target: int, distance: int)

  /** The `add_node` loop. */
  function AddNodes(g: Graph, ids: seq<int>): (o: Outcome)
    ensures o.Done? ==> o.graph.paths.Keys == g.paths.Keys + set i | i in ids
    ensures o.Done? ==> o.graph.nodeCount == g.nodeCount + |ids|
    ensures o.graph.edgeCount == g.edgeCount
    ensures o.Raised? ==> o.error == ValueError
    decreases |ids|
  {
    if ids == [] then Done(g)
    else match AddNode(g, ids[0])
      case Raised(e, h) => Raised(e, h)
      case Done(h) =>
        var o := AddNodes(h, ids[1..]);
        assert ids == [ids[0]] + ids[1..];
        o
  }

  /** The `add_edge` loop. */
  function AddEdges(g: Graph, connections: seq<Connection>): (o: Outcome)
    ensures o.graph.paths.Keys == g.paths.Keys
    ensures o.graph.nodeCount == g.nodeCount
    ensures o.Done? ==> o.graph.edgeCount == g.edgeCount + |connections|
    ensures o.Raised? ==> o.error == ValueError
    decreases |connections|
  {
    if connections == [] then Done(g)
    else
      var c := connections[0];
      match AddEdge(g, c.source, c.target, c.distance)
      case Raised(e, h) => Raised(e, h)
      case Done(h) => AddEdges(h, connections[1..])
  }

  /** The nodes first, then the connections, on the graph handed in. */
  function Build(g: Graph, ids: seq<int>, connections: seq<Connection>): (o: Outcome)
    ensures o.Done? ==> o.graph.paths.Keys == g.paths.Keys + set i | i in ids
    ensures o.Done? ==> o.graph.nodeCount == g.nodeCount + |ids|
    ensures o.Done? ==> o.graph.edgeCount == g.edgeCount + |connections|
    ensures o.Raised? ==> o.error == ValueError
  {
    match AddNodes(g, ids)
    case Raised(e, h) => Raised(e, h)
    case Done(h) => AddEdges(h, connections)
  }

  /** Every endpoint of every connection is among `nodes`. */
  predicate EndpointsIn(connections: seq<Connection>, nodes: set<int>) {
    forall i :: 0 <= i < |connections| ==>
      connections[i].source in nodes && connections[i].target in nodes
  }

  /** Loading fresh, distinct ids succeeds. */
  lemma {:induction false} AddNodesFresh(g: Graph, ids: seq<int>)
    requires forall i, j :: 0 <= i < j < |ids| ==> ids[i] != ids[j]
    requires forall i :: 0 <= i < |ids| ==> !HasNode(g, ids[i])
    ensures AddNodes(g, ids).Done?
    decreases |ids|
  {
    if ids != [] {
      var h := AddNode(g, ids[0]).graph;
      forall i | 0 <= i < |ids[1..]|
        ensures !HasNode(h, ids[1..][i])
      {
        assert ids[1..][i] == ids[i + 1];
      }
      AddNodesFresh(h, ids[1..]);
    }
  }

  /** Conversely, an id that is already a node, or that repeats an earlier id, makes the
      node loop raise. */
  lemma {:induction false} AddNodesRepeated(g: Graph, ids: seq<int>, i: int)
    requires 0 <= i < |ids|
    requires HasNode(g, ids[i]) || exists j :: 0 <= j < i && ids[j] == ids[i]
    ensures AddNodes(g, ids).Raised?
    decreases |ids|
  {
    if i == 0 {
      assert HasNode(g, ids[0]);
    } else if !HasNode(g, ids[0]) {
      var h := AddNode(g, ids[0]).graph;
      assert ids[1..][i - 1] == ids[i];
      if !HasNode(h, ids[i]) {
        var j :| 0 <= j < i && ids[j] == ids[i];
        assert j != 0;
        assert ids[1..][j - 1] == ids[j];
      }
      AddNodesRepeated(h, ids[1..], i - 1);
    }
  }

  /** Loading connections between existing nodes succeeds. */
  lemma {:induction false} AddEdgesKnown(g: Graph, connections: seq<Connection>)
    requires EndpointsIn(connections, g.paths.Keys)
    ensures AddEdges(g, connections).Done?
    decreases |connections|
  {
    if connections != [] {
      var c := connections[0];
      var h := AddEdge(g, c.source, c.target, c.distance).graph;
      assert EndpointsIn(connections[1..], h.paths.Keys) by {
        forall i | 0 <= i < |connections[1..]|
          ensures connections[1..][i].source in h.paths && connections[1..][i].target in h.paths
        {
          assert connections[1..][i] == connections[i + 1];
        }
      }
      AddEdgesKnown(h, connections[1..]);
    }
  }

  /** Conversely, a connection with an endpoint that is not a node makes the connection
      loop raise, whatever its position. */
  lemma {:induction false} AddEdgesUnknown(g: Graph, connections: seq<Connection>, i: int)
    requires 0 <= i < |connections|
    requires connections[i].source !in g.paths || connections[i].target !in g.paths
    ensures AddEdges(g, connections).Raised?
    decreases |connections|
  {
    var c := connections[0];
    if i > 0 && c.source in g.paths && c.target in g.paths {
      var h := AddEdge(g, c.source, c.target, c.distance).graph;
      assert connections[1..][i - 1] == connections[i];
      AddEdgesUnknown(h, connections[1..], i - 1);
    }
  }

  /** Both loops keep the graph valid, whether or not they raise. */
  lemma {:induction false} BuildKeepsValid(g: Graph, ids: seq<int>, connections: seq<Connection>)
    requires Valid(g)
    ensures Valid(Build(g, ids, connections).graph)
  {
    AddNodesKeepValid(g, ids);
    var o := AddNodes(g, ids);
    if o.Done? {
      AddEdgesKeepValid(o.graph, connections);
    }
  }

  lemma {:induction false} AddNodesKeepValid(g: Graph, ids: seq<int>)
    requires Valid(g)
    ensures Valid(AddNodes(g, ids).graph)
    decreases |ids|
  {
    if ids != [] {
      AddNodeKeepsValid(g, ids[0]);
      var o := AddNode(g, ids[0]);
      if o.Done? {
        AddNodesKeepValid(o.graph, ids[1..]);
      }
    }
  }

  lemma {:induction false} AddEdgesKeepValid(g: Graph, connections: seq<Connection>)
    requires Valid(g)
    ensures Valid(AddEdges(g, connections).graph)
    decreases |connections|
  {
    if connections != [] {
      var c := connections[0];
      AddEdgeKeepsValid(g, c.source, c.target, c.distance);
      var o := AddEdge(g, c.source, c.target, c.distance);
      if o.Done? {
        AddEdgesKeepValid(o.graph, connections[1..]);
      }
    }
  }
}
