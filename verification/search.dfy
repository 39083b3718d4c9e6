/**
 * `Graph.find_shortest_path`: an exhaustive depth-first search over simple paths.
 *
 * At each node the search asks every unvisited neighbour, in adjacency order, for
 * its own best route to the end, keeps the first one with the strictly smallest
 * remaining distance, and only then adds the weight of the edge to that neighbour.
 * It is therefore not a shortest-path algorithm: the weight of the first edge plays
 * no part in the choice. Each call works on its own copy of the visited set.
 */
module PathSearch {
  import opened Graphs
  import OM = OrderedMaps

  /** The distance the search starts from, and reports when it finds no route (`10**6`). */
  const Unreachable: int := 1000000

  /** Python's `any` on a list of ints: some element is non-zero. */
  predicate AnyNonZero(p: seq<int>) {
    exists i :: 0 <= i < |p| && p[i] != 0
  }

  /** Marking a node visited leaves fewer nodes to visit, or leaves the set as it was. */
  lemma MarkVisited(nodes: set<int>, visited: set<int>, curr: int)
    requires curr in nodes
    ensures curr in visited ==> visited + {curr} == visited
    ensures curr !in visited ==> |nodes - (visited + {curr})| < |nodes - visited|
  {
    if curr !in visited {
      assert nodes - (visited + {curr}) == (nodes - visited) - {curr};
    }
  }

  /** `find_shortest_path(curr, end, visited)`: the route found and its weight. Reaching
      `end` stops at once, even when `end` is not a node; otherwise an unknown `curr` is a
      `KeyError`, the only exception modelled; CPython's recursion limit is not. */
  function Search(g: Graph, curr: int, end: int, visited: set<int>): (r: Result<(seq<int>, int)>)
    ensures curr == end ==> r == Ok(([end], 0))
    ensures curr != end && curr !in g.paths ==> r == Err(KeyError)
    ensures r.Err? ==> r.error == KeyError
    decreases |g.paths.Keys - visited|, if curr in visited then 2 else 0, 0
  {
    if curr == end then Ok(([end], 0))
    else if curr !in g.paths then Err(KeyError)
    else
      var seen := visited + {curr};
      MarkVisited(g.paths.Keys, visited, curr);
      match Scan(g, curr, end, seen, g.paths[curr].keys, [], Unreachable)
      case Err(e) => Err(e)
      case Ok((path, dis)) =>
        if AnyNonZero(path) then
          match GetEdgeWeight(g, curr, path[0])
          case Err(e) => Err(e)
          case Ok(w) => Ok(([curr] + path, dis + w))
        else Ok((path, dis))
  }

  /** The `for node in self.paths[curr]` loop over the neighbours still to visit, `ns`,
      carrying the best route `path` and distance `dis` found so far. The distance never
      grows, and a later route replaces the carried one only when strictly lighter, so on
      a tie the first route found is kept. */
  function Scan(g: Graph, curr: int, end: int, seen: set<int>, ns: seq<int>, path: seq<int>, dis: int)
    : (r: Result<(seq<int>, int)>)
    ensures r.Ok? ==> r.value.1 <= dis
    ensures r.Ok? && r.value.1 == dis ==> r.value.0 == path
    ensures r.Err? ==> r.error == KeyError
    decreases |g.paths.Keys - seen|, 1, |ns|
  {
    if ns == [] then Ok((path, dis))
    else
      var node := ns[0];
      if node in seen then Scan(g, curr, end, seen, ns[1..], path, dis)
      else match Search(g, node, end, seen)
        case Err(e) => Err(e)
        case Ok((newPath, newDis)) =>
          if newDis < dis then Scan(g, curr, end, seen, ns[1..], newPath, newDis)
          else Scan(g, curr, end, seen, ns[1..], path, dis)
  }

  /** `find_shortest_path(start, end)` with the default, empty visited set. */
  function FindShortestPath(g: Graph, start: int, end: int): (r: Result<(seq<int>, int)>)
    ensures start == end ==> r == Ok(([start], 0))
    ensures start != end && !HasNode(g, start) ==> r == Err(KeyError)
  {
    Search(g, start, end, {})
  }

  /** Consecutive ids of `p` are joined by an edge. */
  predicate IsRoute(g: Graph, p: seq<int>) {
    forall i :: 0 <= i < |p| - 1 ==> HasEdge(g, p[i], p[i + 1])
  }

  /** The sum of the edge weights along a route. */
  function PathWeight(g: Graph, p: seq<int>): int
    requires IsRoute(g, p)
    decreases |p|
  {
    if |p| <= 1 then 0
    else
      assert IsRoute(g, p[1..]) by {
        forall i | 0 <= i < |p[1..]| - 1
          ensures HasEdge(g, p[1..][i], p[1..][i + 1])
        {
          assert HasEdge(g, p[i + 1], p[i + 2]);
        }
      }
      Weight(g, p[0], p[1]) + PathWeight(g, p[1..])
  }

  /** `p` is a route from `start` to `end` that visits no id twice. */
  predicate SimpleRoute(g: Graph, p: seq<int>, start: int, end: int) {
    && p != []
    && p[0] == start
    && p[|p| - 1] == end
    && IsRoute(g, p)
    && OM.Distinct(p)
  }

  /** What a search from `curr` may return when `end` is not 0: no route, with the
      sentinel distance, or a simple route to `end` whose later ids avoid `visited`,
      with its weight. */
  ghost predicate Found(g: Graph, curr: int, end: int, visited: set<int>, p: seq<int>, d: int) {
    || (p == [] && d == Unreachable)
    || (&& SimpleRoute(g, p, curr, end)
        && (forall i :: 1 <= i < |p| ==> p[i] !in visited)
        && d == PathWeight(g, p))
  }

  /** The best candidate the neighbour loop holds: none yet, or a route that avoids
      `seen` entirely, lighter than the sentinel. */
  ghost predicate Candidate(g: Graph, end: int, seen: set<int>, p: seq<int>, d: int) {
    || (p == [] && d == Unreachable)
    || (&& p != []
        && SimpleRoute(g, p, p[0], end)
        && (forall i :: 0 <= i < |p| ==> p[i] !in seen)
        && d == PathWeight(g, p)
        && d < Unreachable)
  }

  lemma RouteCons(g: Graph, curr: int, p: seq<int>)
    requires IsRoute(g, p) && p != [] && HasEdge(g, curr, p[0])
    ensures IsRoute(g, [curr] + p)
    ensures PathWeight(g, [curr] + p) == Weight(g, curr, p[0]) + PathWeight(g, p)
  {
    var q := [curr] + p;
    assert q[1..] == p;
    forall i | 0 <= i < |q| - 1
      ensures HasEdge(g, q[i], q[i + 1])
    {
      if i > 0 {
        assert q[i] == p[i - 1] && q[i + 1] == p[i];
      }
    }
  }

  /** A search towards a non-zero end returns no route or a genuine one (mutually
      with `ScanFinds`). */
  lemma {:induction false} SearchFinds(g: Graph, curr: int, end: int, visited: set<int>)
    requires end != 0
    requires Search(g, curr, end, visited).Ok?
    ensures var (p, d) := Search(g, curr, end, visited).value; Found(g, curr, end, visited, p, d)
    decreases |g.paths.Keys - visited|, if curr in visited then 2 else 0, 0
  {
    if curr != end {
      assert curr in g.paths;
      var seen := visited + {curr};
      MarkVisited(g.paths.Keys, visited, curr);
      var ns := g.paths[curr].keys;
      ScanFinds(g, curr, end, seen, ns, [], Unreachable);
      var (path, dis) := Scan(g, curr, end, seen, ns, [], Unreachable).value;
      if path != [] {
        assert AnyNonZero(path) by {
          assert path[|path| - 1] != 0;
        }
        RouteCons(g, curr, path);
        var q := [curr] + path;
        assert q[1..] == path;
        forall i, j | 0 <= i < j < |q|
          ensures q[i] != q[j]
        {
          assert q[j] == path[j - 1];
          if i > 0 {
            assert q[i] == path[i - 1];
          }
        }
      }
    }
  }

  lemma {:induction false} ScanFinds(g: Graph, curr: int, end: int, seen: set<int>, ns: seq<int>, path: seq<int>, dis: int)
    requires end != 0
    requires Candidate(g, end, seen, path, dis)
    requires Scan(g, curr, end, seen, ns, path, dis).Ok?
    ensures var (p, d) := Scan(g, curr, end, seen, ns, path, dis).value; Candidate(g, end, seen, p, d)
    decreases |g.paths.Keys - seen|, 1, |ns|
  {
    if ns != [] {
      var node := ns[0];
      if node in seen {
        ScanFinds(g, curr, end, seen, ns[1..], path, dis);
      } else {
        SearchFinds(g, node, end, seen);
        var (newPath, newDis) := Search(g, node, end, seen).value;
        if newDis < dis {
          ScanFinds(g, curr, end, seen, ns[1..], newPath, newDis);
        } else {
          ScanFinds(g, curr, end, seen, ns[1..], path, dis);
        }
      }
    }
  }

  /** A search towards 0 can only return `([], 10**6)` or `([0], 0)`: `any([0])` is
      false, so the route found is never extended back to the start (mutually with
      `ScanToZero`). */
  lemma {:induction false} SearchToZero(g: Graph, curr: int, visited: set<int>)
    requires Search(g, curr, 0, visited).Ok?
    ensures Search(g, curr, 0, visited).value in {([], Unreachable), ([0], 0)}
    decreases |g.paths.Keys - visited|, if curr in visited then 2 else 0, 0
  {
    if curr != 0 {
      assert curr in g.paths;
      var seen := visited + {curr};
      MarkVisited(g.paths.Keys, visited, curr);
      var ns := g.paths[curr].keys;
      ScanToZero(g, curr, seen, ns, [], Unreachable);
      var (path, dis) := Scan(g, curr, 0, seen, ns, [], Unreachable).value;
      assert !AnyNonZero(path);
    }
  }

  lemma {:induction false} ScanToZero(g: Graph, curr: int, seen: set<int>, ns: seq<int>, path: seq<int>, dis: int)
    requires (path, dis) in {([], Unreachable), ([0], 0)}
    requires Scan(g, curr, 0, seen, ns, path, dis).Ok?
    ensures Scan(g, curr, 0, seen, ns, path, dis).value in {([], Unreachable), ([0], 0)}
    decreases |g.paths.Keys - seen|, 1, |ns|
  {
    if ns != [] {
      var node := ns[0];
      if node in seen {
        ScanToZero(g, curr, seen, ns[1..], path, dis);
      } else {
        SearchToZero(g, node, seen);
        var (newPath, newDis) := Search(g, node, 0, seen).value;
        if newDis < dis {
          ScanToZero(g, curr, seen, ns[1..], newPath, newDis);
        } else {
          ScanToZero(g, curr, seen, ns[1..], path, dis);
        }
      }
    }
  }

  /** On a valid graph the search raises nothing once its start is a node (or the end):
      every neighbour it recurses into is a node, and the edge it finally weighs is the
      one to the neighbour it chose (mutually with `ScanSucceeds`). */
  lemma {:induction false} SearchSucceeds(g: Graph, curr: int, end: int, visited: set<int>)
    requires Valid(g)
    requires curr == end || HasNode(g, curr)
    ensures Search(g, curr, end, visited).Ok?
    ensures var p := Search(g, curr, end, visited).value.0; AnyNonZero(p) ==> p[0] == curr
    decreases |g.paths.Keys - visited|, if curr in visited then 2 else 0, 0
  {
    if curr != end {
      assert curr in g.paths;
      var seen := visited + {curr};
      MarkVisited(g.paths.Keys, visited, curr);
      var ns := g.paths[curr].keys;
      assert OM.Valid(g.paths[curr]);
      ScanSucceeds(g, curr, end, seen, ns, [], Unreachable);
    }
  }

  lemma {:induction false} ScanSucceeds(g: Graph, curr: int, end: int, seen: set<int>, ns: seq<int>, path: seq<int>, dis: int)
    requires Valid(g)
    requires forall n :: n in ns ==> HasEdge(g, curr, n)
    requires AnyNonZero(path) ==> HasEdge(g, curr, path[0])
    ensures Scan(g, curr, end, seen, ns, path, dis).Ok?
    ensures var p := Scan(g, curr, end, seen, ns, path, dis).value.0; AnyNonZero(p) ==> HasEdge(g, curr, p[0])
    decreases |g.paths.Keys - seen|, 1, |ns|
  {
    if ns != [] {
      var node := ns[0];
      assert node in ns;
      forall n | n in ns[1..]
        ensures HasEdge(g, curr, n)
      {
        assert n in ns;
      }
      if node in seen {
        ScanSucceeds(g, curr, end, seen, ns[1..], path, dis);
      } else {
        assert HasEdge(g, node, curr);
        SearchSucceeds(g, node, end, seen);
        var (newPath, newDis) := Search(g, node, end, seen).value;
        if newDis < dis {
          ScanSucceeds(g, curr, end, seen, ns[1..], newPath, newDis);
        } else {
          ScanSucceeds(g, curr, end, seen, ns[1..], path, dis);
        }
      }
    }
  }

  /** On a valid graph `find_shortest_path` raises exactly when the start is neither the
      end nor a node. */
  lemma FindShortestPathRaises(g: Graph, start: int, end: int)
    requires Valid(g)
    ensures FindShortestPath(g, start, end).Err? <==> start != end && !HasNode(g, start)
  {
    if start == end || HasNode(g, start) {
      SearchSucceeds(g, start, end, {});
    }
  }

  /** For a non-zero end, `find_shortest_path` returns `([], 10**6)` or a simple route
      from start to end together with the sum of its edge weights. */
  lemma FindShortestPathRoute(g: Graph, start: int, end: int)
    requires end != 0
    requires FindShortestPath(g, start, end).Ok?
    ensures var (p, d) := FindShortestPath(g, start, end).value;
      || (p == [] && d == Unreachable)
      || (SimpleRoute(g, p, start, end) && d == PathWeight(g, p))
  {
    SearchFinds(g, start, end, {});
  }

  /** For end 0 the `any(path)` guard never lets a route grow: the answer is `([], 10**6)`
      or `([0], 0)`, whatever the start. */
  lemma FindShortestPathToZero(g: Graph, start: int)
    requires FindShortestPath(g, start, 0).Ok?
    ensures FindShortestPath(g, start, 0).value in {([], Unreachable), ([0], 0)}
  {
    SearchToZero(g, start, {});
  }

  /** Some simple route leads from `curr` to 0 and its later ids avoid `visited`. */
  ghost predicate ReachesZero(g: Graph, curr: int, visited: set<int>) {
    exists p :: SimpleRoute(g, p, curr, 0) && forall i :: 1 <= i < |p| ==> p[i] !in visited
  }

  /** Some neighbour of `curr` starts a simple route to 0 that avoids `seen` entirely. */
  ghost predicate NeighbourReachesZero(g: Graph, curr: int, seen: set<int>) {
    exists q :: q != [] && HasEdge(g, curr, q[0]) && SimpleRoute(g, q, q[0], 0)
      && forall i :: 0 <= i < |q| ==> q[i] !in seen
  }

  /** The `([0], 0)` answer of a search towards 0 is never invented: a simple route to 0
      exists behind it (mutually with `ScanReachesZero`). */
  lemma {:induction false} SearchReachesZero(g: Graph, curr: int, visited: set<int>)
    requires Valid(g)
    ensures Search(g, curr, 0, visited) == Ok(([0], 0)) ==> ReachesZero(g, curr, visited)
    decreases |g.paths.Keys - visited|, if curr in visited then 2 else 0, 0
  {
    if curr == 0 {
      assert SimpleRoute(g, [0], 0, 0);
    } else if curr in g.paths {
      var seen := visited + {curr};
      MarkVisited(g.paths.Keys, visited, curr);
      var ns := g.paths[curr].keys;
      forall n | n in ns
        ensures HasEdge(g, curr, n)
      {
        assert OM.Valid(g.paths[curr]);
      }
      ScanReachesZero(g, curr, seen, ns, [], Unreachable);
      if Search(g, curr, 0, visited) == Ok(([0], 0)) {
        ZeroFromScan(g, curr, visited);
      }
    }
  }

  /** The `([0], 0)` answer of a search from a node other than 0 is the neighbour loop's
      own answer, since `any([0])` is false; a route to 0 behind the loop's answer thus
      extends to one from `curr`. */
  lemma ZeroFromScan(g: Graph, curr: int, visited: set<int>)
    requires curr != 0 && curr in g.paths
    requires Search(g, curr, 0, visited) == Ok(([0], 0))
    requires var seen := visited + {curr};
      Scan(g, curr, 0, seen, g.paths[curr].keys, [], Unreachable) == Ok(([0], 0)) ==>
        NeighbourReachesZero(g, curr, seen)
    ensures ReachesZero(g, curr, visited)
  {
    var seen := visited + {curr};
    var ns := g.paths[curr].keys;
    var (path, dis) := Scan(g, curr, 0, seen, ns, [], Unreachable).value;
    ScanToZero(g, curr, seen, ns, [], Unreachable);
    assert !AnyNonZero(path);
    ExtendToZero(g, curr, visited, seen);
  }

  /** A step from `curr`, itself in `seen`, onto a neighbour's route to 0 that avoids
      `seen` is again a simple route to 0. */
  lemma ExtendToZero(g: Graph, curr: int, visited: set<int>, seen: set<int>)
    requires curr in seen && visited <= seen
    requires NeighbourReachesZero(g, curr, seen)
    ensures ReachesZero(g, curr, visited)
  {
    var q :| q != [] && HasEdge(g, curr, q[0]) && SimpleRoute(g, q, q[0], 0)
      && forall i :: 0 <= i < |q| ==> q[i] !in seen;
    RouteCons(g, curr, q);
    var p := [curr] + q;
    assert p[1..] == q;
    forall i, j | 0 <= i < j < |p|
      ensures p[i] != p[j]
    {
      assert p[j] == q[j - 1];
      if i > 0 {
        assert p[i] == q[i - 1];
      }
    }
    assert forall i :: 1 <= i < |p| ==> p[i] == q[i - 1];
    assert SimpleRoute(g, p, curr, 0);
  }

  lemma {:induction false} ScanReachesZero(g: Graph, curr: int, seen: set<int>, ns: seq<int>, path: seq<int>, dis: int)
    requires Valid(g)
    requires forall n :: n in ns ==> HasEdge(g, curr, n)
    requires (path, dis) == ([0], 0) ==> NeighbourReachesZero(g, curr, seen)
    ensures Scan(g, curr, 0, seen, ns, path, dis) == Ok(([0], 0)) ==> NeighbourReachesZero(g, curr, seen)
    decreases |g.paths.Keys - seen|, 1, |ns|
  {
    if ns != [] {
      var node := ns[0];
      assert node in ns;
      forall n | n in ns[1..]
        ensures HasEdge(g, curr, n)
      {
        assert n in ns;
      }
      if node in seen {
        ScanReachesZero(g, curr, seen, ns[1..], path, dis);
      } else {
        SearchReachesZero(g, node, seen);
        match Search(g, node, 0, seen)
        case Err(_) =>
        case Ok((newPath, newDis)) =>
          if newDis < dis {
            if (newPath, newDis) == ([0], 0) {
              var p :| SimpleRoute(g, p, node, 0) && forall i :: 1 <= i < |p| ==> p[i] !in seen;
              assert p[0] == node;
              assert forall i :: 0 <= i < |p| ==> p[i] !in seen;
            }
            ScanReachesZero(g, curr, seen, ns[1..], newPath, newDis);
          } else {
            ScanReachesZero(g, curr, seen, ns[1..], path, dis);
          }
      }
    }
  }

  /** When no simple route joins a start node to the end, the search reports the
      sentinel; for end 0 this rests on the `([0], 0)` answer never being invented. */
  lemma NoRouteIsUnreachable(g: Graph, start: int, end: int)
    requires Valid(g) && HasNode(g, start)
    requires forall p :: !SimpleRoute(g, p, start, end)
    ensures FindShortestPath(g, start, end) == Ok(([], Unreachable))
  {
    SearchSucceeds(g, start, end, {});
    if end == 0 {
      SearchToZero(g, start, {});
      SearchReachesZero(g, start, {});
    } else {
      FindShortestPathRoute(g, start, end);
    }
  }
}
