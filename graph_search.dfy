/** The unweighted searches of `AbstractGraph`: the backtracking depth-first
    search and the queue-based breadth-first search. A null start or target
    vertex is `None`, the null result is `None`. Neither search records the
    vertices it visits in `GPath.visited`, except when start and target are
    equal. */
module GraphSearch {
  import opened Wrappers
  import opened Graphs

  /** `depthFirstSearchRecursive`: visits `current`, appends it to the path and
      tries its unvisited neighbours in turn. On success the path has been
      extended by a repetition-free route from `current` to `target` through
      newly visited vertices; on failure the path is as it was, `target` was
      not met and the newly visited part is closed under neighbours. The
      source's shared visited set is passed in and handed back. */
  method DepthFirstSearchRecursive<V(!new)>(g: Graph<V>, current: V, target: V, visited: set<V>, path: GPath<V>)
    returns (found: bool, visited': set<V>)
    requires current !in visited && target !in visited
    modifies path`vertices
    ensures visited + {current} <= visited'
    ensures found ==> |path.vertices| > |old(path.vertices)| && path.vertices[..|old(path.vertices)|] == old(path.vertices)
    ensures found ==> Route(g, path.vertices[|old(path.vertices)|..], current, target, visited, visited')
    ensures !found ==> path.vertices == old(path.vertices) && target !in visited'
    ensures !found ==> forall u, n :: u in visited' - visited && Edge(g, u, n) ==> n in visited'
    decreases (Vertices(g) + {current}) - visited
  {
    visited' := visited + {current};
    path.AddVertex(current);
    ghost var start := path.vertices;
    if current == target {
      assert path.vertices[|old(path.vertices)|..] == [current];
      return true, visited';
    }
    var neighbours := Neighbours(g, current);
    var i := 0;
    while i < |neighbours|
      invariant 0 <= i <= |neighbours|
      invariant path.vertices == start
      invariant visited + {current} <= visited' && target !in visited'
      invariant forall j :: 0 <= j < i ==> neighbours[j] in visited'
      invariant forall u, n :: u in visited' - visited && u != current && Edge(g, u, n) ==> n in visited'
    {
      var neighbour := neighbours[i];
      if neighbour !in visited' {
        EdgeEndsInGraph(g, current, neighbour);
        assert (Vertices(g) + {neighbour}) - visited' < (Vertices(g) + {current}) - visited by {
          assert current in (Vertices(g) + {current}) - visited;
        }
        ghost var before := visited';
        found, visited' := DepthFirstSearchRecursive(g, neighbour, target, visited', path);
        if found {
          RouteExtend(g, old(path.vertices), start, path.vertices, current, neighbour, target, visited, before, visited');
          return;
        }
      }
      i := i + 1;
    }
    path.RemoveLastVertex();
    assert path.vertices == (path.vertices + [current])[..|path.vertices|] == start[..|start| - 1];
    assert start[..|start| - 1] == old(path.vertices);
    found := false;
  }

  /** A repetition-free path from `a` to `b` through vertices that a search
      visited between the sets `visited` and `visited'`. */
  ghost predicate Route<V>(g: Graph<V>, ext: seq<V>, a: V, b: V, visited: set<V>, visited': set<V>) {
    && IsPathFromTo(g, ext, a, b) && Distinct(ext)
    && forall k :: 0 <= k < |ext| ==> ext[k] in visited' && ext[k] !in visited
  }

  /** A route found from a neighbour, with `current` put in front, is a route
      from `current`. */
  lemma RouteExtend<V>(g: Graph<V>, p0: seq<V>, p1: seq<V>, p2: seq<V>, current: V, neighbour: V, target: V,
                       visited: set<V>, before: set<V>, after: set<V>)
    requires p1 == p0 + [current] && Edge(g, current, neighbour)
    requires current !in visited && visited + {current} <= before <= after
    requires |p2| > |p1| && p2[..|p1|] == p1
    requires Route(g, p2[|p1|..], neighbour, target, before, after)
    ensures |p2| > |p0| && p2[..|p0|] == p0
    ensures Route(g, p2[|p0|..], current, target, visited, after)
  {
    var sub := p2[|p1|..];
    var ext := p2[|p0|..];
    assert ext == [current] + sub;
    assert p2[..|p0|] == p1[..|p0|];
    forall k | 0 < k < |ext| ensures Edge(g, ext[k - 1], ext[k]) {
      if k > 1 {
        assert ext[k - 1] == sub[k - 2] && ext[k] == sub[k - 1];
      }
    }
    DistinctConcat([current], sub);
    forall k | 0 <= k < |ext| ensures ext[k] in after && ext[k] !in visited {
      if k > 0 {
        assert ext[k] == sub[k - 1];
      }
    }
  }

  /** `depthFirstSearch(start, target)`. */
  method DepthFirstSearch<V(!new)>(g: Graph<V>, startVertex: Option<V>, targetVertex: Option<V>)
    returns (r: Option<GPath<V>>)
    ensures startVertex.None? || targetVertex.None? ==> r.None?
    ensures r.Some? ==> fresh(r.value)
    ensures startVertex.Some? && targetVertex.Some? && startVertex.value == targetVertex.value ==>
              r.Some? && r.value.vertices == [startVertex.value] && r.value.visited == {startVertex.value}
    ensures r.Some? ==>
              && startVertex.Some? && targetVertex.Some?
              && IsPathFromTo(g, r.value.vertices, startVertex.value, targetVertex.value)
              && Distinct(r.value.vertices) && r.value.totalWeight == 0
    ensures r.Some? && startVertex.value != targetVertex.value ==> r.value.visited == {}
    ensures startVertex.Some? && targetVertex.Some? ==>
              (r.Some? <==> Reachable(g, startVertex.value, targetVertex.value))
  {
    if startVertex.None? || targetVertex.None? {
      return None;
    }
    var start, target := startVertex.value, targetVertex.value;
    var path := new GPath();
    if start == target {
      path.AddVertex(start);
      path.visited := path.visited + {start};
      ReachableFromItself(g, start);
      return Some(path);
    }
    var found, visited := DepthFirstSearchRecursive(g, start, target, {}, path);
    if found {
      assert path.vertices[0..] == path.vertices;
      r := Some(path);
    } else {
      if Reachable(g, start, target) {
        ClosedContainsReachable(g, visited, start, target);
        assert false;
      }
      r := None;
    }
  }

  /** The inner loop of `breadthFirstSearch`: every neighbour of `current` not
      yet marked visited is marked and put at the back of the queue. `done` is
      the path so far, which ends with `current`. */
  method EnqueueNeighbours<V(!new)>(g: Graph<V>, start: V, current: V, ghost done: seq<V>, queue: seq<V>, visited: set<V>)
    returns (queue': seq<V>, visited': set<V>)
    requires current in visited
    requires Distinct(done + queue)
    requires forall u :: u in visited <==> u in done || u in queue
    requires visited <= Vertices(g) + {start}
    requires forall u :: u in visited ==> Reachable(g, start, u)
    ensures Distinct(done + queue')
    ensures forall u :: u in visited' <==> u in done || u in queue'
    ensures visited <= visited' <= Vertices(g) + {start}
    ensures forall u :: u in visited' ==> Reachable(g, start, u)
    ensures forall n :: Edge(g, current, n) ==> n in visited'
  {
    var neighbours := Neighbours(g, current);
    queue', visited' := queue, visited;
    var i := 0;
    while i < |neighbours|
      invariant 0 <= i <= |neighbours|
      invariant Distinct(done + queue')
      invariant forall u :: u in visited' <==> u in done || u in queue'
      invariant visited <= visited' <= Vertices(g) + {start}
      invariant forall u :: u in visited' ==> Reachable(g, start, u)
      invariant forall j :: 0 <= j < i ==> neighbours[j] in visited'
    {
      var neighbour := neighbours[i];
      if neighbour !in visited' {
        EdgeEndsInGraph(g, current, neighbour);
        ReachableStep(g, start, current, neighbour);
        DistinctConcat(done + queue', [neighbour]);
        assert done + (queue' + [neighbour]) == (done + queue') + [neighbour];
        visited' := visited' + {neighbour};
        queue' := queue' + [neighbour];
      }
      i := i + 1;
    }
  }

  /** `breadthFirstSearch(start, target)`: the result's vertices are the order
      in which the search took vertices off its queue (not, in general, a route
      along edges): they begin with the start vertex, end with the target, are
      pairwise distinct and all reachable from the start. */
  method BreadthFirstSearch<V(!new)>(g: Graph<V>, startVertex: Option<V>, targetVertex: Option<V>)
    returns (r: Option<GPath<V>>)
    ensures startVertex.None? || targetVertex.None? ==> r.None?
    ensures r.Some? ==> fresh(r.value)
    ensures startVertex.Some? && targetVertex.Some? && startVertex.value == targetVertex.value ==>
              r.Some? && r.value.vertices == [startVertex.value] && r.value.visited == {startVertex.value}
    ensures r.Some? ==>
              && startVertex.Some? && targetVertex.Some? && |r.value.vertices| >= 1
              && r.value.vertices[0] == startVertex.value
              && r.value.vertices[|r.value.vertices| - 1] == targetVertex.value
              && Distinct(r.value.vertices) && r.value.totalWeight == 0
              && forall k :: 0 <= k < |r.value.vertices| ==> Reachable(g, startVertex.value, r.value.vertices[k])
    ensures r.Some? && startVertex.value != targetVertex.value ==> r.value.visited == {}
    ensures startVertex.Some? && targetVertex.Some? ==>
              (r.Some? <==> Reachable(g, startVertex.value, targetVertex.value))
  {
    if startVertex.None? || targetVertex.None? {
      return None;
    }
    var start, target := startVertex.value, targetVertex.value;
    var path := new GPath();
    ReachableFromItself(g, start);
    if start == target {
      path.AddVertex(start);
      path.visited := path.visited + {start};
      return Some(path);
    }
    var queue := [start];
    var visitedVertices := {start};
    while queue != []
      invariant fresh(path) && path.visited == {} && path.totalWeight == 0
      invariant Distinct(path.vertices + queue)
      invariant forall u :: u in visitedVertices <==> u in path.vertices || u in queue
      invariant visitedVertices <= Vertices(g) + {start}
      invariant forall u :: u in visitedVertices ==> Reachable(g, start, u)
      invariant path.vertices == [] ==> queue == [start]
      invariant path.vertices != [] ==> path.vertices[0] == start
      invariant target !in path.vertices
      invariant forall u, n :: u in path.vertices && Edge(g, u, n) ==> n in visitedVertices
      decreases (Vertices(g) + {start}) - Elements(path.vertices)
    {
      var current := queue[0];
      ghost var oldPath := path.vertices;
      assert oldPath + queue == (oldPath + [current]) + queue[1..];
      assert current !in oldPath by {
        forall k | 0 <= k < |oldPath| ensures oldPath[k] != current {
          assert (oldPath + queue)[k] == oldPath[k] && (oldPath + queue)[|oldPath|] == current;
        }
      }
      assert current in visitedVertices;
      queue := queue[1..];
      path.AddVertex(current);
      assert Elements(path.vertices) == Elements(oldPath) + {current};
      if current == target {
        assert Distinct(path.vertices) by {
          assert (path.vertices + queue)[..|path.vertices|] == path.vertices;
        }
        forall k | 0 <= k < |path.vertices| ensures Reachable(g, start, path.vertices[k]) {
          assert path.vertices[k] in visitedVertices;
        }
        return Some(path);
      }
      queue, visitedVertices := EnqueueNeighbours(g, start, current, path.vertices, queue, visitedVertices);
    }
    assert Closed(g, visitedVertices);
    if Reachable(g, start, target) {
      ClosedContainsReachable(g, visitedVertices, start, target);
      assert false;
    }
    return None;
  }
}
