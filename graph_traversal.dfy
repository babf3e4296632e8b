/** The two whole-subgraph walks of `AbstractGraph`: `getAllVertices` collects
    every vertex reachable from a start vertex, and `formatAdjacencyList` renders
    the adjacency list of that subgraph in pre-order, each vertex's neighbours
    sorted by their string form. The recursive helpers of the source add to
    shared sets and a `StringBuilder`; here each helper takes the current value
    of what it extends and returns the extended value. */
module GraphTraversal {
  import opened Graphs
  import Ordering
  import Strings

  /** `getAllVerticesRecursive`: adds `current` and, depth first, everything
      reachable from it that is not yet visited. `visited` and `all` are the
      source's two sets, which always hold the same vertices. */
  method GetAllVerticesRecursive<V(!new)>(g: Graph<V>, current: V, visited: set<V>, all: set<V>)
    returns (visited': set<V>, all': set<V>)
    requires visited == all
    ensures visited' == all'
    ensures visited + {current} <= visited'
    ensures forall u :: u in visited' - visited ==> Reachable(g, current, u)
    ensures forall u, n :: u in visited' - visited && Edge(g, u, n) ==> n in visited'
    decreases (Vertices(g) + {current}) - visited
  {
    visited', all' := visited, all;
    if current !in visited' {
      visited' := visited' + {current};
      all' := all' + {current};
      ReachableFromItself(g, current);
      var neighbours := Neighbours(g, current);
      var i := 0;
      while i < |neighbours|
        invariant 0 <= i <= |neighbours|
        invariant visited' == all'
        invariant visited + {current} <= visited'
        invariant forall j :: 0 <= j < i ==> neighbours[j] in visited'
        invariant forall u :: u in visited' - visited ==> Reachable(g, current, u)
        invariant forall u, n :: u in visited' - visited && u != current && Edge(g, u, n) ==> n in visited'
      {
        var neighbour := neighbours[i];
        EdgeEndsInGraph(g, current, neighbour);
        assert (Vertices(g) + {neighbour}) - visited' < (Vertices(g) + {current}) - visited by {
          assert current in (Vertices(g) + {current}) - visited;
        }
        ghost var before := visited';
        visited', all' := GetAllVerticesRecursive(g, neighbour, visited', all');
        forall u | u in visited' - before ensures Reachable(g, current, u) {
          ReachableThrough(g, current, neighbour, u);
        }
        i := i + 1;
      }
    }
  }

  /** `getAllVertices(firstVertex)`: exactly the vertices reachable from
      `firstVertex`, itself included. */
  method GetAllVertices<V(!new)>(g: Graph<V>, firstVertex: V) returns (r: set<V>)
    ensures forall u :: u in r <==> Reachable(g, firstVertex, u)
    ensures firstVertex in r && Closed(g, r)
  {
    var visited, all := GetAllVerticesRecursive(g, firstVertex, {}, {});
    r := all;
    forall u | Reachable(g, firstVertex, u) ensures u in r {
      ClosedContainsReachable(g, r, firstVertex, u);
    }
  }

  /** The comparator `Comparator.comparing(Object::toString)`. */
  function ByName<V>(name: V -> string): (V, V) -> int {
    (a, b) => Strings.CompareStrings(name(a), name(b))
  }

  lemma ByNameIsComparator<V(!new)>(name: V -> string)
    ensures Ordering.IsComparator(ByName(name))
  {
    var cmp := ByName(name);
    Strings.StringOrderIsComparator();
    var s := Strings.StringOrder();
    forall a, b ensures Ordering.Sign(cmp(a, b)) == -Ordering.Sign(cmp(b, a)) {
      assert cmp(a, b) == s(name(a), name(b)) && cmp(b, a) == s(name(b), name(a));
    }
    forall a, b, c ensures Ordering.Transitive(cmp, a, b, c) {
      assert Ordering.Transitive(s, name(a), name(b), name(c));
    }
  }

  /** The neighbours of `u` as the source renders and visits them: the
      iteration order stably sorted by string form. */
  function SortedNeighbours<V>(g: Graph<V>, name: V -> string, u: V): seq<V> {
    Ordering.Sort(Neighbours(g, u), ByName(name))
  }

  /** The sorted neighbour list is a permutation of the neighbours... */
  lemma SortedNeighboursPermutation<V>(g: Graph<V>, name: V -> string, u: V)
    ensures multiset(SortedNeighbours(g, name, u)) == multiset(Neighbours(g, u))
  {
  }

  /** ...so it lists exactly the neighbours... */
  lemma SortedNeighboursMembers<V>(g: Graph<V>, name: V -> string, u: V)
    ensures forall n :: n in SortedNeighbours(g, name, u) <==> Edge(g, u, n)
  {
    SortedNeighboursPermutation(g, name, u);
    forall n ensures n in SortedNeighbours(g, name, u) <==> Edge(g, u, n) {
      assert n in SortedNeighbours(g, name, u) <==> n in multiset(SortedNeighbours(g, name, u));
      assert n in Neighbours(g, u) <==> n in multiset(Neighbours(g, u));
    }
  }

  /** ...ordered by string form. */
  lemma SortedNeighboursOrdered<V(!new)>(g: Graph<V>, name: V -> string, u: V)
    ensures forall i, j :: 0 <= i < j < |SortedNeighbours(g, name, u)| ==>
              Strings.CompareStrings(name(SortedNeighbours(g, name, u)[i]), name(SortedNeighbours(g, name, u)[j])) <= 0
  {
    ByNameIsComparator(name);
    Ordering.SortIsSorted(Neighbours(g, u), ByName(name));
    var s := SortedNeighbours(g, name, u);
    forall i, j | 0 <= i < j < |s| ensures Strings.CompareStrings(name(s[i]), name(s[j])) <= 0 {
      assert ByName(name)(s[i], s[j]) <= 0;
    }
  }

  function Names<V>(name: V -> string, ns: seq<V>): (r: seq<string>)
    ensures |r| == |ns| && forall i :: 0 <= i < |ns| ==> r[i] == name(ns[i])
  {
    seq(|ns|, i requires 0 <= i < |ns| => name(ns[i]))
  }

  /** The names of `ns` with a comma between each pair and none after the last. */
  function NeighbourList<V>(name: V -> string, ns: seq<V>): string {
    if ns == [] then "" else Strings.JoinWithCommas(Names(name, ns))
  }

  /** The line `formatAdjacencyListRecursive` writes for vertex `u`. */
  function AdjacencyLine<V>(g: Graph<V>, name: V -> string, u: V): string {
    name(u) + ": [" + NeighbourList(name, SortedNeighbours(g, name, u)) + "]\n"
  }

  /** `f` of each element of `s`, one after another. */
  function ConcatMap<V>(f: V -> string, s: seq<V>): string {
    if s == [] then "" else ConcatMap(f, s[..|s| - 1]) + f(s[|s| - 1])
  }

  lemma {:induction false} ConcatMapAppend<V>(f: V -> string, a: seq<V>, b: seq<V>)
    ensures ConcatMap(f, a + b) == ConcatMap(f, a) + ConcatMap(f, b)
  {
    if b == [] {
      assert a + b == a;
    } else {
      var b' := b[..|b| - 1];
      ConcatMapAppend(f, a, b');
      assert (a + b)[..|a + b| - 1] == a + b';
      ConcatAssociative(ConcatMap(f, a), ConcatMap(f, b'), f(b[|b| - 1]));
    }
  }

  lemma ConcatMapSingle<V>(f: V -> string, u: V)
    ensures ConcatMap(f, [u]) == f(u)
  {
    assert [u][..0] == [];
  }

  function LineOf<V>(g: Graph<V>, name: V -> string): V -> string {
    u => AdjacencyLine(g, name, u)
  }

  /** The lines of the vertices of `order`, one after another. */
  function AdjacencyLines<V>(g: Graph<V>, name: V -> string, order: seq<V>): string {
    ConcatMap(LineOf(g, name), order)
  }

  /** `line` renders each vertex as `AdjacencyLine` does. The recursive visit
      below is stated over such a `line`, so that its proofs need not look
      inside a vertex's line. */
  ghost predicate RendersLines<V(!new)>(g: Graph<V>, name: V -> string, line: V -> string) {
    forall u {:trigger AdjacencyLine(g, name, u)} :: line(u) == AdjacencyLine(g, name, u)
  }

  lemma ConcatAssociative(x: string, y: string, z: string)
    ensures (x + y) + z == x + (y + z)
  {
  }

  /** What the loop of `formatAdjacencyListRecursive` appends before it deletes
      the last character: every name followed by a comma. */
  function CommaTerminated<V>(name: V -> string, ns: seq<V>): string {
    if ns == [] then "" else CommaTerminated(name, ns[..|ns| - 1]) + (name(ns[|ns| - 1]) + ",")
  }

  lemma {:induction false} JoinWithCommasAppend(fields: seq<string>, f: string)
    requires |fields| >= 1
    ensures Strings.JoinWithCommas(fields + [f]) == Strings.JoinWithCommas(fields) + "," + f
  {
    if |fields| > 1 {
      JoinWithCommasAppend(fields[1..], f);
      assert (fields + [f])[1..] == fields[1..] + [f];
    }
  }

  /** Appending a comma after every name and then deleting the final character
      leaves the names joined by commas with no trailing comma. */
  lemma {:induction false} CommaTerminatedIsJoin<V>(name: V -> string, ns: seq<V>)
    requires ns != []
    ensures CommaTerminated(name, ns) == NeighbourList(name, ns) + ","
  {
    var init := ns[..|ns| - 1];
    if init == [] {
      assert Names(name, ns) == [name(ns[0])];
    } else {
      CommaTerminatedIsJoin(name, init);
      assert Names(name, ns) == Names(name, init) + [name(ns[|ns| - 1])];
      JoinWithCommasAppend(Names(name, init), name(ns[|ns| - 1]));
    }
  }

  /** The part of `formatAdjacencyListRecursive` that writes the line of
      `current`: its name, then each sorted neighbour followed by a comma, then
      the last comma deleted when there was a neighbour, then the closing
      bracket. */
  method AppendAdjacencyLine<V>(g: Graph<V>, name: V -> string, current: V, neighbours: seq<V>, sb: string)
    returns (sb': string)
    requires neighbours == SortedNeighbours(g, name, current)
    ensures sb' == sb + AdjacencyLine(g, name, current)
  {
    var head := name(current) + ": [";
    var line := head;
    var i := 0;
    while i < |neighbours|
      invariant 0 <= i <= |neighbours|
      invariant line == head + CommaTerminated(name, neighbours[..i])
    {
      assert neighbours[..i + 1][..i] == neighbours[..i];
      ConcatAssociative(head, CommaTerminated(name, neighbours[..i]), name(neighbours[i]) + ",");
      line := line + (name(neighbours[i]) + ",");
      i := i + 1;
    }
    assert neighbours[..i] == neighbours;
    if |neighbours| > 0 {
      CommaTerminatedIsJoin(name, neighbours);
      ghost var kept := head + NeighbourList(name, neighbours);
      ConcatAssociative(head, NeighbourList(name, neighbours), ",");
      assert line == kept + ",";
      line := line[..|line| - 1];
      assert line == kept;
    }
    line := line + "]\n";
    sb' := sb + line;
  }

  /** What a finished subtree visit of `neighbour` adds to the visit of
      `current`: the new vertices extend the pre-order without repetition, are
      reachable from `current`, and keep the newly visited part closed except
      for `current` itself. */
  lemma SubtreeVisited<V(!new)>(g: Graph<V>, current: V, neighbour: V, visited: set<V>,
                                before: set<V>, after: set<V>, order: seq<V>, sub: seq<V>)
    requires Edge(g, current, neighbour)
    requires visited + {current} <= before && before + {neighbour} <= after
    requires Distinct(order) && (forall u :: u in order <==> u in before && u !in visited)
    requires Distinct(sub) && (forall u :: u in sub <==> u in after && u !in before)
    requires forall u :: u in before - visited ==> Reachable(g, current, u)
    requires forall u :: u in after - before ==> Reachable(g, neighbour, u)
    requires forall u, n :: u in before - visited && u != current && Edge(g, u, n) ==> n in before
    requires forall u, n :: u in after - before && Edge(g, u, n) ==> n in after
    ensures Distinct(order + sub) && (forall u :: u in order + sub <==> u in after && u !in visited)
    ensures forall u :: u in after - visited ==> Reachable(g, current, u)
    ensures forall u, n :: u in after - visited && u != current && Edge(g, u, n) ==> n in after
  {
    DistinctConcat(order, sub);
    forall u | u in after - before ensures Reachable(g, current, u) {
      ReachableThrough(g, current, neighbour, u);
    }
  }

  /** What the visit of `current` has done so far: `sb'` extends `sb` by the
      lines of `order`, the pre-order of the newly visited vertices, which
      starts at `current`, repeats nothing, is reachable from `current` and is
      closed under neighbours except for `current` itself. */
  ghost predicate PreOrderVisit<V(!new)>(g: Graph<V>, line: V -> string, current: V, visited: set<V>,
                                         visited': set<V>, sb: string, sb': string, order: seq<V>) {
    && visited + {current} <= visited'
    && Distinct(order) && (forall u :: u in order <==> u in visited' && u !in visited)
    && order != [] && order[0] == current
    && sb' == sb + ConcatMap(line, order)
    && (forall u :: u in visited' - visited ==> Reachable(g, current, u))
    && (forall u, n :: u in visited' - visited && u != current && Edge(g, u, n) ==> n in visited')
  }

  /** `formatAdjacencyListRecursive`: if `current` is not yet visited, appends
      its line and then, in sorted order, the lines of its unvisited subtrees.
      `order` is the pre-order of the newly visited vertices; `line` is the
      rendering of one vertex's line. */
  method FormatAdjacencyListRecursive<V(!new)>(g: Graph<V>, name: V -> string, ghost line: V -> string,
                                               current: V, visited: set<V>, sb: string)
    returns (visited': set<V>, sb': string, ghost order: seq<V>)
    requires RendersLines(g, name, line)
    ensures visited + {current} <= visited'
    ensures Distinct(order) && (forall u :: u in order <==> u in visited' && u !in visited)
    ensures current !in visited ==> order != [] && order[0] == current
    ensures sb' == sb + ConcatMap(line, order)
    ensures forall u :: u in visited' - visited ==> Reachable(g, current, u)
    ensures forall u, n :: u in visited' - visited && Edge(g, u, n) ==> n in visited'
    decreases (Vertices(g) + {current}) - visited, 2
  {
    if current in visited {
      return visited, sb, [];
    }
    visited', sb', order := FormatVertex(g, name, line, current, visited, sb);
  }

  /** The visit of an unvisited `current`: its line, then the visits of its
      sorted neighbours, after which every neighbour of `current` is visited. */
  method FormatVertex<V(!new)>(g: Graph<V>, name: V -> string, ghost line: V -> string,
                               current: V, visited: set<V>, sb: string)
    returns (visited': set<V>, sb': string, ghost order: seq<V>)
    requires RendersLines(g, name, line) && current !in visited
    ensures PreOrderVisit(g, line, current, visited, visited', sb, sb', order)
    ensures forall n :: Edge(g, current, n) ==> n in visited'
    decreases (Vertices(g) + {current}) - visited, 1
  {
    var neighbours;
    visited', sb', order, neighbours := StartVertex(g, name, line, current, visited, sb);
    var i := 0;
    while i < |neighbours|
      invariant 0 <= i <= |neighbours|
      invariant PreOrderVisit(g, line, current, visited, visited', sb, sb', order)
      invariant forall j :: 0 <= j < i ==> neighbours[j] in visited'
    {
      assert neighbours[i] in neighbours;
      ghost var before := visited';
      visited', sb', order := FormatSubtree(g, name, line, current, neighbours[i], visited, visited', sb, sb', order);
      forall j | 0 <= j < i + 1 ensures neighbours[j] in visited' {
        if j < i {
          assert neighbours[j] in before;
        }
      }
      i := i + 1;
    }
  }

  /** The start of the visit of an unvisited `current`: it is marked visited
      and its line is written. */
  method StartVertex<V(!new)>(g: Graph<V>, name: V -> string, ghost line: V -> string,
                              current: V, visited: set<V>, sb: string)
    returns (visited': set<V>, sb': string, ghost order: seq<V>, neighbours: seq<V>)
    requires RendersLines(g, name, line) && current !in visited
    ensures PreOrderVisit(g, line, current, visited, visited', sb, sb', order)
    ensures visited' == visited + {current} && order == [current]
    ensures neighbours == SortedNeighbours(g, name, current)
    ensures forall n :: n in neighbours <==> Edge(g, current, n)
  {
    visited' := visited + {current};
    ReachableFromItself(g, current);
    neighbours := SortedNeighbours(g, name, current);
    SortedNeighboursMembers(g, name, current);
    sb' := AppendAdjacencyLine(g, name, current, neighbours, sb);
    order := [current];
    ConcatMapSingle(line, current);
  }

  /** One pass of the loop of `formatAdjacencyListRecursive`: the recursive
      visit of `neighbour`, whose lines follow those already written. */
  method FormatSubtree<V(!new)>(g: Graph<V>, name: V -> string, ghost line: V -> string,
                                current: V, neighbour: V, ghost visited: set<V>,
                                visited': set<V>, ghost sb: string, sb': string, ghost order: seq<V>)
    returns (visited'': set<V>, sb'': string, ghost order': seq<V>)
    requires RendersLines(g, name, line) && current !in visited && Edge(g, current, neighbour)
    requires PreOrderVisit(g, line, current, visited, visited', sb, sb', order)
    ensures PreOrderVisit(g, line, current, visited, visited'', sb, sb'', order')
    ensures visited' + {neighbour} <= visited''
    decreases (Vertices(g) + {current}) - visited, 0
  {
    EdgeEndsInGraph(g, current, neighbour);
    assert (Vertices(g) + {neighbour}) - visited' < (Vertices(g) + {current}) - visited by {
      assert current in (Vertices(g) + {current}) - visited;
    }
    ghost var sub;
    visited'', sb'', sub := FormatAdjacencyListRecursive(g, name, line, neighbour, visited', sb');
    SubtreeVisited(g, current, neighbour, visited, visited', visited'', order, sub);
    ConcatMapAppend(line, order, sub);
    ConcatAssociative(sb, ConcatMap(line, order), ConcatMap(line, sub));
    order' := order + sub;
  }

  /** `formatAdjacencyList(firstVertex)`: the header line followed by one line
      per vertex reachable from `firstVertex`, each exactly once, in pre-order
      from `firstVertex`. */
  method FormatAdjacencyList<V(!new)>(g: Graph<V>, name: V -> string, firstVertex: V)
    returns (r: string, ghost order: seq<V>)
    ensures r == "Graph adjacency list:\n" + AdjacencyLines(g, name, order)
    ensures order != [] && order[0] == firstVertex && Distinct(order)
    ensures forall u :: u in order <==> Reachable(g, firstVertex, u)
  {
    var visited;
    visited, r, order := FormatAdjacencyListRecursive(g, name, LineOf(g, name), firstVertex, {}, "Graph adjacency list:\n");
    forall u | Reachable(g, firstVertex, u) ensures u in order {
      ClosedContainsReachable(g, visited, firstVertex, u);
      assert u in Elements(order);
    }
  }
}
