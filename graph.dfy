/** The graph that `AbstractGraph<V>` searches, seen through its one abstract
    operation `getNeighbours(v)`: a map from a vertex to the sequence in which
    iterating its neighbour set yields them (a vertex without an entry has no
    neighbours). Paths, reachability and path weights are defined here, together
    with `GPath`, the path record the searches return. */
module Graphs {
  import opened Wrappers

  type Graph<V> = map<V, seq<V>>

  /** `getNeighbours(v)`, in iteration order. */
  function Neighbours<V>(g: Graph<V>, v: V): seq<V> {
    if v in g then g[v] else []
  }

  /** Every vertex the graph mentions: the vertices with an entry and all their
      neighbours. */
  function Vertices<V>(g: Graph<V>): set<V> {
    g.Keys + set u, n | u in g && n in g[u] :: n
  }

  predicate Edge<V>(g: Graph<V>, u: V, n: V) {
    n in Neighbours(g, u)
  }

  lemma EdgeEndsInGraph<V>(g: Graph<V>, u: V, n: V)
    requires Edge(g, u, n)
    ensures n in Vertices(g)
  {
  }

  /** A non-empty sequence of vertices each of which is a neighbour of the one
      before: the first representation invariant of `GPath`. */
  ghost predicate IsPath<V>(g: Graph<V>, p: seq<V>) {
    |p| >= 1 && forall i :: 0 < i < |p| ==> Edge(g, p[i - 1], p[i])
  }

  ghost predicate IsPathFromTo<V>(g: Graph<V>, p: seq<V>, a: V, b: V) {
    IsPath(g, p) && p[0] == a && p[|p| - 1] == b
  }

  ghost predicate Reachable<V(!new)>(g: Graph<V>, a: V, b: V) {
    exists p :: IsPathFromTo(g, p, a, b)
  }

  predicate Distinct<V(==)>(s: seq<V>) {
    forall i, j :: 0 <= i < j < |s| ==> s[i] != s[j]
  }

  function Elements<V>(s: seq<V>): set<V> {
    set x | x in s
  }

  lemma DistinctConcat<V>(a: seq<V>, b: seq<V>)
    requires Distinct(a) && Distinct(b)
    requires forall x :: x in a ==> x !in b
    ensures Distinct(a + b)
  {
    forall i, j | 0 <= i < j < |a + b| ensures (a + b)[i] != (a + b)[j] {
      if i < |a| && j >= |a| {
        assert (a + b)[i] in a && (a + b)[j] == b[j - |a|];
      }
    }
  }

  /** A set of vertices that contains every neighbour of each of its members. */
  ghost predicate Closed<V(!new)>(g: Graph<V>, s: set<V>) {
    forall u, n :: u in s && Edge(g, u, n) ==> n in s
  }

  lemma ReachableFromItself<V(!new)>(g: Graph<V>, a: V)
    ensures Reachable(g, a, a)
  {
    assert IsPathFromTo(g, [a], a, a);
  }

  /** A path to `b` followed by an edge from `b` is a path. */
  lemma PathExtend<V>(g: Graph<V>, p: seq<V>, a: V, b: V, c: V)
    requires IsPathFromTo(g, p, a, b) && Edge(g, b, c)
    ensures IsPathFromTo(g, p + [c], a, c)
  {
    var q := p + [c];
    forall i | 0 < i < |q| ensures Edge(g, q[i - 1], q[i]) {
      if i < |p| {
        assert q[i - 1] == p[i - 1] && q[i] == p[i];
      }
    }
  }

  lemma ReachableStep<V(!new)>(g: Graph<V>, a: V, b: V, c: V)
    requires Reachable(g, a, b) && Edge(g, b, c)
    ensures Reachable(g, a, c)
  {
    var p :| IsPathFromTo(g, p, a, b);
    PathExtend(g, p, a, b, c);
  }

  lemma ReachableThrough<V(!new)>(g: Graph<V>, a: V, b: V, c: V)
    requires Edge(g, a, b) && Reachable(g, b, c)
    ensures Reachable(g, a, c)
  {
    var p :| IsPathFromTo(g, p, b, c);
    assert IsPathFromTo(g, [a] + p, a, c);
  }

  lemma {:induction false} ClosedContainsPath<V(!new)>(g: Graph<V>, s: set<V>, p: seq<V>)
    requires Closed(g, s) && IsPath(g, p) && p[0] in s
    ensures forall i :: 0 <= i < |p| ==> p[i] in s
  {
    if |p| > 1 {
      var q := p[..|p| - 1];
      ClosedContainsPath(g, s, q);
      assert q[|p| - 2] in s && Edge(g, p[|p| - 2], p[|p| - 1]);
    }
  }

  /** A closed set holds everything reachable from any of its members: this is
      how a finished search shows that a vertex it never met is unreachable. */
  lemma ClosedContainsReachable<V(!new)>(g: Graph<V>, s: set<V>, a: V, b: V)
    requires Closed(g, s) && a in s && Reachable(g, a, b)
    ensures b in s
  {
    var p :| IsPathFromTo(g, p, a, b);
    ClosedContainsPath(g, s, p);
  }

  /** The sum of `w(p[i-1], p[i])` over consecutive pairs, accumulated from the
      front as `GPath.reCalculateTotalWeight` does. */
  function PathWeight<V>(w: (V, V) -> nat, p: seq<V>): nat {
    if |p| <= 1 then 0 else PathWeight(w, p[..|p| - 1]) + w(p[|p| - 2], p[|p| - 1])
  }

  /** The weight of two joined paths is the weight of each plus the edge that
      joins them. */
  lemma {:induction false} PathWeightConcat<V>(w: (V, V) -> nat, p: seq<V>, q: seq<V>)
    requires |p| >= 1 && |q| >= 1
    ensures PathWeight(w, p + q) == PathWeight(w, p) + w(p[|p| - 1], q[0]) + PathWeight(w, q)
  {
    if |q| == 1 {
      assert (p + q)[..|p + q| - 1] == p;
    } else {
      var q' := q[..|q| - 1];
      PathWeightConcat(w, p, q');
      assert (p + q)[..|p + q| - 1] == p + q';
      assert q'[..|q'|] == q';
    }
  }

  /** With non-negative weights a prefix of a path weighs no more than the path. */
  lemma {:induction false} PathWeightPrefix<V>(w: (V, V) -> nat, p: seq<V>, k: nat)
    requires 1 <= k <= |p|
    ensures PathWeight(w, p[..k]) <= PathWeight(w, p)
  {
    if k < |p| {
      PathWeightPrefix(w, p[..|p| - 1], k);
      assert p[..|p| - 1][..k] == p[..k];
      var last: nat := w(p[|p| - 2], p[|p| - 1]);
      assert PathWeight(w, p) == PathWeight(w, p[..|p| - 1]) + last;
    } else {
      assert p[..k] == p;
    }
  }

  /** A prefix of a path is a path. */
  lemma PathPrefix<V>(g: Graph<V>, p: seq<V>, k: nat)
    requires IsPath(g, p) && 1 <= k <= |p|
    ensures IsPathFromTo(g, p[..k], p[0], p[k - 1])
  {
    var q := p[..k];
    forall i | 0 < i < |q| ensures Edge(g, q[i - 1], q[i]) {
      assert q[i - 1] == p[i - 1] && q[i] == p[i];
    }
  }

  /** A path weighs at least its first `k` vertices plus the edge that
      leaves them. */
  lemma PathWeightStep<V>(w: (V, V) -> nat, p: seq<V>, k: nat)
    requires 1 <= k < |p|
    ensures PathWeight(w, p) >= PathWeight(w, p[..k]) + w(p[k - 1], p[k])
  {
    var q := p[..k + 1];
    assert q[..k] == p[..k] && q[k - 1] == p[k - 1] && q[k] == p[k];
    assert PathWeight(w, q) == PathWeight(w, p[..k]) + w(p[k - 1], p[k]);
    PathWeightPrefix(w, p, k + 1);
  }

  /** `AbstractGraph.GPath`: the vertices of a path (a deque, here a sequence
      with the front first), its total weight and the vertices a search visited. */
  class GPath<V(==)> {
    var vertices: seq<V>
    var totalWeight: nat
    var visited: set<V>

    constructor ()
      ensures vertices == [] && totalWeight == 0 && visited == {}
    {
      vertices := [];
      totalWeight := 0;
      visited := {};
    }

    /** `addVertex`: appends at the end. */
    method AddVertex(v: V)
      modifies this`vertices
      ensures vertices == old(vertices) + [v]
    {
      vertices := vertices + [v];
    }

    /** `removeLastVertex`: drops the last vertex; an empty path stays empty. */
    method RemoveLastVertex()
      modifies this`vertices
      ensures old(vertices) == [] ==> vertices == []
      ensures old(vertices) != [] ==> vertices + [old(vertices)[|old(vertices)| - 1]] == old(vertices)
    {
      if vertices != [] {
        vertices := vertices[..|vertices| - 1];
      }
    }

    /** `reCalculateTotalWeight`: the first vertex has no predecessor and adds
        nothing; every later one adds the weight of the edge that reaches it. */
    method ReCalculateTotalWeight(w: (V, V) -> nat)
      modifies this`totalWeight
      ensures totalWeight == PathWeight(w, vertices)
    {
      totalWeight := 0;
      var previous: Option<V> := None;
      var i := 0;
      while i < |vertices|
        invariant 0 <= i <= |vertices|
        invariant previous == if i == 0 then None else Some(vertices[i - 1])
        invariant totalWeight == PathWeight(w, vertices[..i])
      {
        var v := vertices[i];
        if previous.Some? {
          assert vertices[..i + 1][..i] == vertices[..i];
          totalWeight := totalWeight + w(previous.value, v);
        }
        previous := Some(v);
        i := i + 1;
      }
      assert vertices[..i] == vertices;
    }
  }
}
