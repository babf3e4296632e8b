/** `AbstractGraph.dijkstraShortestPath`: Dijkstra's search over a map from
    vertex to `MSTNode` (the tree of best routes found so far) and a priority
    queue of nodes ordered by `weightSumTo`. A shorter route to a vertex puts a
    new node in the map and the queue; the node it replaces stays in the queue
    and is later polled without effect. Weights are natural numbers. */
module ShortestPath {
  import opened Wrappers
  import opened Graphs

  /** `AbstractGraph.MSTNode`: the vertex, the vertex it was reached from (null
      for the start vertex), the weight of the best route found so far, and
      whether that route is final. The source assigns `parentVertex` and
      `weightSumTo` right after construction and never again, so they are fixed
      here by the constructor. */
  class MSTNode<V> {
    const vertex: V
    const parentVertex: Option<V>
    const weightSumTo: nat
    var marked: bool

    constructor (vertex: V, parentVertex: Option<V>, weightSumTo: nat)
      ensures this.vertex == vertex && this.parentVertex == parentVertex
      ensures this.weightSumTo == weightSumTo && !marked
    {
      this.vertex := vertex;
      this.parentVertex := parentVertex;
      this.weightSumTo := weightSumTo;
      marked := false;
    }
  }

  /** `route[v]` is the route to `v` that the node of `v` stands for: it runs
      from the start to `v`, weighs the node's `weightSumTo` and is the route to
      the node's parent, which is final, extended by `v`. */
  ghost predicate RoutesValid<V(!new)>(g: Graph<V>, w: (V, V) -> nat, start: V, mst: map<V, MSTNode<V>>,
                                      route: map<V, seq<V>>, finalized: set<V>) {
    RouteRoot(start, mst, route) && RoutePaths(g, w, start, mst, route) && RouteParents(mst, route, finalized)
  }

  /** Each node is keyed by its own vertex; the start's node is the only root
      and has weight 0. */
  ghost predicate RouteRoot<V>(start: V, mst: map<V, MSTNode<V>>, route: map<V, seq<V>>) {
    && mst.Keys == route.Keys && start in mst
    && mst[start].weightSumTo == 0 && mst[start].parentVertex.None? && route[start] == [start]
    && (forall v :: v in mst ==> mst[v].vertex == v)
    && (forall v :: v in mst && mst[v].parentVertex.None? ==> v == start)
  }

  /** Every node's route is a path from the start to its vertex of the node's
      weight. */
  ghost predicate RoutePaths<V>(g: Graph<V>, w: (V, V) -> nat, start: V, mst: map<V, MSTNode<V>>, route: map<V, seq<V>>)
    requires mst.Keys == route.Keys
  {
    forall v {:trigger RouteOk(g, w, start, mst, route, v)} :: v in mst ==> RouteOk(g, w, start, mst, route, v)
  }

  ghost predicate RouteOk<V>(g: Graph<V>, w: (V, V) -> nat, start: V, mst: map<V, MSTNode<V>>, route: map<V, seq<V>>, v: V)
    requires v in mst && mst.Keys == route.Keys
  {
    IsPathFromTo(g, route[v], start, v) && PathWeight(w, route[v]) == mst[v].weightSumTo
  }

  /** Every node's parent is final and its route extends the parent's. The
      trigger keeps the solver from walking up the parent chain. */
  ghost predicate RouteParents<V>(mst: map<V, MSTNode<V>>, route: map<V, seq<V>>, finalized: set<V>)
    requires mst.Keys == route.Keys
  {
    forall v {:trigger ParentLink(mst, route, finalized, v)} :: v in mst ==> ParentLink(mst, route, finalized, v)
  }

  ghost predicate ParentLink<V>(mst: map<V, MSTNode<V>>, route: map<V, seq<V>>, finalized: set<V>, v: V)
    requires v in mst && mst.Keys == route.Keys
  {
    mst[v].parentVertex.Some? ==>
      && mst[v].parentVertex.value in finalized && mst[v].parentVertex.value in mst
      && route[v] == route[mst[v].parentVertex.value] + [v]
  }

  /** No path to a final vertex is lighter than its node's weight. */
  ghost predicate Minimal<V(!new)>(g: Graph<V>, w: (V, V) -> nat, start: V, mst: map<V, MSTNode<V>>, finalized: set<V>) {
    && finalized <= mst.Keys
    && forall v, p :: v in finalized && IsPathFromTo(g, p, start, v) ==> PathWeight(w, p) >= mst[v].weightSumTo
  }

  /** The neighbour `n` of the final vertex `x` has a node, and unless it is
      final itself its weight is at most that of the route through `x`. */
  ghost predicate Relaxed<V>(g: Graph<V>, w: (V, V) -> nat, mst: map<V, MSTNode<V>>, finalized: set<V>, x: V, n: V) {
    x in mst && n in mst && (n in finalized || mst[n].weightSumTo <= mst[x].weightSumTo + w(x, n))
  }

  /** Every edge leaving a final vertex is relaxed. */
  ghost predicate Frontier<V(!new)>(g: Graph<V>, w: (V, V) -> nat, mst: map<V, MSTNode<V>>, finalized: set<V>) {
    forall x, n :: x in finalized && Edge(g, x, n) ==> Relaxed(g, w, mst, finalized, x, n)
  }

  /** Every edge leaving a final vertex other than `v` is relaxed. */
  ghost predicate FrontierExcept<V(!new)>(g: Graph<V>, w: (V, V) -> nat, mst: map<V, MSTNode<V>>, finalized: set<V>, v: V) {
    forall x, n :: x in finalized && x != v && Edge(g, x, n) ==> Relaxed(g, w, mst, finalized, x, n)
  }

  /** The edges from `v` to its first `i` neighbours are relaxed. */
  ghost predicate RelaxedPrefix<V>(g: Graph<V>, w: (V, V) -> nat, mst: map<V, MSTNode<V>>, finalized: set<V>, v: V,
                                   neighbours: seq<V>, i: nat)
    requires i <= |neighbours|
  {
    forall j :: 0 <= j < i ==> Relaxed(g, w, mst, finalized, v, neighbours[j])
  }

  /** The nodes and routes of the final vertices are those of `mst0` and `route0`. */
  ghost predicate AgreeOn<V>(mst: map<V, MSTNode<V>>, route: map<V, seq<V>>,
                             mst0: map<V, MSTNode<V>>, route0: map<V, seq<V>>, finalized: set<V>) {
    forall u :: u in finalized ==>
      && u in mst && u in mst0 && u in route && u in route0 && mst[u] == mst0[u] && route[u] == route0[u]
  }

  /** What holds of the map, the queue and the ghost routes between two polls. */
  ghost predicate SearchValid<V(!new)>(g: Graph<V>, w: (V, V) -> nat, start: V, mst: map<V, MSTNode<V>>,
                                      pq: seq<MSTNode<V>>, route: map<V, seq<V>>, finalized: set<V>) {
    && RoutesValid(g, w, start, mst, route, finalized)
    && Minimal(g, w, start, mst, finalized)
    && QueueValid(mst, pq, finalized)
    && mst.Keys <= Vertices(g) + {start}
  }

  /** Every node in the map for a vertex that is not final is in the queue; a
      queued node that the map no longer holds is strictly heavier than the
      one that replaced it; a queued node that the map holds is not final. */
  ghost predicate QueueValid<V>(mst: map<V, MSTNode<V>>, pq: seq<MSTNode<V>>, finalized: set<V>) {
    && (forall v :: v in mst && v !in finalized ==> mst[v] in pq)
    && (forall i :: 0 <= i < |pq| ==> pq[i].vertex in mst)
    && (forall i :: 0 <= i < |pq| && pq[i] != mst[pq[i].vertex] ==> pq[i].weightSumTo > mst[pq[i].vertex].weightSumTo)
    && (forall i :: 0 <= i < |pq| && pq[i] == mst[pq[i].vertex] ==> pq[i].vertex !in finalized)
    && (forall i, j :: 0 <= i < j < |pq| ==> pq[i] != pq[j])
  }

  /** `pq[k]` weighs no more than any other queued node. */
  predicate IsLightest<V>(pq: seq<MSTNode<V>>, k: int) {
    0 <= k < |pq| && forall j :: 0 <= j < |pq| ==> pq[k].weightSumTo <= pq[j].weightSumTo
  }

  /** A non-empty queue holds a node of least weight, which `poll` returns. */
  lemma MinimumExists<V>(pq: seq<MSTNode<V>>)
    requires pq != []
    ensures exists k :: 0 <= k < |pq| && IsLightest(pq, k)
  {
    var k := 0;
    var i := 1;
    while i < |pq|
      invariant 0 <= k < |pq| && 1 <= i <= |pq|
      invariant forall j :: 0 <= j < i ==> pq[k].weightSumTo <= pq[j].weightSumTo
    {
      if pq[i].weightSumTo < pq[k].weightSumTo {
        k := i;
      }
      i := i + 1;
    }
    assert IsLightest(pq, k);
  }

  /** The heart of Dijkstra's argument: when the lightest queued node belongs
      to a vertex `v` that is not final, and every neighbour of a final vertex
      has been relaxed, no path from the start to `v` is lighter than that
      node. A path must leave the final set somewhere, and the first vertex
      outside it already weighs no less than the polled node. */
  lemma PolledIsMinimal<V(!new)>(g: Graph<V>, w: (V, V) -> nat, start: V, mst: map<V, MSTNode<V>>,
                                 finalized: set<V>, v: V)
    requires v in mst && v !in finalized && finalized <= mst.Keys
    requires start in finalized || v == start
    requires start in mst && mst[start].weightSumTo == 0
    requires Minimal(g, w, start, mst, finalized)
    requires Frontier(g, w, mst, finalized)
    requires forall u :: u in mst && u !in finalized ==> mst[v].weightSumTo <= mst[u].weightSumTo
    ensures forall p :: IsPathFromTo(g, p, start, v) ==> PathWeight(w, p) >= mst[v].weightSumTo
  {
    forall p | IsPathFromTo(g, p, start, v) ensures PathWeight(w, p) >= mst[v].weightSumTo {
      if v != start {
        var k := FirstNotFinal(p, finalized);
        PathLeavesFinal(g, w, start, mst, finalized, v, p, k);
      }
    }
  }

  /** The first vertex of a path that is not final, when the path starts at a
      final vertex and ends at one that is not. */
  lemma FirstNotFinal<V>(p: seq<V>, finalized: set<V>) returns (k: nat)
    requires |p| >= 1 && p[0] in finalized && p[|p| - 1] !in finalized
    ensures 0 < k < |p| && p[k] !in finalized
    ensures forall j :: 0 <= j < k ==> p[j] in finalized
  {
    k := 0;
    while p[k] in finalized
      invariant 0 <= k < |p|
      invariant forall j :: 0 <= j < k ==> p[j] in finalized
      decreases |p| - k
    {
      k := k + 1;
    }
  }

  /** A path from the start that leaves the final vertices at `p[k]` weighs at
      least the node of `p[k]`, and so at least the lightest node that is not
      final. */
  lemma PathLeavesFinal<V(!new)>(g: Graph<V>, w: (V, V) -> nat, start: V, mst: map<V, MSTNode<V>>,
                                 finalized: set<V>, v: V, p: seq<V>, k: nat)
    requires v in mst && finalized <= mst.Keys
    requires Minimal(g, w, start, mst, finalized)
    requires Frontier(g, w, mst, finalized)
    requires forall u :: u in mst && u !in finalized ==> mst[v].weightSumTo <= mst[u].weightSumTo
    requires IsPathFromTo(g, p, start, v)
    requires 0 < k < |p| && p[k] !in finalized && p[k - 1] in finalized
    ensures PathWeight(w, p) >= mst[v].weightSumTo
  {
    var x, n := p[k - 1], p[k];
    assert Edge(g, x, n);
    assert Relaxed(g, w, mst, finalized, x, n);
    PathPrefix(g, p, k);
    PathWeightStep(w, p, k);
    assert PathWeight(w, p[..k]) >= mst[x].weightSumTo;
  }

  /** `mst.get(parentVertex)`: null for a null key or a vertex without a node. */
  function Get<V>(mst: map<V, MSTNode<V>>, key: Option<V>): Option<MSTNode<V>> {
    if key.Some? && key.value in mst then Some(mst[key.value]) else None
  }

  /** A stale node's vertex is final, so each of its neighbours that is not
      final already has a node no heavier than a route through the stale node. */
  lemma StaleRelaxesNothing<V(!new)>(g: Graph<V>, w: (V, V) -> nat, mst: map<V, MSTNode<V>>, finalized: set<V>,
                                     node: MSTNode<V>, n: V)
    requires Frontier(g, w, mst, finalized) && node.vertex in finalized && node.vertex in mst
    requires node.weightSumTo > mst[node.vertex].weightSumTo
    requires Edge(g, node.vertex, n) && n !in finalized
    ensures n in mst && mst[n].weightSumTo < node.weightSumTo + w(node.vertex, n)
  {
    assert Relaxed(g, w, mst, finalized, node.vertex, n);
  }

  /** The relaxation loop of `dijkstraShortestPath` for the polled `node`,
      whose vertex is now final: every unmarked neighbour whose route through
      `node` is strictly lighter gets a new node, in the map and in the queue.
      A polled node that the map no longer holds changes nothing. */
  method RelaxNeighbours<V(!new)>(g: Graph<V>, w: (V, V) -> nat, start: V, node: MSTNode<V>,
                                  mst: map<V, MSTNode<V>>, pq: seq<MSTNode<V>>,
                                  ghost route: map<V, seq<V>>, ghost finalized: set<V>, ghost nodes: set<MSTNode<V>>)
    returns (mst': map<V, MSTNode<V>>, pq': seq<MSTNode<V>>, ghost route': map<V, seq<V>>,
             ghost nodes': set<MSTNode<V>>)
    requires node.vertex in finalized && start in finalized
    requires forall i :: 0 <= i < |pq| ==> pq[i] in nodes
    requires SearchValid(g, w, start, mst, pq, route, finalized)
    requires forall u :: u in mst ==> (mst[u].marked <==> u in finalized)
    requires FrontierExcept(g, w, mst, finalized, node.vertex)
    requires node != mst[node.vertex] ==> node.weightSumTo > mst[node.vertex].weightSumTo
    requires node != mst[node.vertex] ==> Frontier(g, w, mst, finalized)
    requires node == mst[node.vertex] ==> node !in pq
    ensures SearchValid(g, w, start, mst', pq', route', finalized)
    ensures forall u :: u in mst' ==> (mst'[u].marked <==> u in finalized)
    ensures Frontier(g, w, mst', finalized)
    ensures AgreeOn(mst', route', mst, route, finalized)
    ensures forall i :: 0 <= i < |pq'| ==> pq'[i] in nodes'
    ensures nodes <= nodes' && fresh(nodes' - nodes)
    ensures node != mst[node.vertex] ==> mst' == mst && pq' == pq && route' == route
    ensures node == mst[node.vertex] ==> node.vertex in mst' && mst'[node.vertex] == node
  {
    var v := node.vertex;
    mst', pq', route', nodes' := mst, pq, route, nodes;
    var neighbours := Neighbours(g, v);
    var i := 0;
    while i < |neighbours|
      invariant 0 <= i <= |neighbours|
      invariant Relaxing(g, w, start, v, mst', pq', route', finalized, neighbours, i, mst, route)
      invariant forall u :: u in mst' ==> (mst'[u].marked <==> u in finalized)
      invariant forall k :: 0 <= k < |pq'| ==> pq'[k] in nodes'
      invariant nodes <= nodes' && fresh(nodes' - nodes)
      invariant node != mst[v] ==> mst' == mst && pq' == pq && route' == route
      invariant node == mst[v] ==> node !in pq'
    {
      mst', pq', route', nodes' := RelaxNeighbour(g, w, start, node, mst, pq, route, finalized, neighbours, i,
                                                  mst', pq', route', nodes');
      i := i + 1;
    }
    FrontierJoin(g, w, mst', finalized, v, neighbours);
  }

  /** One round of the relaxation loop: the neighbour at index `i` gets a
      new node when it is not final and the route through `node` is strictly
      lighter than its current one. */
  method RelaxNeighbour<V(!new)>(g: Graph<V>, w: (V, V) -> nat, start: V, node: MSTNode<V>,
                                 mst0: map<V, MSTNode<V>>, pq0: seq<MSTNode<V>>, ghost route0: map<V, seq<V>>,
                                 ghost finalized: set<V>, neighbours: seq<V>, i: nat,
                                 mst: map<V, MSTNode<V>>, pq: seq<MSTNode<V>>, ghost route: map<V, seq<V>>,
                                 ghost nodes: set<MSTNode<V>>)
    returns (mst': map<V, MSTNode<V>>, pq': seq<MSTNode<V>>, ghost route': map<V, seq<V>>,
             ghost nodes': set<MSTNode<V>>)
    requires node.vertex in finalized && start in finalized
    requires neighbours == Neighbours(g, node.vertex) && i < |neighbours|
    requires Relaxing(g, w, start, node.vertex, mst, pq, route, finalized, neighbours, i, mst0, route0)
    requires forall u :: u in mst ==> (mst[u].marked <==> u in finalized)
    requires forall k :: 0 <= k < |pq| ==> pq[k] in nodes
    requires node != mst0[node.vertex] ==>
               && node.weightSumTo > mst0[node.vertex].weightSumTo && Frontier(g, w, mst0, finalized)
               && mst == mst0 && pq == pq0 && route == route0
    requires node == mst0[node.vertex] ==> node !in pq
    ensures Relaxing(g, w, start, node.vertex, mst', pq', route', finalized, neighbours, i + 1, mst0, route0)
    ensures forall u :: u in mst' ==> (mst'[u].marked <==> u in finalized)
    ensures forall k :: 0 <= k < |pq'| ==> pq'[k] in nodes'
    ensures nodes <= nodes' && fresh(nodes' - nodes)
    ensures node != mst0[node.vertex] ==> mst' == mst0 && pq' == pq0 && route' == route0
    ensures node == mst0[node.vertex] ==> node !in pq'
  {
    var v := node.vertex;
    mst', pq', route', nodes' := mst, pq, route, nodes;
    var neighbour := neighbours[i];
    if !(neighbour in mst && mst[neighbour].marked) {
      var potentialWeight := node.weightSumTo + w(v, neighbour);
      var neighbourNode := Get(mst, Some(neighbour));
      if node != mst0[v] {
        StaleRelaxesNothing(g, w, mst0, finalized, node, neighbour);
      }
      if neighbourNode.None? || potentialWeight < neighbourNode.value.weightSumTo {
        if node != mst0[v] {
          assert false;
        }
        mst', pq', route' := AddNeighbourNode(g, w, start, v, potentialWeight, mst, pq, route, finalized,
                                              neighbours, i, mst0, route0);
        assert forall k :: 0 <= k < |pq| ==> pq'[k] == pq[k];
        nodes' := nodes + {pq'[|pq|]};
      } else {
        RelaxedUpTo(g, w, start, v, mst, pq, route, finalized, neighbours, i, mst0, route0);
      }
    } else {
      RelaxedUpTo(g, w, start, v, mst, pq, route, finalized, neighbours, i, mst0, route0);
    }
  }

  /** The update of one neighbour: a new node, reached from `v` with weight
      `potentialWeight`, takes the neighbour's place in the map and joins the
      queue. */
  method AddNeighbourNode<V(!new)>(g: Graph<V>, w: (V, V) -> nat, start: V, v: V, potentialWeight: nat,
                                   mst: map<V, MSTNode<V>>, pq: seq<MSTNode<V>>, ghost route: map<V, seq<V>>,
                                   ghost finalized: set<V>, neighbours: seq<V>, i: nat,
                                   ghost mst0: map<V, MSTNode<V>>, ghost route0: map<V, seq<V>>)
    returns (mst': map<V, MSTNode<V>>, pq': seq<MSTNode<V>>, ghost route': map<V, seq<V>>)
    requires v in finalized && start in finalized
    requires neighbours == Neighbours(g, v) && i < |neighbours| && neighbours[i] !in finalized
    requires Relaxing(g, w, start, v, mst, pq, route, finalized, neighbours, i, mst0, route0)
    requires potentialWeight == mst[v].weightSumTo + w(v, neighbours[i])
    requires neighbours[i] in mst ==> potentialWeight < mst[neighbours[i]].weightSumTo
    requires forall u :: u in mst ==> (mst[u].marked <==> u in finalized)
    ensures Relaxing(g, w, start, v, mst', pq', route', finalized, neighbours, i + 1, mst0, route0)
    ensures forall u :: u in mst' ==> (mst'[u].marked <==> u in finalized)
    ensures |pq'| == |pq| + 1 && pq'[..|pq|] == pq && fresh(pq'[|pq|])
  {
    var neighbour := neighbours[i];
    var newNode := new MSTNode(neighbour, Some(v), potentialWeight);
    RelaxStep(g, w, start, mst, pq, route, finalized, v, newNode, neighbours, i, mst0, route0);
    pq' := pq + [newNode];
    mst' := mst[neighbour := newNode];
    route' := route[neighbour := route[v] + [neighbour]];
  }

  /** What holds while the edges from `v` are relaxed, `i` of them done. */
  ghost predicate Relaxing<V(!new)>(g: Graph<V>, w: (V, V) -> nat, start: V, v: V, mst: map<V, MSTNode<V>>,
                                   pq: seq<MSTNode<V>>, route: map<V, seq<V>>, finalized: set<V>,
                                   neighbours: seq<V>, i: nat, mst0: map<V, MSTNode<V>>, route0: map<V, seq<V>>) {
    && i <= |neighbours|
    && SearchValid(g, w, start, mst, pq, route, finalized)
    && FrontierExcept(g, w, mst, finalized, v)
    && RelaxedPrefix(g, w, mst, finalized, v, neighbours, i)
    && AgreeOn(mst, route, mst0, route0, finalized)
  }

  lemma RelaxedUpTo<V(!new)>(g: Graph<V>, w: (V, V) -> nat, start: V, v: V, mst: map<V, MSTNode<V>>,
                            pq: seq<MSTNode<V>>, route: map<V, seq<V>>, finalized: set<V>,
                            neighbours: seq<V>, i: nat, mst0: map<V, MSTNode<V>>, route0: map<V, seq<V>>)
    requires i < |neighbours|
    requires Relaxing(g, w, start, v, mst, pq, route, finalized, neighbours, i, mst0, route0)
    requires Relaxed(g, w, mst, finalized, v, neighbours[i])
    ensures Relaxing(g, w, start, v, mst, pq, route, finalized, neighbours, i + 1, mst0, route0)
  {
  }

  /** Once every edge from `v` is relaxed, the whole frontier is. */
  lemma FrontierJoin<V(!new)>(g: Graph<V>, w: (V, V) -> nat, mst: map<V, MSTNode<V>>, finalized: set<V>, v: V,
                        neighbours: seq<V>)
    requires neighbours == Neighbours(g, v)
    requires FrontierExcept(g, w, mst, finalized, v)
    requires RelaxedPrefix(g, w, mst, finalized, v, neighbours, |neighbours|)
    ensures Frontier(g, w, mst, finalized)
  {
    forall x, n | x in finalized && Edge(g, x, n) ensures Relaxed(g, w, mst, finalized, x, n) {
      if x == v {
        var j :| 0 <= j < |neighbours| && neighbours[j] == n;
      }
    }
  }

  /** One relaxation: a new node for the neighbour `neighbours[i]` of the
      final vertex `v`, lighter than the node it replaces, keeps every
      invariant of the search, relaxes the edge from `v` and leaves the final
      vertices as they were. */
  lemma RelaxStep<V(!new)>(g: Graph<V>, w: (V, V) -> nat, start: V, mst: map<V, MSTNode<V>>, pq: seq<MSTNode<V>>,
                           route: map<V, seq<V>>, finalized: set<V>, v: V, node: MSTNode<V>,
                           neighbours: seq<V>, i: nat, mst0: map<V, MSTNode<V>>, route0: map<V, seq<V>>)
    requires v in finalized && start in finalized
    requires neighbours == Neighbours(g, v) && i < |neighbours| && node.vertex == neighbours[i]
    requires Relaxing(g, w, start, v, mst, pq, route, finalized, neighbours, i, mst0, route0)
    requires node.vertex !in finalized && node !in pq
    requires node.parentVertex == Some(v) && node.weightSumTo == mst[v].weightSumTo + w(v, node.vertex)
    requires node.vertex in mst ==> node.weightSumTo < mst[node.vertex].weightSumTo
    ensures Relaxing(g, w, start, v, mst[node.vertex := node], pq + [node],
                     route[node.vertex := route[v] + [node.vertex]], finalized, neighbours, i + 1, mst0, route0)
  {
    var n := node.vertex;
    EdgeEndsInGraph(g, v, n);
    assert RouteOk(g, w, start, mst, route, v);
    PathExtend(g, route[v], start, v, n);
    PathWeightConcat(w, route[v], [n]);
    AddNodeRoutes(g, w, start, mst, route, finalized, node, route[v] + [n]);
    AddNodeQueue(mst, pq, finalized, node);
    FrontierKept(g, w, start, mst, finalized, node);
    PrefixKept(g, w, mst, finalized, v, neighbours, i, node);
    AgreeKept(mst, route, mst0, route0, finalized, node, route[v] + [n]);
  }

  /** The relaxed prefix grows by the edge just relaxed. */
  lemma PrefixKept<V>(g: Graph<V>, w: (V, V) -> nat, mst: map<V, MSTNode<V>>, finalized: set<V>, v: V,
                      neighbours: seq<V>, i: nat, node: MSTNode<V>)
    requires i < |neighbours| && node.vertex == neighbours[i]
    requires v in mst && v in finalized && node.vertex !in finalized
    requires node.weightSumTo == mst[v].weightSumTo + w(v, node.vertex)
    requires node.vertex in mst ==> node.weightSumTo < mst[node.vertex].weightSumTo
    requires RelaxedPrefix(g, w, mst, finalized, v, neighbours, i)
    ensures RelaxedPrefix(g, w, mst[node.vertex := node], finalized, v, neighbours, i + 1)
  {
    var mst' := mst[node.vertex := node];
    forall j | 0 <= j < i + 1 ensures Relaxed(g, w, mst', finalized, v, neighbours[j]) {
      if j < i {
        assert Relaxed(g, w, mst, finalized, v, neighbours[j]);
      } else {
        assert mst'[v] == mst[v];
      }
    }
  }

  lemma AgreeKept<V>(mst: map<V, MSTNode<V>>, route: map<V, seq<V>>, mst0: map<V, MSTNode<V>>,
                     route0: map<V, seq<V>>, finalized: set<V>, node: MSTNode<V>, r: seq<V>)
    requires AgreeOn(mst, route, mst0, route0, finalized) && node.vertex !in finalized
    ensures AgreeOn(mst[node.vertex := node], route[node.vertex := r], mst0, route0, finalized)
  {
  }

  /** A new node for a vertex that is not final, reached from a final parent,
      keeps the routes valid. */
  lemma AddNodeRoutes<V(!new)>(g: Graph<V>, w: (V, V) -> nat, start: V, mst: map<V, MSTNode<V>>,
                               route: map<V, seq<V>>, finalized: set<V>, node: MSTNode<V>, r: seq<V>)
    requires RoutesValid(g, w, start, mst, route, finalized)
    requires node.vertex !in finalized && start in finalized
    requires node.parentVertex.Some? && node.parentVertex.value in finalized && node.parentVertex.value in mst
    requires r == route[node.parentVertex.value] + [node.vertex]
    requires IsPathFromTo(g, r, start, node.vertex) && PathWeight(w, r) == node.weightSumTo
    ensures RoutesValid(g, w, start, mst[node.vertex := node], route[node.vertex := r], finalized)
  {
    AddNodeRoot(start, mst, route, finalized, node, r);
    AddNodePaths(g, w, start, mst, route, node, r);
    AddNodeParents(mst, route, finalized, node, r);
  }

  lemma AddNodeRoot<V>(start: V, mst: map<V, MSTNode<V>>, route: map<V, seq<V>>, finalized: set<V>,
                       node: MSTNode<V>, r: seq<V>)
    requires RouteRoot(start, mst, route)
    requires node.vertex !in finalized && start in finalized && node.parentVertex.Some?
    ensures RouteRoot(start, mst[node.vertex := node], route[node.vertex := r])
  {
  }

  lemma AddNodePaths<V>(g: Graph<V>, w: (V, V) -> nat, start: V, mst: map<V, MSTNode<V>>, route: map<V, seq<V>>,
                        node: MSTNode<V>, r: seq<V>)
    requires mst.Keys == route.Keys && RoutePaths(g, w, start, mst, route)
    requires IsPathFromTo(g, r, start, node.vertex) && PathWeight(w, r) == node.weightSumTo
    ensures RoutePaths(g, w, start, mst[node.vertex := node], route[node.vertex := r])
  {
    var mst', route' := mst[node.vertex := node], route[node.vertex := r];
    forall v | v in mst' ensures RouteOk(g, w, start, mst', route', v) {
      if v != node.vertex {
        assert RouteOk(g, w, start, mst, route, v);
      }
    }
  }

  lemma AddNodeParents<V>(mst: map<V, MSTNode<V>>, route: map<V, seq<V>>, finalized: set<V>, node: MSTNode<V>, r: seq<V>)
    requires mst.Keys == route.Keys && RouteParents(mst, route, finalized)
    requires node.vertex !in finalized
    requires node.parentVertex.Some? && node.parentVertex.value in finalized && node.parentVertex.value in mst
    requires r == route[node.parentVertex.value] + [node.vertex]
    ensures RouteParents(mst[node.vertex := node], route[node.vertex := r], finalized)
  {
    var n := node.vertex;
    var mst', route' := mst[n := node], route[n := r];
    forall v | v in mst' ensures ParentLink(mst', route', finalized, v) {
      if v != n {
        assert ParentLink(mst, route, finalized, v);
        assert mst'[v] == mst[v] && route'[v] == route[v];
        if mst[v].parentVertex.Some? {
          assert route'[mst[v].parentVertex.value] == route[mst[v].parentVertex.value];
        }
      } else {
        assert route'[node.parentVertex.value] == route[node.parentVertex.value];
      }
    }
  }

  /** Putting a new node, lighter than the one it replaces, for a vertex that
      is not final into the map and at the end of the queue keeps the queue
      valid. */
  lemma AddNodeQueue<V>(mst: map<V, MSTNode<V>>, pq: seq<MSTNode<V>>, finalized: set<V>, node: MSTNode<V>)
    requires QueueValid(mst, pq, finalized)
    requires node.vertex !in finalized && node !in pq
    requires node.vertex in mst ==> node.weightSumTo < mst[node.vertex].weightSumTo
    ensures QueueValid(mst[node.vertex := node], pq + [node], finalized)
  {
    var n := node.vertex;
    var mst', pq' := mst[n := node], pq + [node];
    forall i | 0 <= i < |pq'| && pq'[i] != mst'[pq'[i].vertex]
      ensures pq'[i].weightSumTo > mst'[pq'[i].vertex].weightSumTo
    {
      if pq'[i].vertex == n {
        assert i < |pq| && pq[i].weightSumTo >= mst[n].weightSumTo;
      }
    }
    forall i, j | 0 <= i < j < |pq'| ensures pq'[i] != pq'[j] {
      if j == |pq| {
        assert pq'[i] == pq[i];
      }
    }
    forall u | u in mst' && u !in finalized ensures mst'[u] in pq' {
      if u != n {
        assert mst[u] in pq;
      }
    }
  }

  /** A lighter node for a vertex that is not final keeps every relaxed edge of
      a final vertex relaxed and keeps the final vertices' weights. */
  lemma FrontierKept<V(!new)>(g: Graph<V>, w: (V, V) -> nat, start: V, mst: map<V, MSTNode<V>>, finalized: set<V>,
                              node: MSTNode<V>)
    requires node.vertex !in finalized && finalized <= mst.Keys
    requires node.vertex in mst ==> node.weightSumTo < mst[node.vertex].weightSumTo
    ensures forall x, n :: x in finalized && Relaxed(g, w, mst, finalized, x, n) ==>
              Relaxed(g, w, mst[node.vertex := node], finalized, x, n)
    ensures Minimal(g, w, start, mst, finalized) ==> Minimal(g, w, start, mst[node.vertex := node], finalized)
  {
  }

  /** `s` without its element at `k`: what `poll` leaves in the queue. */
  function Without<T>(s: seq<T>, k: nat): (r: seq<T>)
    requires k < |s|
    ensures |r| == |s| - 1
    ensures forall j :: 0 <= j < k ==> r[j] == s[j]
    ensures forall j :: k <= j < |r| ==> r[j] == s[j + 1]
  {
    s[..k] + s[k + 1..]
  }

  /** Removing the element at `k` keeps every other element. */
  lemma RemoveAt<T>(s: seq<T>, k: nat)
    requires k < |s|
    ensures forall j :: 0 <= j < |s| && j != k ==> s[j] in Without(s, k)
  {
    var r := Without(s, k);
    forall j | 0 <= j < |s| && j != k ensures s[j] in r {
      if j < k {
        assert r[j] == s[j];
      } else {
        assert r[j - 1] == s[j];
      }
    }
  }

  /** Polling the node at `k` and, when the map still holds it, making its
      vertex final keeps the queue valid; the polled node is gone. */
  lemma QueueAfterPoll<V>(mst: map<V, MSTNode<V>>, pq: seq<MSTNode<V>>, finalized: set<V>, finalized': set<V>, k: nat)
    requires QueueValid(mst, pq, finalized) && k < |pq|
    requires forall u :: u in mst ==> mst[u].vertex == u
    requires pq[k] == mst[pq[k].vertex] ==> finalized' == finalized + {pq[k].vertex}
    requires pq[k] != mst[pq[k].vertex] ==> finalized' == finalized
    ensures QueueValid(mst, Without(pq, k), finalized')
    ensures pq[k] !in Without(pq, k)
  {
    var pq' := Without(pq, k);
    RemoveAt(pq, k);
    forall u | u in mst && u !in finalized' ensures mst[u] in pq' {
      var j :| 0 <= j < |pq| && pq[j] == mst[u];
      assert j != k;
    }
    forall i | 0 <= i < |pq'| && pq'[i] == mst[pq'[i].vertex] ensures pq'[i].vertex !in finalized' {
      var j := if i < k then i else i + 1;
      assert pq'[i] == pq[j] && j != k;
    }
    forall i, j | 0 <= i < j < |pq'| ensures pq'[i] != pq'[j] {
      var i', j' := if i < k then i else i + 1, if j < k then j else j + 1;
      assert pq'[i] == pq[i'] && pq'[j] == pq[j'];
    }
  }

  lemma RouteParentsGrow<V>(mst: map<V, MSTNode<V>>, route: map<V, seq<V>>, finalized: set<V>, finalized': set<V>)
    requires mst.Keys == route.Keys && RouteParents(mst, route, finalized) && finalized <= finalized'
    ensures RouteParents(mst, route, finalized')
  {
    forall v | v in mst ensures ParentLink(mst, route, finalized', v) {
      assert ParentLink(mst, route, finalized, v);
    }
  }

  /** Polling the lightest node: if the map still holds it its vertex is not
      final yet and becomes final, with the search's invariants kept and every
      edge except those from the new final vertex still relaxed; otherwise its
      vertex is already final and the node is merely dropped. */
  lemma PollStep<V(!new)>(g: Graph<V>, w: (V, V) -> nat, start: V, mst: map<V, MSTNode<V>>, pq: seq<MSTNode<V>>,
                          route: map<V, seq<V>>, finalized: set<V>, k: nat)
    requires SearchValid(g, w, start, mst, pq, route, finalized) && Frontier(g, w, mst, finalized)
    requires IsLightest(pq, k)
    requires start !in finalized ==> pq == [mst[start]] && mst.Keys == {start}
    ensures pq[k].vertex in mst && forall u :: u in mst ==> mst[u].vertex == u
    ensures pq[k] != mst[pq[k].vertex] ==>
              && pq[k].vertex in finalized && start in finalized
              && pq[k].weightSumTo > mst[pq[k].vertex].weightSumTo
              && SearchValid(g, w, start, mst, Without(pq, k), route, finalized)
    ensures pq[k] == mst[pq[k].vertex] ==>
              && pq[k].vertex !in finalized && start in finalized + {pq[k].vertex}
              && SearchValid(g, w, start, mst, Without(pq, k), route, finalized + {pq[k].vertex})
              && FrontierExcept(g, w, mst, finalized + {pq[k].vertex}, pq[k].vertex)
              && pq[k] !in Without(pq, k)
  {
    var v := pq[k].vertex;
    if pq[k] == mst[v] {
      var finalized' := finalized + {v};
      forall u | u in mst && u !in finalized ensures mst[v].weightSumTo <= mst[u].weightSumTo {
        var j :| 0 <= j < |pq| && pq[j] == mst[u];
      }
      if start !in finalized {
        assert v in mst.Keys;
      }
      PolledIsMinimal(g, w, start, mst, finalized, v);
      RouteParentsGrow(mst, route, finalized, finalized');
      QueueAfterPoll(mst, pq, finalized, finalized', k);
      forall x, n | x in finalized' && x != v && Edge(g, x, n) ensures Relaxed(g, w, mst, finalized', x, n) {
        assert Relaxed(g, w, mst, finalized, x, n);
      }
    } else {
      assert mst[v] !in pq by {
        forall j | 0 <= j < |pq| ensures pq[j] != mst[v] {
          assert pq[k].weightSumTo <= pq[j].weightSumTo;
        }
      }
      QueueAfterPoll(mst, pq, finalized, finalized, k);
    }
  }

  /** What holds at the head of the loop of `dijkstraShortestPath`. */
  ghost predicate Between<V(!new)>(g: Graph<V>, w: (V, V) -> nat, start: V, target: V, mst: map<V, MSTNode<V>>,
                                  pq: seq<MSTNode<V>>, route: map<V, seq<V>>, finalized: set<V>) {
    && SearchValid(g, w, start, mst, pq, route, finalized) && Frontier(g, w, mst, finalized)
    && target !in finalized
    && (start !in finalized ==> pq == [mst[start]] && mst.Keys == {start})
  }

  /** The head of the loop of `dijkstraShortestPath`: polls a lightest node,
      marks it and records its vertex as visited. A node the map still holds
      makes its vertex final. */
  method PollLightest<V(!new)>(g: Graph<V>, w: (V, V) -> nat, start: V, mst: map<V, MSTNode<V>>, pq: seq<MSTNode<V>>,
                               ghost route: map<V, seq<V>>, ghost finalized: set<V>, path: GPath<V>, k: nat,
                               ghost nodes: set<MSTNode<V>>)
    returns (nearest: MSTNode<V>, pq': seq<MSTNode<V>>, ghost finalized': set<V>)
    requires IsLightest(pq, k)
    requires forall i :: 0 <= i < |pq| ==> pq[i] in nodes
    requires SearchValid(g, w, start, mst, pq, route, finalized) && Frontier(g, w, mst, finalized)
    requires forall u :: u in mst ==> (mst[u].marked <==> u in finalized)
    requires start !in finalized ==> pq == [mst[start]] && mst.Keys == {start}
    modifies path`visited, pq[k]
    ensures path.visited == old(path.visited) + {nearest.vertex}
    ensures nearest in pq && nearest.vertex in mst && nearest.vertex in finalized' && start in finalized'
    ensures forall i :: 0 <= i < |pq'| ==> pq'[i] in nodes
    ensures |pq'| == |pq| - 1
    ensures nearest == mst[nearest.vertex] ==> nearest.vertex !in finalized && finalized' == finalized + {nearest.vertex}
    ensures nearest != mst[nearest.vertex] ==>
              && finalized' == finalized && nearest.weightSumTo > mst[nearest.vertex].weightSumTo
              && Frontier(g, w, mst, finalized)
    ensures nearest == mst[nearest.vertex] ==> nearest !in pq'
    ensures SearchValid(g, w, start, mst, pq', route, finalized')
    ensures FrontierExcept(g, w, mst, finalized', nearest.vertex)
    ensures forall u :: u in mst ==> (mst[u].marked <==> u in finalized')
  {
    PollStep(g, w, start, mst, pq, route, finalized, k);
    nearest := pq[k];
    var v := nearest.vertex;
    RemoveAt(pq, k);
    pq' := Without(pq, k);
    finalized' := if nearest == mst[v] then finalized + {v} else finalized;
    nearest.marked := true;
    path.visited := path.visited + {v};
    forall u | u in mst ensures mst[u].marked <==> u in finalized' {
      assert mst[u].vertex == u;
    }
    if nearest != mst[v] {
      assert FrontierExcept(g, w, mst, finalized', v);
    }
  }

  /** One pass of the loop of `dijkstraShortestPath`: polls a lightest node,
      marks it, records its vertex as visited and relaxes its neighbours. When
      the polled vertex is the target, the map holds the target's final node. */
  method ProcessNearest<V(!new)>(g: Graph<V>, w: (V, V) -> nat, start: V, target: V, mst: map<V, MSTNode<V>>,
                                 pq: seq<MSTNode<V>>, ghost route: map<V, seq<V>>, ghost finalized: set<V>,
                                 path: GPath<V>, ghost nodes: set<MSTNode<V>>)
    returns (nearest: MSTNode<V>, mst': map<V, MSTNode<V>>, pq': seq<MSTNode<V>>,
             ghost route': map<V, seq<V>>, ghost finalized': set<V>, ghost nodes': set<MSTNode<V>>)
    requires pq != []
    requires forall i :: 0 <= i < |pq| ==> pq[i] in nodes
    requires Between(g, w, start, target, mst, pq, route, finalized)
    requires forall u :: u in mst ==> (mst[u].marked <==> u in finalized)
    modifies path`visited, nodes
    ensures path.visited == old(path.visited) + {nearest.vertex}
    ensures finalized' == finalized + {nearest.vertex} && start in finalized'
    ensures forall u :: u in mst' ==> (mst'[u].marked <==> u in finalized')
    ensures forall i :: 0 <= i < |pq'| ==> pq'[i] in nodes'
    ensures nodes <= nodes' && fresh(nodes' - nodes)
    ensures (finalized' == finalized && |pq'| < |pq|) ||
            (Vertices(g) + {start}) - finalized' < (Vertices(g) + {start}) - finalized
    ensures nearest.vertex != target ==> Between(g, w, start, target, mst', pq', route', finalized')
    ensures nearest.vertex == target ==>
              && RoutesValid(g, w, start, mst', route', finalized') && Minimal(g, w, start, mst', finalized')
              && target in mst' && mst'[target] == nearest
  {
    MinimumExists(pq);
    var k :| 0 <= k < |pq| && IsLightest(pq, k);
    nearest, pq', finalized' := PollLightest(g, w, start, mst, pq, route, finalized, path, k, nodes);
    mst', pq', route', nodes' := RelaxNeighbours(g, w, start, nearest, mst, pq', route, finalized', nodes);
  }

  /** `dijkstraShortestPath(start, target, weightMapper)`. */
  method DijkstraShortestPath<V(!new)>(g: Graph<V>, startVertex: Option<V>, targetVertex: Option<V>, w: (V, V) -> nat)
    returns (r: Option<GPath<V>>)
    ensures startVertex.None? || targetVertex.None? ==> r.None?
    ensures r.Some? ==> fresh(r.value)
    ensures startVertex.Some? && targetVertex.Some? && startVertex.value == targetVertex.value ==>
              r.Some? && r.value.vertices == [startVertex.value] && r.value.visited == {startVertex.value}
              && r.value.totalWeight == 0
    ensures r.Some? ==>
              && startVertex.Some? && targetVertex.Some?
              && IsPathFromTo(g, r.value.vertices, startVertex.value, targetVertex.value)
              && r.value.totalWeight == PathWeight(w, r.value.vertices)
              && (forall p :: IsPathFromTo(g, p, startVertex.value, targetVertex.value) ==>
                    PathWeight(w, p) >= r.value.totalWeight)
              && startVertex.value in r.value.visited && targetVertex.value in r.value.visited
              && (forall u :: u in r.value.visited ==> Reachable(g, startVertex.value, u))
    ensures startVertex.Some? && targetVertex.Some? ==>
              (r.Some? <==> Reachable(g, startVertex.value, targetVertex.value))
  {
    if startVertex.None? || targetVertex.None? {
      return None;
    }
    var start, target := startVertex.value, targetVertex.value;
    var path := new GPath();
    path.visited := path.visited + {start};
    ReachableFromItself(g, start);
    if start == target {
      path.AddVertex(start);
      return Some(path);
    }
    var found, mst, route, finalized := SpanningTreeSearch(g, w, start, target, path);
    if found.None? {
      return None;
    }
    ReconstructPath(g, w, start, target, found.value, mst, route, finalized, path);
    return Some(path);
  }

  /** The loop of `dijkstraShortestPath`: grows the spanning tree from the
      start vertex until the target's node is polled (its final node is
      returned) or the queue runs empty (the target is unreachable). Every
      polled vertex is recorded in `path.visited`. */
  method SpanningTreeSearch<V(!new)>(g: Graph<V>, w: (V, V) -> nat, start: V, target: V, path: GPath<V>)
    returns (found: Option<MSTNode<V>>, mst: map<V, MSTNode<V>>, ghost route: map<V, seq<V>>,
             ghost finalized: set<V>)
    requires start != target
    modifies path`visited
    ensures path.visited == old(path.visited) + finalized
    ensures found.Some? ==>
              && RoutesValid(g, w, start, mst, route, finalized) && Minimal(g, w, start, mst, finalized)
              && target in finalized && target in mst && mst[target] == found.value
    ensures found.None? ==> !Reachable(g, start, target)
  {
    var nearest := new MSTNode(start, None, 0);
    mst := map[start := nearest];
    route := map[start := [start]];
    finalized := {};
    InitialTree(g, w, start, target, nearest);
    found, mst, route, finalized := GrowTree(g, w, start, target, path, mst, [nearest], route, finalized, {nearest});
  }

  /** The loop itself, from a state in which the loop invariant holds. */
  method GrowTree<V(!new)>(g: Graph<V>, w: (V, V) -> nat, start: V, target: V, path: GPath<V>,
                           mst0: map<V, MSTNode<V>>, pq0: seq<MSTNode<V>>, ghost route0: map<V, seq<V>>,
                           ghost finalized0: set<V>, ghost nodes0: set<MSTNode<V>>)
    returns (found: Option<MSTNode<V>>, mst: map<V, MSTNode<V>>, ghost route: map<V, seq<V>>,
             ghost finalized: set<V>)
    requires Between(g, w, start, target, mst0, pq0, route0, finalized0)
    requires forall u :: u in mst0 ==> (mst0[u].marked <==> u in finalized0)
    requires forall i :: 0 <= i < |pq0| ==> pq0[i] in nodes0
    requires finalized0 <= path.visited
    modifies path`visited, nodes0
    ensures path.visited == old(path.visited) + finalized
    ensures found.Some? ==>
              && RoutesValid(g, w, start, mst, route, finalized) && Minimal(g, w, start, mst, finalized)
              && target in finalized && target in mst && mst[target] == found.value
    ensures found.None? ==> !Reachable(g, start, target)
  {
    mst, route, finalized := mst0, route0, finalized0;
    var pq := pq0;
    ghost var nodes := nodes0;
    var nearest;
    while pq != []
      invariant path.visited == old(path.visited) + finalized
      invariant Between(g, w, start, target, mst, pq, route, finalized)
      invariant forall u :: u in mst ==> (mst[u].marked <==> u in finalized)
      invariant forall i :: 0 <= i < |pq| ==> pq[i] in nodes
      invariant nodes0 <= nodes && fresh(nodes - nodes0)
      decreases (Vertices(g) + {start}) - finalized, |pq|
    {
      nearest, mst, pq, route, finalized, nodes :=
        ProcessNearest(g, w, start, target, mst, pq, route, finalized, path, nodes);
      if nearest.vertex == target {
        return Some(nearest), mst, route, finalized;
      }
    }
    Exhausted(g, w, start, target, mst, route, finalized);
    return None, mst, route, finalized;
  }

  /** The spanning tree that holds only the start vertex, with weight 0 and
      no parent, with its node the only one queued, is where the loop starts. */
  lemma InitialTree<V(!new)>(g: Graph<V>, w: (V, V) -> nat, start: V, target: V, node: MSTNode<V>)
    requires start != target
    requires node.vertex == start && node.parentVertex.None? && node.weightSumTo == 0
    ensures Between(g, w, start, target, map[start := node], [node], map[start := [start]], {})
  {
    var mst, route := map[start := node], map[start := [start]];
    assert IsPathFromTo(g, [start], start, start);
    assert ParentLink(mst, route, {}, start);
    assert RouteOk(g, w, start, mst, route, start);
  }

  /** Once the target is final its route is a path from the start, no path is
      lighter, and every final vertex is reachable. */
  lemma FinalRoute<V(!new)>(g: Graph<V>, w: (V, V) -> nat, start: V, target: V, mst: map<V, MSTNode<V>>,
                            route: map<V, seq<V>>, finalized: set<V>)
    requires RoutesValid(g, w, start, mst, route, finalized) && Minimal(g, w, start, mst, finalized)
    requires target in finalized
    ensures IsPathFromTo(g, route[target], start, target)
    ensures forall p :: IsPathFromTo(g, p, start, target) ==> PathWeight(w, p) >= PathWeight(w, route[target])
    ensures forall u :: u in finalized + {start} ==> Reachable(g, start, u)
  {
    assert RouteOk(g, w, start, mst, route, target);
    forall u | u in finalized + {start} ensures Reachable(g, start, u) {
      assert RouteOk(g, w, start, mst, route, u);
    }
  }

  /** A queue that runs empty leaves the final vertices closed under edges, so
      a target that never became final is unreachable. */
  lemma Exhausted<V(!new)>(g: Graph<V>, w: (V, V) -> nat, start: V, target: V, mst: map<V, MSTNode<V>>,
                           route: map<V, seq<V>>, finalized: set<V>)
    requires Between(g, w, start, target, mst, [], route, finalized)
    ensures !Reachable(g, start, target)
  {
    assert Closed(g, finalized) by {
      forall x, n | x in finalized && Edge(g, x, n) ensures n in finalized {
        assert Relaxed(g, w, mst, finalized, x, n);
        assert mst[n] !in [];
      }
    }
    if Reachable(g, start, target) {
      ClosedContainsReachable(g, finalized, start, target);
    }
  }

  /** The end of `dijkstraShortestPath`: walks the parent links from the
      target's node back to the start, putting each vertex at the front of the
      path, then recalculates the path's weight. */
  method ReconstructPath<V(!new)>(g: Graph<V>, w: (V, V) -> nat, start: V, target: V, node: MSTNode<V>,
                                  mst: map<V, MSTNode<V>>, ghost route: map<V, seq<V>>, ghost finalized: set<V>,
                                  path: GPath<V>)
    requires RoutesValid(g, w, start, mst, route, finalized) && Minimal(g, w, start, mst, finalized)
    requires target in finalized && target in mst && mst[target] == node
    requires path.vertices == []
    modifies path`vertices, path`totalWeight
    ensures path.vertices == route[target] && path.totalWeight == PathWeight(w, route[target])
    ensures IsPathFromTo(g, path.vertices, start, target)
    ensures forall p :: IsPathFromTo(g, p, start, target) ==> PathWeight(w, p) >= path.totalWeight
    ensures forall u :: u in finalized + {start} ==> Reachable(g, start, u)
  {
    var current := Some(node);
    while current.Some?
      invariant current.Some? ==> current.value.vertex in mst && mst[current.value.vertex] == current.value
      invariant current.Some? ==>
                  && |route[current.value.vertex]| <= |route[target]|
                  && route[target][..|route[current.value.vertex]|] == route[current.value.vertex]
                  && path.vertices == route[target][|route[current.value.vertex]|..]
      invariant current.None? ==> path.vertices == route[target]
      decreases if current.Some? then |route[current.value.vertex]| else 0
    {
      var u := current.value.vertex;
      assert ParentLink(mst, route, finalized, u);
      path.vertices := [u] + path.vertices;
      current := Get(mst, current.value.parentVertex);
      if current.Some? {
        ghost var p := current.value.vertex;
        assert route[u] == route[p] + [u];
        assert route[target][..|route[p]|] == route[p];
      } else {
        assert route[u] == [u];
        assert path.vertices == route[target][0..];
      }
    }
    path.ReCalculateTotalWeight(w);
    FinalRoute(g, w, start, target, mst, route, finalized);
  }
}
