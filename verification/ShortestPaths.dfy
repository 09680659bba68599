/**
 Dijkstra's algorithm with path reconstruction, over named nodes and weighted edge lists.
 `ShortestPath` returns a path if and only if there is one lighter than the initial distance,
 and then no path is lighter; in every other case it ends in a failed look-up.
 */
module ShortestPaths {
  import opened Sequences

  type Node = string
  type Graph = map<Node, seq<(Node, nat)>>

  const FAR: nat := 9999
  const LIMIT: nat := 9999999
  const NONE: Node := ""

  /** There is an edge from u to v of weight w. */
  predicate HasEdge(g: Graph, u: Node, v: Node, w: nat) {
    u in g && (v, w) in g[u]
  }

  /** A walk along edges of the graph, with their weights. */
  ghost predicate Walk(g: Graph, path: seq<Node>, weights: seq<nat>) {
    && |path| == |weights| + 1
    && forall i {:trigger weights[i]} | 0 <= i < |weights| :: HasEdge(g, path[i], path[i + 1], weights[i])
  }

  function Sum(weights: seq<nat>): (s: nat) {
    if weights == [] then 0 else Sum(weights[..|weights| - 1]) + weights[|weights| - 1]
  }

  ghost predicate Joins(g: Graph, path: seq<Node>, weights: seq<nat>, u: Node, v: Node) {
    Walk(g, path, weights) && path[0] == u && path[|path| - 1] == v
  }

  /** What the caller provides: distinct, named nodes, and edges that lead to nodes. */
  ghost predicate Given(nodes: seq<Node>, g: Graph) {
    && (forall i, j | 0 <= i < j < |nodes| :: nodes[i] != nodes[j])
    && NONE !in nodes
    && forall u, v, w | HasEdge(g, u, v, w) :: v in nodes
  }

  // ---------- the state of the search ----------

  /** The nodes are those that were taken out of the queue and those still in it. */
  ghost predicate Split(nodes: seq<Node>, order: seq<Node>, q: seq<Node>) {
    && (forall i, j | 0 <= i < j < |q| :: q[i] != q[j])
    && (forall v :: v in nodes <==> v in order || v in q)
    && (forall v | v in order :: v !in q)
  }

  /** Every node is far, or is the source, or was reached from a node taken out before. */
  ghost predicate Reached(g: Graph, source: Node, dist: map<Node, nat>, prev: map<Node, Node>, order: seq<Node>,
                          v: Node)
    requires v in dist && v in prev && forall u | u in order :: u in dist
  {
    if v == source then dist[v] == 0 && prev[v] == NONE
    else if prev[v] == NONE then dist[v] == FAR
    else
      && prev[v] in order && dist[prev[v]] <= dist[v] < FAR
      && HasEdge(g, prev[v], v, dist[v] - dist[prev[v]])
  }

  ghost predicate Keyed(nodes: seq<Node>, source: Node, dist: map<Node, nat>, prev: map<Node, Node>, order: seq<Node>) {
    && (forall v | v in nodes :: v in dist && v in prev)
    && (forall u | u in order :: u in nodes)
    && source in dist && (source in nodes || forall v | v in nodes :: dist[v] == FAR)
    && NONE !in prev && prev.Keys == set v | v in nodes
  }

  /** The tree of predecessors. */
  ghost predicate Tree(nodes: seq<Node>, g: Graph, source: Node, dist: map<Node, nat>, prev: map<Node, Node>,
                       order: seq<Node>)
    requires Keyed(nodes, source, dist, prev, order)
  {
    && (forall v {:trigger Reached(g, source, dist, prev, order, v)} | v in nodes ::
          Reached(g, source, dist, prev, order, v))
    && (forall k {:trigger prev[order[k]]} | 0 <= k < |order| :: prev[order[k]] == NONE || prev[order[k]] in order[..k])
  }

  /** Nodes are taken out in the order of their distance. */
  ghost predicate Sorted(dist: map<Node, nat>, order: seq<Node>, q: seq<Node>)
    requires (forall u | u in order :: u in dist) && (forall v | v in q :: v in dist)
  {
    forall u, v | u in order && v in q :: dist[u] <= dist[v]
  }

  /** The edges of the nodes taken out have been used. */
  ghost predicate Settled(g: Graph, dist: map<Node, nat>, order: seq<Node>)
    requires forall u, v, w | HasEdge(g, u, v, w) :: v in dist
    requires forall u | u in order :: u in dist
  {
    forall u, v, w | u in order && HasEdge(g, u, v, w) :: dist[v] <= dist[u] + w
  }

  /** All of it. */
  ghost predicate Searching(nodes: seq<Node>, g: Graph, source: Node, dist: map<Node, nat>, prev: map<Node, Node>,
                            order: seq<Node>, q: seq<Node>)
  {
    && Given(nodes, g) && Keyed(nodes, source, dist, prev, order) && Split(nodes, order, q)
    && Tree(nodes, g, source, dist, prev, order) && Sorted(dist, order, q) && Settled(g, dist, order)
  }

  // ---------- one node ----------

  /** `popMin`: the first node with the least distance, or the first node if all are out of range. */
  method PopMin(dist: map<Node, nat>, q: seq<Node>) returns (minNode: Node, rest: seq<Node>)
    requires NONE !in q && forall v | v in q :: v in dist
    ensures q == [] ==> minNode == NONE && rest == q
    ensures q != [] ==> exists k :: 0 <= k < |q| && minNode == q[k] && rest == Taken(q, k) && Least(dist, q, k)
  {
    if q == [] {
      return NONE, q;
    }
    var minim := LIMIT;
    minNode := NONE;
    ghost var k: nat := 0;
    for i := 0 to |q|
      invariant forall j | 0 <= j < i :: minim <= dist[q[j]]
      invariant if minNode == NONE then minim == LIMIT && k == 0
                else k < i && minNode == q[k] && minim == dist[q[k]] < LIMIT
      invariant minNode != NONE ==> forall j | 0 <= j < k :: minim < dist[q[j]]
    {
      if dist[q[i]] < minim {
        minNode := q[i];
        minim := dist[q[i]];
        k := i;
      }
    }
    if minNode == NONE {
      minNode := q[0];
    }
    WithoutAt(q, k);
    rest := Without(q, minNode);
  }

  /** The first least distance below the limit; position 0 if there is none. */
  ghost predicate Least(dist: map<Node, nat>, q: seq<Node>, k: nat)
    requires k < |q| && forall v | v in q :: v in dist
  {
    if forall j | 0 <= j < |q| :: LIMIT <= dist[q[j]] then k == 0
    else (forall j | 0 <= j < |q| :: dist[q[k]] <= dist[q[j]]) && forall j | 0 <= j < k :: dist[q[k]] < dist[q[j]]
  }

  /** While the edges of the node taken out last are being used: the first n have been. */
  ghost predicate Relaxing(nodes: seq<Node>, g: Graph, source: Node, dist: map<Node, nat>, prev: map<Node, Node>,
                           order: seq<Node>, q: seq<Node>, m: Node, n: nat)
  {
    && Given(nodes, g) && Keyed(nodes, source, dist, prev, order + [m]) && Split(nodes, order + [m], q)
    && Tree(nodes, g, source, dist, prev, order + [m]) && Sorted(dist, order + [m], q) && Settled(g, dist, order)
    && (forall u | u in order :: dist[u] <= dist[m])
    && Used(g, dist, m, n)
  }

  /** The first n edges of a node have been used. */
  ghost predicate Used(g: Graph, dist: map<Node, nat>, m: Node, n: nat)
    requires m in dist
  {
    m in g ==> n <= |g[m]| && forall i | 0 <= i < n :: g[m][i].0 in dist && dist[g[m][i].0] <= dist[m] + g[m][i].1
  }

  lemma {:induction false} InRange(nodes: seq<Node>, g: Graph, source: Node, dist: map<Node, nat>,
                                   prev: map<Node, Node>, order: seq<Node>, v: Node)
    requires Keyed(nodes, source, dist, prev, order) && Tree(nodes, g, source, dist, prev, order) && v in nodes
    ensures dist[v] <= FAR
  {
    assert Reached(g, source, dist, prev, order, v);
  }

  lemma {:induction false} TreeGrows(nodes: seq<Node>, g: Graph, source: Node, dist: map<Node, nat>,
                                     prev: map<Node, Node>, order: seq<Node>, m: Node)
    requires Keyed(nodes, source, dist, prev, order) && Tree(nodes, g, source, dist, prev, order) && m in nodes
    ensures Keyed(nodes, source, dist, prev, order + [m]) && Tree(nodes, g, source, dist, prev, order + [m])
  {
    var next := order + [m];
    forall v | v in nodes
      ensures Reached(g, source, dist, prev, next, v)
    {
      assert Reached(g, source, dist, prev, order, v);
    }
    forall k | 0 <= k < |next|
      ensures prev[next[k]] == NONE || prev[next[k]] in next[..k]
    {
      assert Reached(g, source, dist, prev, order, m);
      assert next[..k] == order[..k];
    }
  }

  lemma {:induction false} SplitTake(nodes: seq<Node>, order: seq<Node>, q: seq<Node>, k: nat)
    requires Split(nodes, order, q) && k < |q|
    ensures Split(nodes, order + [q[k]], Taken(q, k))
    ensures forall v :: v in q <==> v == q[k] || v in Taken(q, k)
  {
    var rest := Taken(q, k);
    assert forall j | 0 <= j < |rest| :: rest[j] == q[if j < k then j else j + 1];
    assert forall v :: v in q <==> v == q[k] || v in rest;
  }

  lemma {:induction false} LeastIs(nodes: seq<Node>, g: Graph, source: Node, dist: map<Node, nat>,
                                   prev: map<Node, Node>, order: seq<Node>, q: seq<Node>, k: nat)
    requires Searching(nodes, g, source, dist, prev, order, q) && k < |q| && Least(dist, q, k)
    ensures forall v | v in q :: dist[q[k]] <= dist[v]
  {
    InRange(nodes, g, source, dist, prev, order, q[0]);
  }

  lemma {:induction false} Take(nodes: seq<Node>, g: Graph, source: Node, dist: map<Node, nat>, prev: map<Node, Node>,
                                order: seq<Node>, q: seq<Node>, k: nat)
    requires Searching(nodes, g, source, dist, prev, order, q) && k < |q| && Least(dist, q, k)
    ensures Relaxing(nodes, g, source, dist, prev, order, Taken(q, k), q[k], 0)
  {
    LeastIs(nodes, g, source, dist, prev, order, q, k);
    SplitTake(nodes, order, q, k);
    TreeGrows(nodes, g, source, dist, prev, order, q[k]);
  }

  /** A shorter distance for v: it was not taken out yet, and nothing else changes. */
  lemma {:induction false} Improves(nodes: seq<Node>, g: Graph, source: Node, dist: map<Node, nat>,
                                    prev: map<Node, Node>, order: seq<Node>, q: seq<Node>, m: Node, v: Node, w: nat)
    requires Given(nodes, g) && Keyed(nodes, source, dist, prev, order + [m]) && Split(nodes, order + [m], q)
    requires Tree(nodes, g, source, dist, prev, order + [m]) && forall u | u in order :: dist[u] <= dist[m]
    requires HasEdge(g, m, v, w) && v in nodes && dist[m] + w < dist[v]
    ensures v in q && v !in order + [m] && v != source && dist[m] < FAR && dist[m] + w < FAR
  {
    InRange(nodes, g, source, dist, prev, order + [m], v);
    assert Reached(g, source, dist, prev, order + [m], v);
    assert m in order + [m];
  }

  lemma {:induction false} ImprovesTree(nodes: seq<Node>, g: Graph, source: Node, dist: map<Node, nat>,
                                        prev: map<Node, Node>, order: seq<Node>, v: Node, m: Node, w: nat)
    requires Keyed(nodes, source, dist, prev, order) && Tree(nodes, g, source, dist, prev, order)
    requires m in order && v in nodes && v !in order && v != source && v != NONE && m != NONE
    requires HasEdge(g, m, v, w) && dist[m] + w < FAR && source in nodes
    ensures Keyed(nodes, source, dist[v := dist[m] + w], prev[v := m], order)
    ensures Tree(nodes, g, source, dist[v := dist[m] + w], prev[v := m], order)
  {
    var dist', prev' := dist[v := dist[m] + w], prev[v := m];
    forall u | u in nodes
      ensures Reached(g, source, dist', prev', order, u)
    {
      assert Reached(g, source, dist, prev, order, u);
    }
    assert forall k | 0 <= k < |order| :: order[k] in order && prev'[order[k]] == prev[order[k]];
  }

  lemma {:induction false} ImprovesSorted(dist: map<Node, nat>, order: seq<Node>, q: seq<Node>, v: Node, alt: nat)
    requires (forall u | u in order :: u in dist) && (forall u | u in q :: u in dist) && Sorted(dist, order, q)
    requires v !in order && forall u | u in order :: dist[u] <= alt
    ensures Sorted(dist[v := alt], order, q)
  {
  }

  lemma {:induction false} ImprovesSettled(g: Graph, dist: map<Node, nat>, order: seq<Node>, v: Node, alt: nat)
    requires (forall u, x, w | HasEdge(g, u, x, w) :: x in dist) && (forall u | u in order :: u in dist)
    requires Settled(g, dist, order) && v in dist && v !in order && alt <= dist[v]
    ensures Settled(g, dist[v := alt], order)
  {
  }

  lemma {:induction false} ImprovesUsed(g: Graph, dist: map<Node, nat>, m: Node, n: nat)
    requires m in dist && m in g && n < |g[m]| && Used(g, dist, m, n) && g[m][n].0 in dist && g[m][n].0 != m
    requires dist[m] + g[m][n].1 <= dist[g[m][n].0]
    ensures Used(g, dist[g[m][n].0 := dist[m] + g[m][n].1], m, n + 1)
  {
  }

  lemma {:induction false} Relaxed(nodes: seq<Node>, g: Graph, source: Node, dist: map<Node, nat>,
                                   prev: map<Node, Node>, order: seq<Node>, q: seq<Node>, m: Node, n: nat, v: Node,
                                   w: nat)
    requires Relaxing(nodes, g, source, dist, prev, order, q, m, n) && m in g && n < |g[m]| && g[m][n] == (v, w)
    requires m in dist && v in dist && dist[m] + w < dist[v]
    ensures Relaxing(nodes, g, source, dist[v := dist[m] + w], prev[v := m], order, q, m, n + 1)
  {
    assert HasEdge(g, m, v, w);
    assert m in order + [m];
    Improves(nodes, g, source, dist, prev, order, q, m, v, w);
    InRange(nodes, g, source, dist, prev, order + [m], m);
    ImprovesTree(nodes, g, source, dist, prev, order + [m], v, m, w);
    ImprovesSorted(dist, order + [m], q, v, dist[m] + w);
    assert forall u | u in order :: u in order + [m];
    ImprovesSettled(g, dist, order, v, dist[m] + w);
    ImprovesUsed(g, dist, m, n);
    var dist', prev' := dist[v := dist[m] + w], prev[v := m];
    assert Keyed(nodes, source, dist', prev', order + [m]);
    assert Split(nodes, order + [m], q);
    assert Tree(nodes, g, source, dist', prev', order + [m]);
    assert Sorted(dist', order + [m], q);
    assert Settled(g, dist', order);
    assert Used(g, dist', m, n + 1);
    assert (forall u | u in order :: dist'[u] <= dist'[m]);
  }

  /** A neighbour that is not improved is near enough already. */
  lemma {:induction false} NotImproved(nodes: seq<Node>, g: Graph, source: Node, dist: map<Node, nat>,
                                       prev: map<Node, Node>, order: seq<Node>, q: seq<Node>, m: Node, n: nat)
    requires Relaxing(nodes, g, source, dist, prev, order, q, m, n) && m in g && n < |g[m]|
    ensures m in dist && m != NONE && HasEdge(g, m, g[m][n].0, g[m][n].1) && g[m][n].0 in dist
    ensures dist[g[m][n].0] <= dist[m] + g[m][n].1 ==> Relaxing(nodes, g, source, dist, prev, order, q, m, n + 1)
  {
    assert HasEdge(g, m, g[m][n].0, g[m][n].1);
    assert m in order + [m];
  }

  lemma {:induction false} AllUsed(nodes: seq<Node>, g: Graph, source: Node, dist: map<Node, nat>,
                                   prev: map<Node, Node>, order: seq<Node>, q: seq<Node>, m: Node, n: nat)
    requires Relaxing(nodes, g, source, dist, prev, order, q, m, n) && (m in g ==> n == |g[m]|)
    ensures Searching(nodes, g, source, dist, prev, order + [m], q)
  {
    forall u, v, w | u in order + [m] && HasEdge(g, u, v, w)
      ensures dist[v] <= dist[u] + w
    {
      if u !in order {
        var i :| 0 <= i < |g[m]| && g[m][i] == (v, w);
      }
    }
  }

  /** The distances and predecessors after one edge out of m has been used. */
  function Use(dist: map<Node, nat>, prev: map<Node, Node>, m: Node, edge: (Node, nat)): (r: (map<Node, nat>,
               map<Node, Node>))
    requires m in dist && edge.0 in dist
  {
    var alt := dist[m] + edge.1;
    if alt < dist[edge.0] then (dist[edge.0 := alt], prev[edge.0 := m]) else (dist, prev)
  }

  lemma {:induction false} UseKeeps(nodes: seq<Node>, g: Graph, source: Node, dist: map<Node, nat>,
                                    prev: map<Node, Node>, order: seq<Node>, q: seq<Node>, m: Node, n: nat)
    requires Relaxing(nodes, g, source, dist, prev, order, q, m, n) && m in g && n < |g[m]|
    requires m in dist && g[m][n].0 in dist
    ensures Relaxing(nodes, g, source, Use(dist, prev, m, g[m][n]).0, Use(dist, prev, m, g[m][n]).1, order, q, m, n + 1)
  {
    if dist[m] + g[m][n].1 < dist[g[m][n].0] {
      Relaxed(nodes, g, source, dist, prev, order, q, m, n, g[m][n].0, g[m][n].1);
    } else {
      NotImproved(nodes, g, source, dist, prev, order, q, m, n);
    }
  }

  /** The loop over the neighbours of the node taken out. */
  method Relax(nodes: seq<Node>, g: Graph, source: Node, dist0: map<Node, nat>, prev0: map<Node, Node>,
               ghost order: seq<Node>, ghost q: seq<Node>, m: Node)
    returns (dist: map<Node, nat>, prev: map<Node, Node>)
    requires Relaxing(nodes, g, source, dist0, prev0, order, q, m, 0)
    ensures Searching(nodes, g, source, dist, prev, order + [m], q)
  {
    dist, prev := dist0, prev0;
    if m in g {
      for i := 0 to |g[m]|
        invariant Relaxing(nodes, g, source, dist, prev, order, q, m, i)
      {
        NotImproved(nodes, g, source, dist, prev, order, q, m, i);
        var r := Use(dist, prev, m, g[m][i]);
        UseKeeps(nodes, g, source, dist, prev, order, q, m, i);
        dist, prev := r.0, r.1;
      }
    }
    AllUsed(nodes, g, source, dist, prev, order, q, m, if m in g then |g[m]| else 0);
  }

  /** The search of `ShortestPath`. */
  method Search(nodes: seq<Node>, g: Graph, source: Node) returns (dist: map<Node, nat>, prev: map<Node, Node>,
                ghost order: seq<Node>)
    requires Given(nodes, g) && source != NONE
    ensures Searching(nodes, g, source, dist, prev, order, [])
  {
    dist := (map v | v in nodes :: FAR)[source := 0];
    prev := map v | v in nodes :: NONE;
    var q := nodes;
    order := [];
    var minNode;
    while q != []
      invariant Searching(nodes, g, source, dist, prev, order, q)
      decreases |q|
    {
      var rest;
      minNode, rest := PopMin(dist, q);
      ghost var k :| 0 <= k < |q| && minNode == q[k] && rest == Taken(q, k) && Least(dist, q, k);
      Take(nodes, g, source, dist, prev, order, q, k);
      dist, prev := Relax(nodes, g, source, dist, prev, order, rest, minNode);
      order, q := order + [minNode], rest;
    }
  }

  /** After the search no walk is lighter than the distance found. */
  lemma {:induction false} NoneLighter(nodes: seq<Node>, g: Graph, source: Node, dist: map<Node, nat>,
                                       prev: map<Node, Node>, order: seq<Node>, path: seq<Node>, weights: seq<nat>)
    requires Searching(nodes, g, source, dist, prev, order, []) && source in nodes
    requires Walk(g, path, weights) && path[0] == source
    ensures path[|path| - 1] in nodes && dist[path[|path| - 1]] <= Sum(weights)
  {
    if weights == [] {
      assert Reached(g, source, dist, prev, order, source);
    } else {
      var last := |weights| - 1;
      assert HasEdge(g, path[last], path[last + 1], weights[last]);
      assert Walk(g, path[..last + 1], weights[..last]);
      NoneLighter(nodes, g, source, dist, prev, order, path[..last + 1], weights[..last]);
    }
  }

  // ---------- the way back ----------

  datatype Result = Path(nodes: seq<Node>) | KeyError

  function Reversed(s: seq<Node>): (r: seq<Node>)
    ensures |r| == |s|
  {
    if s == [] then [] else [s[|s| - 1]] + Reversed(s[..|s| - 1])
  }

  lemma {:induction false} SumFront(w: nat, weights: seq<nat>)
    ensures Sum([w] + weights) == w + Sum(weights)
  {
    var all := [w] + weights;
    if weights == [] {
      assert all[..0] == [];
    } else {
      SumFront(w, weights[..|weights| - 1]);
      assert all[..|all| - 1] == [w] + weights[..|weights| - 1];
    }
  }

  /** A walk gets longer at the front. */
  lemma {:induction false} WalkFront(g: Graph, u: Node, path: seq<Node>, w: nat, weights: seq<nat>)
    requires Walk(g, path, weights) && HasEdge(g, u, path[0], w)
    ensures Walk(g, [u] + path, [w] + weights) && Sum([w] + weights) == w + Sum(weights)
  {
    SumFront(w, weights);
    var path', weights' := [u] + path, [w] + weights;
    forall i | 0 <= i < |weights'|
      ensures HasEdge(g, path'[i], path'[i + 1], weights'[i])
    {
      if i > 0 {
        assert HasEdge(g, path[i - 1], path[i], weights[i - 1]);
      }
    }
  }

  /** A node that was reached, other than the source, has a predecessor that was taken out before it. */
  lemma {:induction false} Predecessor(nodes: seq<Node>, g: Graph, source: Node, dist: map<Node, nat>,
                                       prev: map<Node, Node>, order: seq<Node>, k: nat)
    requires Searching(nodes, g, source, dist, prev, order, []) && k < |order| && order[k] != source
        && order[k] in dist && dist[order[k]] < FAR
    ensures order[k] in prev && prev[order[k]] in order[..k] && prev[order[k]] in dist
    ensures dist[prev[order[k]]] <= dist[order[k]]
        && HasEdge(g, prev[order[k]], order[k], dist[order[k]] - dist[prev[order[k]]])
  {
    assert order[k] in order;
    assert Reached(g, source, dist, prev, order, order[k]);
  }

  /** On the way back: from p on there is a walk over the nodes passed, and p was taken out k-th. */
  ghost predicate Back(g: Graph, dist: map<Node, nat>, order: seq<Node>, dest: Node, path: seq<Node>, p: Node, k: nat,
                       weights: seq<nat>) {
    && k < |order| && order[k] == p && p in dist && dist[p] < FAR && dest in dist
    && Joins(g, [p] + Reversed(path), weights, p, dest) && Sum(weights) + dist[p] == dist[dest]
  }

  /** A node is reached if and only if it has a predecessor. */
  lemma {:induction false} HasPrev(nodes: seq<Node>, g: Graph, source: Node, dist: map<Node, nat>,
                                   prev: map<Node, Node>, order: seq<Node>, dest: Node)
    requires Searching(nodes, g, source, dist, prev, order, []) && dest in nodes
    ensures dest in prev && dest in dist && (prev[dest] == NONE <==> dest == source || dist[dest] == FAR)
  {
    assert Reached(g, source, dist, prev, order, dest);
  }

  /** Where the predecessor was taken out, and the edge from it. */
  lemma {:induction false} StepBack(nodes: seq<Node>, g: Graph, source: Node, dist: map<Node, nat>,
                                    prev: map<Node, Node>, order: seq<Node>, k: nat)
    returns (j: nat, w: nat)
    requires Searching(nodes, g, source, dist, prev, order, []) && k < |order| && order[k] != source
        && order[k] in dist && dist[order[k]] < FAR
    ensures order[k] in prev && j < k && order[j] == prev[order[k]] && order[j] in dist
    ensures dist[order[j]] + w == dist[order[k]] && HasEdge(g, order[j], order[k], w)
  {
    Predecessor(nodes, g, source, dist, prev, order, k);
    w := dist[order[k]] - dist[prev[order[k]]];
    j := Position(order[..k], prev[order[k]]);
  }

  lemma {:induction false} BackStart(nodes: seq<Node>, g: Graph, source: Node, dist: map<Node, nat>,
                                     prev: map<Node, Node>, order: seq<Node>, dest: Node)
    returns (k: nat, w: nat)
    requires Searching(nodes, g, source, dist, prev, order, []) && dest in nodes && dest != source && dest in dist
        && dist[dest] < FAR
    ensures dest in prev && Back(g, dist, order, dest, [dest], prev[dest], k, [w])
  {
    var d := Position(order, dest);
    k, w := StepBack(nodes, g, source, dist, prev, order, d);
    BackOne(g, dist, order, dest, k, w);
  }

  lemma {:induction false} Position(s: seq<Node>, x: Node) returns (k: nat)
    requires x in s
    ensures k < |s| && s[k] == x
  {
    k :| k < |s| && s[k] == x;
  }

  lemma {:induction false} BackOne(g: Graph, dist: map<Node, nat>, order: seq<Node>, dest: Node, k: nat, w: nat)
    requires k < |order| && order[k] in dist && dest in dist && dist[order[k]] <= dist[dest] < FAR
    requires dist[order[k]] + w == dist[dest] && HasEdge(g, order[k], dest, w)
    ensures Back(g, dist, order, dest, [dest], order[k], k, [w])
  {
    assert [order[k]] + Reversed([dest]) == [order[k], dest];
    assert Sum([w]) == w by {
      assert [w][..0] == [];
    }
  }

  lemma {:induction false} BackStep(nodes: seq<Node>, g: Graph, source: Node, dist: map<Node, nat>,
                                    prev: map<Node, Node>, order: seq<Node>, dest: Node, path: seq<Node>, p: Node,
                                    k: nat, weights: seq<nat>)
    returns (j: nat, w: nat)
    requires Searching(nodes, g, source, dist, prev, order, [])
    requires Back(g, dist, order, dest, path, p, k, weights) && p != source
    ensures j < k && p in prev && Back(g, dist, order, dest, path + [p], prev[p], j, [w] + weights)
  {
    j, w := StepBack(nodes, g, source, dist, prev, order, k);
    BackFront(g, dist, order, dest, path, p, k, weights, j, w);
  }

  lemma {:induction false} BackFront(g: Graph, dist: map<Node, nat>, order: seq<Node>, dest: Node, path: seq<Node>,
                                     p: Node, k: nat, weights: seq<nat>, j: nat, w: nat)
    requires Back(g, dist, order, dest, path, p, k, weights) && j < |order| && order[j] in dist
    requires dist[order[j]] + w == dist[p] && HasEdge(g, order[j], p, w)
    ensures Back(g, dist, order, dest, path + [p], order[j], j, [w] + weights)
  {
    assert Reversed(path + [p]) == [p] + Reversed(path);
    WalkFront(g, order[j], [p] + Reversed(path), w, weights);
  }

  lemma {:induction false} BackEnd(nodes: seq<Node>, g: Graph, source: Node, dist: map<Node, nat>,
                                   prev: map<Node, Node>, order: seq<Node>, dest: Node, path: seq<Node>, k: nat,
                                   weights: seq<nat>)
    requires Searching(nodes, g, source, dist, prev, order, [])
    requires Back(g, dist, order, dest, path, source, k, weights)
    ensures source in nodes && Joins(g, Reversed(path + [source]), weights, source, dest) && Sum(weights) == dist[dest]
  {
    assert source in order;
    assert Reached(g, source, dist, prev, order, source);
    assert Reversed(path + [source]) == [source] + Reversed(path);
  }

  /** The end of `ShortestPath`: follow the predecessors; a node without one fails to look up. */
  method WalkBack(nodes: seq<Node>, g: Graph, source: Node, dest: Node, ghost dist: map<Node, nat>,
                  prev: map<Node, Node>, ghost order: seq<Node>)
    returns (r: Result, ghost weights: seq<nat>)
    requires Searching(nodes, g, source, dist, prev, order, []) && source != NONE
    ensures r.Path? <==> dest in nodes && dest != source && dest in dist && dist[dest] < FAR
    ensures r.Path? ==> source in nodes && Joins(g, Reversed(r.nodes), weights, source, dest)
    ensures r.Path? ==> Sum(weights) == dist[dest]
  {
    weights := [];
    if dest !in prev {
      return KeyError, weights;
    }
    HasPrev(nodes, g, source, dist, prev, order, dest);
    var path, p := [dest], prev[dest];
    ghost var k: nat := 0;
    if p != NONE {
      InRange(nodes, g, source, dist, prev, order, dest);
      ghost var w: nat;
      k, w := BackStart(nodes, g, source, dist, prev, order, dest);
      weights := [w];
    }
    while p != source
      invariant if prev[dest] == NONE then p == NONE else Back(g, dist, order, dest, path, p, k, weights)
      decreases k
    {
      path := path + [p];
      if p !in prev {
        return KeyError, weights;
      }
      ghost var w: nat;
      k, w := BackStep(nodes, g, source, dist, prev, order, dest, path[..|path| - 1], p, k, weights);
      weights := [w] + weights;
      p := prev[p];
    }
    BackEnd(nodes, g, source, dist, prev, order, dest, path, k, weights);
    return Path(path + [source]), weights;
  }

  /** There is a walk that is lighter than the initial distance. */
  ghost predicate Connected(g: Graph, u: Node, v: Node) {
    exists path, weights :: Joins(g, path, weights, u, v) && Sum(weights) < FAR
  }

  method ShortestPath(nodes: seq<Node>, g: Graph, source: Node, dest: Node) returns (r: Result, ghost weights: seq<nat>)
    requires Given(nodes, g) && source != NONE
    ensures r.Path? <==> source in nodes && dest in nodes && source != dest && Connected(g, source, dest)
    ensures r.Path? ==> Joins(g, Reversed(r.nodes), weights, source, dest)
    ensures r.Path? ==> forall path, ws | Joins(g, path, ws, source, dest) :: Sum(weights) <= Sum(ws)
  {
    var dist, prev, order := Search(nodes, g, source);
    r, weights := WalkBack(nodes, g, source, dest, dist, prev, order);
    if source in nodes {
      forall path, ws | Joins(g, path, ws, source, dest)
        ensures dest in dist && dist[dest] <= Sum(ws)
      {
        NoneLighter(nodes, g, source, dist, prev, order, path, ws);
      }
    }
  }

  /** A node has the empty path to itself, but asking for it fails: it has no predecessor. */
  method PathToItself(nodes: seq<Node>, g: Graph, source: Node) returns (r: Result)
    requires Given(nodes, g) && source != NONE && source in nodes
    ensures r == KeyError && Joins(g, [source], [], source, source) && Sum([]) < FAR
  {
    ghost var weights;
    r, weights := ShortestPath(nodes, g, source, source);
  }

  /** Where every edge is as heavy as the initial distance, no walk is lighter. */
  lemma {:induction false} AllHeavy(g: Graph, path: seq<Node>, weights: seq<nat>)
    requires Walk(g, path, weights) && weights != []
    requires forall u: Node, v: Node, w: nat | HasEdge(g, u, v, w) :: w >= FAR
    ensures Sum(weights) >= FAR
  {
    var last := |weights| - 1;
    assert HasEdge(g, path[last], path[last + 1], weights[last]);
  }

  /** Two nodes and one edge of weight 9999: there is a path, but asking for it fails. */
  method PathTooHeavy() returns (r: Result)
    ensures var g: Graph := map["a" := [("b", FAR)]];
            r == KeyError && Given(["a", "b"], g) && Joins(g, ["a", "b"], [FAR], "a", "b")
  {
    var g: Graph := map["a" := [("b", FAR)]];
    assert HasEdge(g, "a", "b", FAR);
    assert !Connected(g, "a", "b") by {
      forall path, weights | Joins(g, path, weights, "a", "b")
        ensures Sum(weights) >= FAR
      {
        AllHeavy(g, path, weights);
      }
    }
    ghost var weights;
    r, weights := ShortestPath(["a", "b"], g, "a", "b");
  }
}
