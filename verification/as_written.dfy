/** Where the implementation departs from a textbook graph, kept as it is
    written: growth discards weights, recycled indices collide, the sized
    constructor starts outside the matrix, removing a vertex or clearing the
    graph leaves weights behind that later vertices inherit, and a
    zero-weight edge is counted without being visible. */
module AsWritten {
  import opened Outcomes
  import opened Matrices
  import opened Bijections
  import opened DirectedGraph
  import opened GraphProperties

  /** An `addVertex` that grows the matrix loses every edge, yet the edge
      count keeps them. */
  lemma GrowthDiscardsEdges<V>(g: Graph<V>, v: V, a: V, b: V)
    requires AddVertexDefined(g, v) && !ContainsVertex(g, v) && |g.matrix| <= VertexSize(g)
    requires ContainsEdge(g, a, b) == Ok(true)
    ensures ContainsEdge(AddVertex(g, v).graph, a, b) == Ok(false)
    ensures EdgeSize(AddVertex(g, v).graph) == EdgeSize(g)
  {
    var h := AddVertex(g, v).graph;
    assert h.matrix == Zero(VertexSize(g) + 1);
    assert a in h.labels && b in h.labels && h.labels[a] == g.labels[a] && h.labels[b] == g.labels[b];
  }

  /** `new DirectedGraph(n)` with `n > 0` binds the first label to index
      `n`, one past the last row, so every matrix access through it throws
      until a later growth enlarges the matrix past index `n`. */
  lemma SizedConstructorStartsOutOfBounds<V>(n: int, v: V)
    requires n > 0
    ensures NewSized<V>(n).Ok?
    ensures var g := NewSized<V>(n).value;
      && AddVertex(g, v).result == Ok(true)
      && AddVertex(g, v).graph.labels[v] == n == |AddVertex(g, v).graph.matrix|
      && ContainsEdge(AddVertex(g, v).graph, v, v) == Err(IndexOutOfBounds)
      && AddEdge(AddVertex(g, v).graph, v, v, 1) == Step(AddVertex(g, v).graph, Err(IndexOutOfBounds))
      && Edges(AddVertex(g, v).graph) == Err(IndexOutOfBounds)
  {
    var g := NewSized<V>(n).value;
    var h := AddVertex(g, v).graph;
    assert h.labels == map[v := n];
    assert !AllAddressable(h);
  }

  /** `new DirectedGraph(0)` is the exception: its first `addVertex` finds
      the 0x0 matrix full and grows it to 1x1 in the same call, before the
      pop, so the first label gets index 0 inside the matrix and its edges
      can be stored. */
  lemma SizedZeroStartsInBounds<V>(v: V)
    ensures NewSized<V>(0).Ok?
    ensures var h := AddVertex(NewSized<V>(0).value, v).graph;
      && AddVertex(NewSized<V>(0).value, v).result == Ok(true)
      && h.labels[v] == 0
      && |h.matrix| == 1
      && ContainsEdge(h, v, v) == Ok(false)
      && AddEdge(h, v, v, 3).result == Ok(true)
  {
    var h := AddVertex(NewSized<V>(0).value, v).graph;
    assert h.labels == map[v := 0];
  }

  /** Once the index after a removed one is still live, recycling collides:
      the label added after the removal takes the removed index, the stack
      then offers its successor, which another label holds, and the next
      `addVertex` of a new label would bind a live index. After two or more
      insertions of distinct labels from `new DirectedGraph()`, removing any
      vertex but the newest and then adding a label reaches this state. */
  lemma RecycledIndexCollides<V>(g: Graph<V>, v: V, x: V)
    requires DenseShape(g) && ContainsVertex(g, v) && g.labels[v] + 1 < VertexSize(g)
    requires x == v || !ContainsVertex(g, x)
    ensures AddVertexDefined(RemoveVertex(g, v).graph, x)
    ensures var k := AddVertex(RemoveVertex(g, v).graph, x).graph;
      && k.labels[x] == g.labels[v]
      && Top(k.stack) == g.labels[v] + 1
      && Top(k.stack) in k.labels.Values
      && forall y | !ContainsVertex(k, y) :: !AddVertexDefined(k, y)
  {
    RemoveVertexThenAddVertex(g, v, x);
    var k := AddVertex(RemoveVertex(g, v).graph, x).graph;
    var i := g.labels[v];
    assert i in g.labels.Values;
    assert i + 1 in g.labels.Values;
    var w :| w in g.labels && g.labels[w] == i + 1;
    assert w != v && w != x;
    assert k.labels[w] == i + 1;
  }

  /** A label added after a removal takes over the removed vertex's row and
      column: every edge the removed vertex had, in either direction, is
      reported for the new label, and the edge count never dropped them.
      Every reachable state meets the injectivity and size requirements
      (`ReachableStatesAreSized`). */
  lemma RemovedVertexEdgesResurface<V>(g: Graph<V>, v: V, x: V, a: V)
    requires ContainsVertex(g, v) && Injective(g.labels) && |g.matrix| >= VertexSize(g)
    requires !ContainsVertex(g, x) && ContainsVertex(g, a) && a != v
    ensures AddVertexDefined(RemoveVertex(g, v).graph, x)
    ensures var k := AddVertex(RemoveVertex(g, v).graph, x).graph;
      && k.labels[x] == g.labels[v]
      && ContainsEdge(k, a, x) == ContainsEdge(g, a, v)
      && ContainsEdge(k, x, a) == ContainsEdge(g, v, a)
      && ContainsEdge(k, x, x) == ContainsEdge(g, v, v)
      && EdgeSize(k) == EdgeSize(g)
  {
    RemoveVertexThenAddVertex(g, v, x);
    var k := AddVertex(RemoveVertex(g, v).graph, x).graph;
    assert k.labels[a] == g.labels[a];
  }

  /** `clear()` keeps the stack and the matrix, so the first label added
      afterwards takes the old stack top as its index and sees whatever
      weight its diagonal cell held, while the edge count is 0. */
  lemma ClearedWeightsResurface<V>(g: Graph<V>, x: V)
    requires |g.stack| > 0 && InBounds(g.matrix, Top(g.stack))
    ensures AddVertexDefined(Clear(g), x)
    ensures var k := AddVertex(Clear(g), x).graph;
      && k.labels == map[x := Top(g.stack)]
      && k.matrix == g.matrix
      && ContainsEdge(k, x, x) == Ok(g.matrix[Top(g.stack)][Top(g.stack)] != 0)
      && EdgeSize(k) == 0
  {
    var k := AddVertex(Clear(g), x).graph;
    assert k.labels == map[x := Top(g.stack)];
  }

  /** `edgeWeight` of two addressable labels without an edge between them
      answers 0, the empty cell, and never the -1 its documentation
      promises for a missing edge. */
  lemma MissingEdgeWeighsZero<V>(g: Graph<V>, s: V, d: V)
    requires ContainsVertex(g, s) && ContainsVertex(g, d) && ContainsEdge(g, s, d) == Ok(false)
    ensures EdgeWeight(g, s, d) == Ok(0)
  {
  }

  /** Since `clear()` keeps the matrix, a weight it leaves behind can be
      removed again after the reset, driving the edge count below zero. */
  lemma ClearedEdgeCountGoesNegative<V>(g: Graph<V>, x: V)
    requires |g.stack| > 0 && InBounds(g.matrix, Top(g.stack))
    requires g.matrix[Top(g.stack)][Top(g.stack)] != 0
    ensures AddVertexDefined(Clear(g), x)
    ensures var k := AddVertex(Clear(g), x).graph;
      && RemoveEdge(k, x, x).result == Ok(true)
      && EdgeSize(RemoveEdge(k, x, x).graph) == -1
  {
    ClearedWeightsResurface(g, x);
  }

  /** A zero-weight `addEdge` succeeds and is counted, but writes 0 over 0:
      the matrix is unchanged and the edge is not there. */
  lemma ZeroWeightEdgeOnlyCounts<V>(g: Graph<V>, s: V, d: V)
    requires ContainsVertex(g, s) && ContainsVertex(g, d) && ContainsEdge(g, s, d) == Ok(false)
    ensures AddEdge(g, s, d, 0) == Step(g.(edgeCount := g.edgeCount + 1), Ok(true))
    ensures ContainsEdge(AddEdge(g, s, d, 0).graph, s, d) == Ok(false)
  {
    WriteSameValue(g.matrix, g.labels[s], g.labels[d]);
  }
}
