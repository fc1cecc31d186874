/** Properties that relate the graph operations to each other: an invariant
    every call keeps, the shape of a graph built by insertions alone, the
    operations that undo one another, and the agreement between `edges()` and
    the single-edge queries. */
module GraphProperties {
  import opened Outcomes
  import opened Matrices
  import opened Bijections
  import opened DirectedGraph

  // ---------------------------------------------------------------------
  // Client calls

  /** One call a client makes on the graph. */
  datatype Call<V> =
    | AddVertexCall(v: V)
    | RemoveVertexCall(v: V)
    | AddEdgeCall(source: V, destination: V, weight: int)
    | RemoveEdgeCall(source: V, destination: V)
    | ClearCall

  predicate Defined<V>(g: Graph<V>, c: Call<V>) {
    c.AddVertexCall? ==> AddVertexDefined(g, c.v)
  }

  /** The state after one call, whether it returned or threw. */
  function Apply<V>(g: Graph<V>, c: Call<V>): (h: Graph<V>)
    requires Defined(g, c)
  {
    match c
    case AddVertexCall(v) => AddVertex(g, v).graph
    case RemoveVertexCall(v) => RemoveVertex(g, v).graph
    case AddEdgeCall(s, d, w) => AddEdge(g, s, d, w).graph
    case RemoveEdgeCall(s, d) => RemoveEdge(g, s, d).graph
    case ClearCall => Clear(g)
  }

  /** The state after a sequence of calls, stopping before the first call
      whose outcome the model leaves undefined. */
  function Run<V>(g: Graph<V>, calls: seq<Call<V>>): (h: Graph<V>)
    decreases |calls|
  {
    if |calls| == 0 then g
    else if Defined(g, calls[0]) then Run(Apply(g, calls[0]), calls[1..])
    else g
  }

  // ---------------------------------------------------------------------
  // The invariant every call keeps

  /** The stack is never empty and holds no negative index, every live index
      is non-negative, no two labels share an index, no weight is negative,
      and the matrix dimension is never below the vertex count (the growth
      step's "never full"). */
  ghost predicate Sane<V>(g: Graph<V>) {
    && |g.stack| > 0
    && |g.matrix| >= VertexSize(g)
    && (forall k | 0 <= k < |g.stack| :: g.stack[k] >= 0)
    && (forall v | v in g.labels :: g.labels[v] >= 0)
    && Injective(g.labels)
    && NonNegative(g.matrix)
  }

  lemma NewIsSane<V>()
    ensures Sane(New<V>())
  {
  }

  lemma NewSizedIsSane<V>(n: int)
    requires n >= 0
    ensures NewSized<V>(n).Ok? && Sane(NewSized<V>(n).value)
  {
  }

  lemma AddVertexKeepsSane<V>(g: Graph<V>, v: V)
    requires Sane(g) && AddVertexDefined(g, v)
    ensures Sane(AddVertex(g, v).graph)
  {
    if v !in g.labels {
      var h := AddVertex(g, v).graph;
      assert h.labels == Add(g.labels, v, Top(g.stack));
      assert h.stack == Pop(g.stack) + [Top(g.stack) + 1];
    }
  }

  lemma RemoveVertexKeepsSane<V>(g: Graph<V>, v: V)
    requires Sane(g)
    ensures Sane(RemoveVertex(g, v).graph)
  {
  }

  lemma AddEdgeKeepsSane<V>(g: Graph<V>, s: V, d: V, w: int)
    requires Sane(g)
    ensures Sane(AddEdge(g, s, d, w).graph)
  {
    if AddEdge(g, s, d, w).result == Ok(true) {
      assert AddEdge(g, s, d, w).graph.matrix == Write(g.matrix, g.labels[s], g.labels[d], w);
      WriteKeepsNonNegative(g.matrix, g.labels[s], g.labels[d], w);
    }
  }

  lemma RemoveEdgeKeepsSane<V>(g: Graph<V>, s: V, d: V)
    requires Sane(g)
    ensures Sane(RemoveEdge(g, s, d).graph)
  {
    if RemoveEdge(g, s, d).result == Ok(true) {
      assert RemoveEdge(g, s, d).graph.matrix == Write(g.matrix, g.labels[s], g.labels[d], 0);
      WriteKeepsNonNegative(g.matrix, g.labels[s], g.labels[d], 0);
    }
  }

  lemma ApplyKeepsSane<V>(g: Graph<V>, c: Call<V>)
    requires Sane(g) && Defined(g, c)
    ensures Sane(Apply(g, c))
  {
    match c
    case AddVertexCall(v) => AddVertexKeepsSane(g, v);
    case RemoveVertexCall(v) => RemoveVertexKeepsSane(g, v);
    case AddEdgeCall(s, d, w) => AddEdgeKeepsSane(g, s, d, w);
    case RemoveEdgeCall(s, d) => RemoveEdgeKeepsSane(g, s, d);
    case ClearCall =>
  }

  /** Any sequence of calls from a well-formed graph keeps it well formed. */
  lemma {:induction false} RunKeepsSane<V>(g: Graph<V>, calls: seq<Call<V>>)
    requires Sane(g)
    ensures Sane(Run(g, calls))
    decreases |calls|
  {
    if |calls| > 0 && Defined(g, calls[0]) {
      ApplyKeepsSane(g, calls[0]);
      RunKeepsSane(Apply(g, calls[0]), calls[1..]);
    }
  }

  /** Every state a client can reach from either constructor has injective
      labels and a matrix at least as large as its vertex count, the
      requirements of `RemoveVertexThenAddVertexKeepsMatrix` and of the
      resurfacing lemma for removed vertices. */
  lemma ReachableStatesAreSized<V>(n: int, calls: seq<Call<V>>)
    requires n >= 0
    ensures var g := Run(New<V>(), calls);
      Injective(g.labels) && |g.matrix| >= VertexSize(g)
    ensures NewSized<V>(n).Ok?
    ensures var g := Run(NewSized<V>(n).value, calls);
      Injective(g.labels) && |g.matrix| >= VertexSize(g)
  {
    NewIsSane<V>();
    RunKeepsSane(New<V>(), calls);
    NewSizedIsSane<V>(n);
    RunKeepsSane(NewSized<V>(n).value, calls);
  }

  /** How `edgeSize()` moves: only a successful `addEdge` raises it, only a
      successful `removeEdge` lowers it, `clear()` resets it, and the vertex
      operations leave it alone whatever they do to the matrix. */
  lemma EdgeSizeTracksCalls<V>(g: Graph<V>, c: Call<V>)
    requires Defined(g, c)
    ensures c.AddEdgeCall? ==>
      EdgeSize(Apply(g, c)) == EdgeSize(g) + (if AddEdge(g, c.source, c.destination, c.weight).result == Ok(true) then 1 else 0)
    ensures c.RemoveEdgeCall? ==>
      EdgeSize(Apply(g, c)) == EdgeSize(g) - (if RemoveEdge(g, c.source, c.destination).result == Ok(true) then 1 else 0)
    ensures c.ClearCall? ==> EdgeSize(Apply(g, c)) == 0
    ensures c.AddVertexCall? || c.RemoveVertexCall? ==> EdgeSize(Apply(g, c)) == EdgeSize(g)
  {
  }

  /** In a well-formed graph the stack always has a top, so `addVertex`
      never pops an empty stack. */
  lemma SaneAddVertexNeverEmptiesStack<V>(g: Graph<V>, v: V)
    requires Sane(g) && AddVertexDefined(g, v)
    ensures AddVertex(g, v).result == Ok(!ContainsVertex(g, v))
  {
  }

  /** In a well-formed graph every reported edge has a positive weight. */
  lemma SaneEdgesArePositive<V>(g: Graph<V>, e: Edge<V>)
    requires Sane(g) && Edges(g).Ok? && e in Edges(g).value
    ensures e.weight > 0
  {
    var s, d :| s in g.labels && d in g.labels && Cell(g, s, d) != 0 && e == Edge(s, d, Cell(g, s, d));
  }

  // ---------------------------------------------------------------------
  // Graphs built by insertions alone

  /** The indices `0 .. n-1`. */
  ghost function Range(n: nat): (r: set<int>)
    ensures forall i :: i in r <==> 0 <= i < n
  {
    if n == 0 then {} else Range(n - 1) + {n - 1}
  }

  function Max(a: int, b: int): (m: int) {
    if a < b then b else a
  }

  /** What a graph built by `addVertex` calls alone from `new
      DirectedGraph()` looks like: the stack is exactly the vertex count, the
      live indices are exactly `0 .. vertexSize()-1`, the matrix is all zero
      and never smaller than the vertex count, and no edge is counted. */
  ghost predicate DenseShape<V>(g: Graph<V>) {
    && g.stack == [VertexSize(g)]
    && g.labels.Values == Range(VertexSize(g))
    && Injective(g.labels)
    && |g.matrix| == Max(DefaultSize, VertexSize(g))
    && AllZero(g.matrix)
    && g.edgeCount == 0
  }

  lemma NewIsDense<V>()
    ensures DenseShape(New<V>())
  {
    assert New<V>().labels.Values == {};
  }

  lemma AddVertexKeepsDenseShape<V>(g: Graph<V>, v: V)
    requires DenseShape(g)
    ensures AddVertexDefined(g, v)
    ensures AddVertex(g, v).result == Ok(!ContainsVertex(g, v))
    ensures AddVertex(g, v).graph.labels.Keys == g.labels.Keys + {v}
    ensures DenseShape(AddVertex(g, v).graph)
  {
    if v !in g.labels {
      AddFreshVertexToDense(g, v);
    } else {
      assert g.labels.Keys + {v} == g.labels.Keys;
    }
  }

  lemma AddFreshVertexToDense<V>(g: Graph<V>, v: V)
    requires DenseShape(g) && v !in g.labels
    ensures AddVertexDefined(g, v)
    ensures AddVertex(g, v).result == Ok(true)
    ensures AddVertex(g, v).graph.labels.Keys == g.labels.Keys + {v}
    ensures DenseShape(AddVertex(g, v).graph)
  {
    var n := VertexSize(g);
    assert Top(g.stack) == n;
    assert n !in g.labels.Values;
    var h := AddVertex(g, v).graph;
    assert h.labels == Add(g.labels, v, n);
    assert h.labels.Values == Range(n + 1);
    assert VertexSize(h) == n + 1;
    assert h.stack == [n + 1];
    assert |h.matrix| == Max(DefaultSize, n + 1) && AllZero(h.matrix) by {
      if |g.matrix| <= n {
        assert h.matrix == Zero(n + 1);
      } else {
        assert h.matrix == g.matrix;
      }
    }
  }

  /** Facts a dense graph offers its callers: every live index lies below the
      vertex count, hence inside the matrix, and there are no edges. */
  lemma DenseShapeFacts<V>(g: Graph<V>)
    requires DenseShape(g)
    ensures Sane(g)
    ensures forall v | v in g.labels :: 0 <= g.labels[v] < VertexSize(g) <= |g.matrix|
    ensures AllAddressable(g)
    ensures Edges(g) == Ok({})
  {
    forall v | v in g.labels ensures 0 <= g.labels[v] < VertexSize(g) {
      assert g.labels[v] in g.labels.Values;
    }
    assert EdgeSet(g) == {};
  }

  /** The distinct labels of a sequence. */
  ghost function Elements<V>(vs: seq<V>): (s: set<V>) {
    set k | 0 <= k < |vs| :: vs[k]
  }

  lemma ElementsCons<V>(vs: seq<V>)
    requires |vs| > 0
    ensures Elements(vs) == {vs[0]} + Elements(vs[1..])
  {
    forall x | x in Elements(vs)
      ensures x in {vs[0]} + Elements(vs[1..])
    {
      var k :| 0 <= k < |vs| && vs[k] == x;
      if k > 0 { assert vs[1..][k - 1] == x; }
    }
    forall x | x in Elements(vs[1..])
      ensures x in Elements(vs)
    {
      var k :| 0 <= k < |vs[1..]| && vs[1..][k] == x;
      assert vs[k + 1] == x;
    }
  }

  /** The calls `addVertex(vs[0])`, `addVertex(vs[1])`, ... */
  function Insertions<V>(vs: seq<V>): (calls: seq<Call<V>>)
    ensures |calls| == |vs|
    ensures forall k | 0 <= k < |vs| :: calls[k] == AddVertexCall(vs[k])
  {
    seq(|vs|, k requires 0 <= k < |vs| => AddVertexCall(vs[k]))
  }

  /** A run of insertions performs its first insertion, then the rest. */
  lemma RunFirstInsertion<V>(g: Graph<V>, vs: seq<V>)
    requires |vs| > 0 && AddVertexDefined(g, vs[0])
    ensures Run(g, Insertions(vs)) == Run(AddVertex(g, vs[0]).graph, Insertions(vs[1..]))
  {
    var calls := Insertions(vs);
    assert Defined(g, calls[0]) && Apply(g, calls[0]) == AddVertex(g, vs[0]).graph;
    assert calls[1..] == Insertions(vs[1..]);
  }

  lemma {:induction false} InsertionsKeepDenseShape<V>(g: Graph<V>, vs: seq<V>)
    requires DenseShape(g)
    ensures DenseShape(Run(g, Insertions(vs)))
    ensures Run(g, Insertions(vs)).labels.Keys == g.labels.Keys + Elements(vs)
    decreases |vs|
  {
    if |vs| > 0 {
      var calls := Insertions(vs);
      AddVertexKeepsDenseShape(g, vs[0]);
      var h := AddVertex(g, vs[0]).graph;
      RunFirstInsertion(g, vs);
      InsertionsKeepDenseShape(h, vs[1..]);
      ElementsCons(vs);
    } else {
      assert Elements(vs) == {};
    }
  }

  /** Any sequence of `addVertex` calls from `new DirectedGraph()` succeeds
      on every call and ends with the stack holding exactly the vertex count,
      the live indices exactly `0 .. vertexSize()-1`, a matrix never smaller
      than the vertex count (the "never full" intent of the growth step), the
      distinct labels added as the vertex set, and no edges. */
  lemma InsertOnlyFromNew<V>(vs: seq<V>)
    ensures var g := Run(New<V>(), Insertions(vs));
      && g.stack == [VertexSize(g)]
      && g.labels.Values == Range(VertexSize(g))
      && |g.matrix| >= VertexSize(g)
      && |g.matrix| == Max(DefaultSize, VertexSize(g))
      && Vertices(g) == Elements(vs)
      && VertexSize(g) == |Elements(vs)|
      && EdgeSize(g) == 0
      && Edges(g) == Ok({})
  {
    NewIsDense<V>();
    InsertionsKeepDenseShape(New<V>(), vs);
    DenseShapeFacts(Run(New<V>(), Insertions(vs)));
  }

  // ---------------------------------------------------------------------
  // Operations that undo each other

  /** A successful `addEdge` with a positive weight is undone by
      `removeEdge`; one with weight 0 cannot be, and leaves the edge count one
      too high. */
  lemma AddEdgeThenRemoveEdge<V>(g: Graph<V>, s: V, d: V, w: int)
    requires AddEdge(g, s, d, w).result == Ok(true)
    ensures var h := AddEdge(g, s, d, w).graph;
      if w != 0 then RemoveEdge(h, s, d) == Step(g, Ok(true))
      else RemoveEdge(h, s, d) == Step(h, Ok(false)) && EdgeSize(h) == EdgeSize(g) + 1
  {
    var i, j := g.labels[s], g.labels[d];
    var h := AddEdge(g, s, d, w).graph;
    if w != 0 {
      assert RemoveEdge(h, s, d).graph.matrix == Write(Write(g.matrix, i, j, w), i, j, 0);
      WriteTwice(g.matrix, i, j, w, 0);
      WriteSameValue(g.matrix, i, j);
    }
  }

  /** A successful `removeEdge` is undone by adding the edge back with the
      weight it had. */
  lemma RemoveEdgeThenAddEdge<V>(g: Graph<V>, s: V, d: V)
    requires NonNegative(g.matrix)
    requires RemoveEdge(g, s, d).result == Ok(true)
    ensures AddEdge(RemoveEdge(g, s, d).graph, s, d, Cell(g, s, d)) == Step(g, Ok(true))
  {
    var i, j := g.labels[s], g.labels[d];
    var h := RemoveEdge(g, s, d).graph;
    assert AddEdge(h, s, d, Cell(g, s, d)).graph.matrix == Write(Write(g.matrix, i, j, 0), i, j, g.matrix[i][j]);
    WriteTwice(g.matrix, i, j, 0, g.matrix[i][j]);
    WriteSameValue(g.matrix, i, j);
  }

  /** Adding a fresh label and removing it again restores the label map and
      the edge count, but not the stack: the old top is back on top, over its
      successor. */
  lemma AddVertexThenRemoveVertex<V>(g: Graph<V>, v: V)
    requires !ContainsVertex(g, v) && |g.stack| > 0 && AddVertexDefined(g, v)
    ensures var h := AddVertex(g, v).graph;
      && RemoveVertex(h, v).result == Ok(true)
      && RemoveVertex(h, v).graph.labels == g.labels
      && RemoveVertex(h, v).graph.stack == Pop(g.stack) + [Top(g.stack) + 1, Top(g.stack)]
      && RemoveVertex(h, v).graph.edgeCount == g.edgeCount
  {
    var h := AddVertex(g, v).graph;
    assert RemoveVertex(h, v).graph.labels == g.labels;
  }

  /** Removing a live label and then adding a label that is not live (the
      removed one or a fresh one) binds the new label to the removed index
      and pushes that index plus one; the matrix is kept when it is larger
      than the vertex count left after the removal. */
  lemma RemoveVertexThenAddVertex<V>(g: Graph<V>, v: V, x: V)
    requires ContainsVertex(g, v) && Injective(g.labels)
    requires x == v || !ContainsVertex(g, x)
    ensures var h := RemoveVertex(g, v).graph;
      && AddVertexDefined(h, x)
      && AddVertex(h, x).result == Ok(true)
      && AddVertex(h, x).graph.labels == RemoveKey(g.labels, v)[x := g.labels[v]]
      && AddVertex(h, x).graph.stack == g.stack + [g.labels[v] + 1]
      && AddVertex(h, x).graph.edgeCount == g.edgeCount
      && (x == v ==> AddVertex(h, x).graph.labels == g.labels)
  {
    var h := RemoveVertex(g, v).graph;
    RemovalFrees(g, v);
    AddIntoFreedIndex(h, x, g.labels[v], g.stack);
    if x == v {
      RemoveKeyThenRestore(g.labels, v);
    }
  }

  /** The same round trip keeps the matrix when it is at least as large as
      the vertex count before the removal: the re-addition does not grow it.
      Every reachable state meets that requirement (`ReachableStatesAreSized`). */
  lemma RemoveVertexThenAddVertexKeepsMatrix<V>(g: Graph<V>, v: V, x: V)
    requires ContainsVertex(g, v) && Injective(g.labels)
    requires x == v || !ContainsVertex(g, x)
    requires |g.matrix| >= VertexSize(g)
    ensures var h := RemoveVertex(g, v).graph;
      && AddVertexDefined(h, x)
      && AddVertex(h, x).graph.matrix == g.matrix
  {
    var h := RemoveVertex(g, v).graph;
    RemovalFrees(g, v);
    AddIntoFreedIndex(h, x, g.labels[v], g.stack);
  }

  /** After a removal the freed index is on top of the stack and bound to no
      label. */
  lemma RemovalFrees<V>(g: Graph<V>, v: V)
    requires v in g.labels && Injective(g.labels)
    ensures var h := RemoveVertex(g, v).graph;
      && h.labels == RemoveKey(g.labels, v)
      && h.stack == g.stack + [g.labels[v]]
      && h.matrix == g.matrix
      && h.edgeCount == g.edgeCount
      && g.labels[v] !in h.labels.Values
  {
  }

  /** Adding an absent label when the top of the stack is a free index `i`. */
  lemma AddIntoFreedIndex<V>(h: Graph<V>, x: V, i: int, below: seq<int>)
    requires x !in h.labels && h.stack == below + [i] && i !in h.labels.Values
    ensures AddVertexDefined(h, x)
    ensures AddVertex(h, x).result == Ok(true)
    ensures AddVertex(h, x).graph.labels == h.labels[x := i]
    ensures AddVertex(h, x).graph.stack == below + [i + 1]
    ensures AddVertex(h, x).graph.edgeCount == h.edgeCount
    ensures |h.matrix| > VertexSize(h) ==> AddVertex(h, x).graph.matrix == h.matrix
  {
    assert Top(h.stack) == i && Pop(h.stack) == below;
  }

  // ---------------------------------------------------------------------
  // edges() against the single-edge queries

  /** `edges()` reports exactly the pairs `containsEdge` accepts, each with
      the weight `edgeWeight` returns. */
  lemma EdgesAgreeWithQueries<V>(g: Graph<V>, s: V, d: V, w: int)
    requires Edges(g).Ok?
    ensures Edge(s, d, w) in Edges(g).value <==>
              ContainsEdge(g, s, d) == Ok(true) && EdgeWeight(g, s, d) == Ok(w)
  {
    if Edge(s, d, w) in Edges(g).value {
      var s', d' :| s' in g.labels && d' in g.labels && Cell(g, s', d') != 0 && Edge(s, d, w) == Edge(s', d', Cell(g, s', d'));
    }
    if ContainsEdge(g, s, d) == Ok(true) && EdgeWeight(g, s, d) == Ok(w) {
      assert Edge(s, d, Cell(g, s, d)) in EdgeSet(g);
    }
  }
}
