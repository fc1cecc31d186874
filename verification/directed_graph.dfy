/** The directed graph: a label-to-index bijection, a stack that hands out
    indices, a square adjacency matrix in which 0 means "no edge", and an edge
    counter. Every operation is a pure transition that returns the state after
    the call together with what the call returned or the exception it threw;
    the state is kept when a call throws, as the Java object survives an
    exception its caller catches. */
module DirectedGraph {
  import opened Outcomes
  import opened Matrices
  import opened Bijections

  /** The matrix dimension the constructor without arguments allocates. */
  const DefaultSize: nat := 10

  /** The stack is a sequence whose last element is its top. */
  datatype Graph<V> = Graph(labels: Bijection<V>, stack: seq<int>, matrix: Matrix, edgeCount: int)

  /** A weighted directed edge as `edges()` reports it. */
  datatype Edge<V> = Edge(source: V, destination: V, weight: int)

  /** The state after a call together with its return value or exception. */
  datatype Step<V, +R> = Step(graph: Graph<V>, result: Result<R>)

  function Top(s: seq<int>): (t: int)
    requires |s| > 0
  {
    s[|s| - 1]
  }

  function Pop(s: seq<int>): (rest: seq<int>)
    requires |s| > 0
  {
    s[..|s| - 1]
  }

  // ---------------------------------------------------------------------
  // Constructors

  /** `new DirectedGraph()`: no vertices, no edges, index 0 on the stack and
      a zero matrix of the default dimension. */
  function New<V>(): (g: Graph<V>)
    ensures VertexSize(g) == 0 && EdgeSize(g) == 0
    ensures g.stack == [0]
    ensures |g.matrix| == DefaultSize && AllZero(g.matrix)
  {
    Graph(map[], [0], Zero(DefaultSize), 0)
  }

  /** `new DirectedGraph(initialSize)`: the stack is seeded with the matrix
      dimension itself. With a positive size the first index handed out is
      therefore one past the last row; with size 0 the first `addVertex`
      grows the matrix to 1x1 before it pops, so index 0 is in bounds. A
      negative size makes the array allocation throw. */
  function NewSized<V>(initialSize: int): (r: Result<Graph<V>>)
    ensures r.Err? <==> initialSize < 0
    ensures r.Err? ==> r.error == NegativeArraySize
    ensures r.Ok? ==> VertexSize(r.value) == 0 && EdgeSize(r.value) == 0
    ensures r.Ok? ==> |r.value.matrix| == initialSize && AllZero(r.value.matrix)
    ensures r.Ok? ==> r.value.stack == [|r.value.matrix|]
  {
    if initialSize < 0 then Err(NegativeArraySize)
    else Ok(Graph(map[], [initialSize], Zero(initialSize), 0))
  }

  // ---------------------------------------------------------------------
  // Queries

  /** `vertices()`: a copy of the live labels. */
  function Vertices<V>(g: Graph<V>): (r: set<V>)
    ensures forall v | v in r :: v in g.labels
    ensures forall v | v in g.labels :: v in r
  {
    g.labels.Keys
  }

  function VertexSize<V>(g: Graph<V>): (n: nat)
    ensures n == |Vertices(g)|
  {
    |g.labels|
  }

  /** `edgeSize()`: the edge counter, whatever the matrix holds. */
  function EdgeSize<V>(g: Graph<V>): (n: int) {
    g.edgeCount
  }

  function ContainsVertex<V>(g: Graph<V>, v: V): (b: bool)
    ensures b <==> v in Vertices(g)
  {
    v in g.labels
  }

  /** A live label whose index addresses a row and a column of the matrix. */
  predicate Addressable<V>(g: Graph<V>, v: V) {
    v in g.labels && InBounds(g.matrix, g.labels[v])
  }

  /** Every live label is addressable. */
  predicate AllAddressable<V>(g: Graph<V>) {
    forall v | v in g.labels :: InBounds(g.matrix, g.labels[v])
  }

  /** The matrix cell for an ordered pair of addressable labels. */
  function Cell<V>(g: Graph<V>, s: V, d: V): (w: int)
    requires Addressable(g, s) && Addressable(g, d)
  {
    g.matrix[g.labels[s]][g.labels[d]]
  }

  /** `containsEdge(source, destination)`: false when a label is absent,
      otherwise whether the cell is non-zero, or an out-of-bounds exception
      when an index lies outside the matrix. (The source's second presence
      test cannot fail once both labels are known to be present.) */
  function ContainsEdge<V>(g: Graph<V>, s: V, d: V): (r: Result<bool>)
    ensures !ContainsVertex(g, s) || !ContainsVertex(g, d) ==> r == Ok(false)
    ensures ContainsVertex(g, s) && ContainsVertex(g, d) ==>
              (r.Ok? <==> Addressable(g, s) && Addressable(g, d))
    ensures r.Err? ==> r.error == IndexOutOfBounds
    ensures r == Ok(true) ==> Addressable(g, s) && Addressable(g, d) && Cell(g, s, d) != 0
    ensures r == Ok(false) && ContainsVertex(g, s) && ContainsVertex(g, d) ==> Cell(g, s, d) == 0
  {
    if s !in g.labels || d !in g.labels then Ok(false)
    else if !InBounds(g.matrix, g.labels[s]) || !InBounds(g.matrix, g.labels[d]) then Err(IndexOutOfBounds)
    else Ok(g.matrix[g.labels[s]][g.labels[d]] != 0)
  }

  /** `edgeWeight(source, destination)`: the cell value, 0 meaning no edge.
      What the bijection does with an absent label is not known, so both
      labels must be present. */
  function EdgeWeight<V>(g: Graph<V>, s: V, d: V): (r: Result<int>)
    requires ContainsVertex(g, s) && ContainsVertex(g, d)
    ensures r.Ok? <==> ContainsEdge(g, s, d).Ok?
    ensures r.Err? ==> r.error == IndexOutOfBounds
    ensures r.Ok? ==> (r.value != 0 <==> ContainsEdge(g, s, d) == Ok(true))
    ensures r.Ok? ==> r.value == Cell(g, s, d)
  {
    if !InBounds(g.matrix, g.labels[s]) || !InBounds(g.matrix, g.labels[d]) then Err(IndexOutOfBounds)
    else Ok(g.matrix[g.labels[s]][g.labels[d]])
  }

  /** The edges `edges()` reports when every live index is addressable:
      one per ordered pair of live labels whose cell is non-zero. */
  function EdgeSet<V>(g: Graph<V>): (es: set<Edge<V>>)
    requires AllAddressable(g)
  {
    set s, d | s in g.labels && d in g.labels && Cell(g, s, d) != 0 :: Edge(s, d, Cell(g, s, d))
  }

  /** `edges()`: the loop visits every ordered pair of live labels, the
      pair (v, v) included, so it throws exactly when some live index lies
      outside the matrix. */
  function Edges<V>(g: Graph<V>): (r: Result<set<Edge<V>>>)
    ensures r.Ok? <==> forall v | v in g.labels :: ContainsEdge(g, v, v).Ok?
    ensures r.Err? ==> r.error == IndexOutOfBounds
  {
    if AllAddressable(g) then Ok(EdgeSet(g)) else Err(IndexOutOfBounds)
  }

  // ---------------------------------------------------------------------
  // Vertex operations

  /** What the bijection is known to accept: adding a label for which the
      stack's top is not already the index of a live label. */
  predicate AddVertexDefined<V>(g: Graph<V>, v: V) {
    v in g.labels || |g.stack| == 0 || Top(g.stack) !in g.labels.Values
  }

  /** `addVertex(vertex)`. An absent label first makes the matrix grow when
      its dimension is at most the vertex count: a zero matrix one larger than
      the vertex count replaces it, and since the copy loop writes from the new
      array into the discarded one, no weight survives. Then the top of the
      stack becomes the label's index and is replaced by its successor. */
  function AddVertex<V>(g: Graph<V>, v: V): (r: Step<V, bool>)
    requires AddVertexDefined(g, v)
    ensures ContainsVertex(g, v) ==> r == Step(g, Ok(false))
    ensures !ContainsVertex(g, v) ==>
              if |g.matrix| <= VertexSize(g)
              then r.graph.matrix == Zero(VertexSize(g) + 1)
              else r.graph.matrix == g.matrix
    ensures !ContainsVertex(g, v) ==> |r.graph.matrix| > VertexSize(g)
    ensures !ContainsVertex(g, v) && |g.stack| == 0 ==>
              r.result == Err(EmptyStack) && r.graph.labels == g.labels && r.graph.stack == g.stack
    ensures !ContainsVertex(g, v) && |g.stack| > 0 ==>
              && r.result == Ok(true)
              && r.graph.labels == Add(g.labels, v, Top(g.stack))
              && r.graph.stack == Pop(g.stack) + [Top(g.stack) + 1]
              && VertexSize(r.graph) == VertexSize(g) + 1
    ensures r.graph.edgeCount == g.edgeCount
    ensures Injective(g.labels) ==> Injective(r.graph.labels)
  {
    if v in g.labels then Step(g, Ok(false))
    else
      var n := |g.labels|;
      var m := if |g.matrix| <= n then Zero(n + 1) else g.matrix;
      if |g.stack| == 0 then Step(g.(matrix := m), Err(EmptyStack))
      else
        var value := Top(g.stack);
        Step(Graph(Add(g.labels, v, value), Pop(g.stack) + [value + 1], m, g.edgeCount), Ok(true))
  }

  /** `removeVertex(vertex)`: unbinds the label and pushes its index back;
      its row and column and the edge count are left as they were. */
  function RemoveVertex<V>(g: Graph<V>, v: V): (r: Step<V, bool>)
    ensures !ContainsVertex(g, v) ==> r == Step(g, Ok(false))
    ensures ContainsVertex(g, v) ==>
              && r.result == Ok(true)
              && !ContainsVertex(r.graph, v)
              && VertexSize(r.graph) == VertexSize(g) - 1
              && (forall x | x in r.graph.labels :: x in g.labels && r.graph.labels[x] == g.labels[x])
              && |r.graph.stack| == |g.stack| + 1
              && Top(r.graph.stack) == g.labels[v]
              && Pop(r.graph.stack) == g.stack
              && r.graph.matrix == g.matrix
              && r.graph.edgeCount == g.edgeCount
  {
    if v !in g.labels then Step(g, Ok(false))
    else
      var index := g.labels[v];
      Step(g.(labels := RemoveKey(g.labels, v), stack := g.stack + [index]), Ok(true))
  }

  // ---------------------------------------------------------------------
  // Edge operations

  /** `addEdge(source, destination, weight)`: rejects a negative weight before
      touching anything; answers false when a label is absent or the edge is
      already there; otherwise stores the weight and counts the edge, even a
      zero weight, which leaves the cell reading as "no edge". */
  function AddEdge<V>(g: Graph<V>, s: V, d: V, weight: int): (r: Step<V, bool>)
    ensures weight < 0 ==> r == Step(g, Err(IllegalArgument))
    ensures r.result == Ok(true) <==>
              weight >= 0 && ContainsVertex(g, s) && ContainsVertex(g, d) && ContainsEdge(g, s, d) == Ok(false)
    ensures weight >= 0 ==> (r.result.Err? <==> ContainsEdge(g, s, d).Err?)
    ensures weight >= 0 && r.result.Err? ==> r.result == Err(IndexOutOfBounds)
    ensures r.result != Ok(true) ==> r.graph == g
    ensures r.result == Ok(true) ==>
              && r.graph.labels == g.labels
              && r.graph.stack == g.stack
              && |r.graph.matrix| == |g.matrix|
              && r.graph.edgeCount == g.edgeCount + 1
              && EdgeWeight(r.graph, s, d) == Ok(weight)
              && (ContainsEdge(r.graph, s, d) == Ok(true) <==> weight != 0)
              && forall a, b | 0 <= a < |g.matrix| && 0 <= b < |g.matrix| &&
                               (a != g.labels[s] || b != g.labels[d]) :: r.graph.matrix[a][b] == g.matrix[a][b]
  {
    if weight < 0 then Step(g, Err(IllegalArgument))
    else if !ContainsVertex(g, s) || !ContainsVertex(g, d) then Step(g, Ok(false))
    else match ContainsEdge(g, s, d)
      case Err(e) => Step(g, Err(e))
      case Ok(present) =>
        if present then Step(g, Ok(false))
        else
          var m := Write(g.matrix, g.labels[s], g.labels[d], weight);
          Step(g.(matrix := m, edgeCount := g.edgeCount + 1), Ok(true))
  }

  /** `removeEdge(source, destination)`: answers true exactly when
      `containsEdge` would; then it zeroes that one cell and uncounts the
      edge. */
  function RemoveEdge<V>(g: Graph<V>, s: V, d: V): (r: Step<V, bool>)
    ensures r.result == Ok(true) <==> ContainsEdge(g, s, d) == Ok(true)
    ensures r.result.Err? <==> ContainsEdge(g, s, d).Err?
    ensures r.result.Err? ==> r.result == Err(IndexOutOfBounds)
    ensures r.result != Ok(true) ==> r.graph == g
    ensures r.result == Ok(true) ==>
              && r.graph.labels == g.labels
              && r.graph.stack == g.stack
              && |r.graph.matrix| == |g.matrix|
              && r.graph.edgeCount == g.edgeCount - 1
              && ContainsEdge(r.graph, s, d) == Ok(false)
              && forall a, b | 0 <= a < |g.matrix| && 0 <= b < |g.matrix| &&
                               (a != g.labels[s] || b != g.labels[d]) :: r.graph.matrix[a][b] == g.matrix[a][b]
  {
    if !ContainsVertex(g, s) || !ContainsVertex(g, d) then Step(g, Ok(false))
    else if !InBounds(g.matrix, g.labels[s]) || !InBounds(g.matrix, g.labels[d]) then Step(g, Err(IndexOutOfBounds))
    else if g.matrix[g.labels[s]][g.labels[d]] == 0 then Step(g, Ok(false))
    else
      var m := Write(g.matrix, g.labels[s], g.labels[d], 0);
      Step(g.(matrix := m, edgeCount := g.edgeCount - 1), Ok(true))
  }

  /** `clear()`: forgets every label and resets the edge count; the stack
      and the matrix are kept as they are. */
  function Clear<V>(g: Graph<V>): (h: Graph<V>)
    ensures VertexSize(h) == 0 && EdgeSize(h) == 0 && Vertices(h) == {}
    ensures Edges(h) == Ok({})
    ensures h.stack == g.stack && h.matrix == g.matrix
  {
    var h := g.(labels := map[], edgeCount := 0);
    assert EdgeSet(h) == {};
    h
  }
}
