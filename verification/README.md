# DirectedGraph — a verified model of the adjacency-matrix directed graph

This project models `DirectedGraph<V>` from `src/structures/DirectedGraph.java` in Dafny. It is a
generic directed graph with non-negative integer weights. Vertex labels are translated to matrix
indices through a bijection. Weights live in a square `int[][]` adjacency matrix, where 0 means
"no edge". Indices are handed out from a `Stack<Integer>`, and an `edgeCount` field is kept
alongside.

The model is functional. A graph is an immutable value
`Graph(labels: map<V, int>, stack: seq<int>, matrix: Matrix, edgeCount: int)`:
- `labels` is the bijection, seen in its label-to-index direction.
- The top of the stack is the last element of `stack`.
- `Matrix` is a square `seq<seq<int>>`.

Every mutating operation that can throw is a pure function that returns `Step(graph, result)`.
`graph` is the state after the call. `result` is `Ok(value)` or `Err(e)`, where `e` is the Java exception the
call throws: `IllegalArgument`, `IndexOutOfBounds`, `EmptyStack` or `NegativeArraySize`. A Java
object survives an exception its caller catches, so the state after a throwing call is modelled
too. `clear()` cannot throw and returns the new graph. The queries that can throw
(`containsEdge`, `edgeWeight`, `edges()`) return a `Result`; the others return plain values.

Modules, following the structure of the class:

- `Outcomes` — the exception kinds and `Result`.
- `Matrices` — square matrices, `new int[n][n]` (`Zero`) and the single-cell store (`Write`).
- `Bijections` — the label-to-index map with the `add` and `removeKey` operations the graph uses.
- `DirectedGraph` — the state, both constructors and every public operation.
- `EdgeEnumeration` — `edges()` as the nested loop the source runs. It is proved to compute the
  declarative edge set, or to throw exactly when `DirectedGraph.Edges` does.
- `GraphProperties` — relations between operations:
  - an invariant that every call sequence keeps;
  - the exact shape of a graph built only by insertions;
  - operations that undo each other;
  - `edges()` against the single-edge queries.
- `AsWritten` — the places where the code departs from a textbook graph, stated as lemmas.

## Behaviour kept as written

The model follows the code, including these behaviours:

- **Growth does not copy.** When the matrix dimension is at most `vertexSize()`, `addVertex`
  allocates a `(vertexSize()+1)`-square matrix. Its copy loop assigns from the new array into the
  old one, so the new matrix is all zero. Every weight is lost, but `edgeCount` is not reset
  (`AsWritten.GrowthDiscardsEdges`).
- **Recycled indices collide.** After a removed index is reused, its successor is pushed, and
  that successor may still be live (`AsWritten.RecycledIndexCollides`). What the bijection does
  when asked to bind a live index is not known, so the model stops there (see Left out).
- **The sized constructor starts out of bounds.** It seeds the stack with the matrix dimension
  itself. With `initialSize > 0` the first vertex therefore gets an index one past the last row,
  and every matrix access through it throws (`AsWritten.SizedConstructorStartsOutOfBounds`) until
  a later growth (src/structures/DirectedGraph.java:65-68) enlarges the matrix past that index.
  `new DirectedGraph(0)` is the exception: its first `addVertex` grows the matrix to 1x1 before
  the pop, so the first vertex gets index 0, inside the matrix (`AsWritten.SizedZeroStartsInBounds`).
- **`removeVertex` leaves edges behind.** It neither clears the row and column nor adjusts
  `edgeCount`. The next label that reuses the index inherits the edges
  (`AsWritten.RemovedVertexEdgesResurface`).
- **`clear` resets only the labels and the count.** The stack and the matrix survive, so old
  weights can reappear (`AsWritten.ClearedWeightsResurface`).
- **A zero-weight `addEdge` still counts.** It returns true and increments `edgeCount`, yet the
  edge is not visible (`AsWritten.ZeroWeightEdgeOnlyCounts`).

The class's own comments and javadoc disagree with its code in places, and the model follows the
code:
- The comment at src/structures/DirectedGraph.java:70 says the copy loop places the old matrix into
  the new one; it does the reverse, so nothing is copied.
- `edgeWeight` is documented to return -1 when the edge is not found (:209). It returns the raw
  cell, which is 0 for a missing edge (:220; `AsWritten.MissingEdgeWeighsZero`).
- `clear` is documented to remove all vertices and edges (:344). It resets only the labels and
  the count, so old weights resurface (`AsWritten.ClearedWeightsResurface`).
- `edgeSize` is documented to return the number of edges (:147). It returns the counter, which
  keeps edges that growth, `removeVertex` or a zero weight made invisible. Because `clear` keeps the
  matrix, removing a weight it left behind drives the counter below zero
  (`AsWritten.ClearedEdgeCountGoesNegative`).

## Model

| member | source | states |
|---|---|---|
| Matrices.Zero | src/structures/DirectedGraph.java:33 | a freshly allocated `int[n][n]` has dimension `n` and every cell 0 |
| Matrices.Write | src/structures/DirectedGraph.java:121 | storing a weight sets that one cell and leaves the dimension and every other cell unchanged |
| Bijections.Add | src/structures/DirectedGraph.java:82 | binding a fresh label to an unused index adds exactly that pair, grows the label count by one, adds the index to the index set, and keeps the map injective |
| Bijections.RemoveKey | src/structures/DirectedGraph.java:296 | unbinding a label removes exactly that label, keeps every other binding, shrinks the count by one, and (when injective) frees exactly its index |
| Bijections.RemoveKeyThenRestore | src/structures/DirectedGraph.java:296 | rebinding a removed label to its old index restores the label map |
| DirectedGraph.New | src/structures/DirectedGraph.java:28-34 | the default graph has no vertices and no edges, offers index 0 first, and has an all-zero 10-square matrix |
| DirectedGraph.NewSized | src/structures/DirectedGraph.java:39-44 | a negative size throws NegativeArraySize; otherwise the graph is empty with an all-zero `n`-square matrix, and the first index offered equals the dimension |
| DirectedGraph.Vertices | src/structures/DirectedGraph.java:229-239 | the vertex set holds exactly the live labels |
| DirectedGraph.VertexSize | src/structures/DirectedGraph.java:141-144 | the vertex count is the size of the vertex set |
| DirectedGraph.ContainsVertex | src/structures/DirectedGraph.java:164-168 | a label is contained iff it is in the vertex set |
| DirectedGraph.ContainsEdge | src/structures/DirectedGraph.java:178-202 | false when an endpoint is absent; otherwise it throws IndexOutOfBounds iff an index lies outside the matrix, and else returns whether the cell is non-zero |
| DirectedGraph.EdgeWeight | src/structures/DirectedGraph.java:212-221 | for two live labels it returns the cell, and throws exactly when `containsEdge` throws; the weight is non-zero iff `containsEdge` holds |
| DirectedGraph.Edges | src/structures/DirectedGraph.java:249-275 | throws IndexOutOfBounds iff `containsEdge(v, v)` throws for some live `v`, that is iff some live index lies outside the matrix |
| DirectedGraph.AddVertex | src/structures/DirectedGraph.java:55-87 | present label: false, nothing changes. Absent label: the matrix is replaced by an all-zero `(vertexSize()+1)`-square one exactly when its dimension is at most `vertexSize()`, and afterwards exceeds the old `vertexSize()`. Then the label is bound to the old stack top, that top is replaced by top+1, and `vertexSize()` grows by one. An empty stack throws EmptyStack after the growth. `edgeCount` is untouched and injectivity is kept |
| DirectedGraph.RemoveVertex | src/structures/DirectedGraph.java:284-303 | absent label: false, nothing changes. Otherwise only that label is unbound and its index is pushed on the stack; the matrix and `edgeCount` are unchanged |
| DirectedGraph.AddEdge | src/structures/DirectedGraph.java:100-132 | a negative weight throws IllegalArgument with no change. It returns true iff both labels are live and `containsEdge` is false; it then writes the weight into exactly that cell and raises `edgeCount` by one. The edge is visible afterwards iff the weight is non-zero. With a non-negative weight it throws IndexOutOfBounds iff `containsEdge` throws. Every other outcome leaves the graph unchanged |
| DirectedGraph.RemoveEdge | src/structures/DirectedGraph.java:314-341 | returns true iff `containsEdge` holds, and throws iff it throws. On true it zeroes exactly that cell and lowers `edgeCount` by one, with labels and stack unchanged; otherwise nothing changes |
| DirectedGraph.Clear | src/structures/DirectedGraph.java:347-351 | afterwards `vertexSize()` and `edgeSize()` are 0 and there are no vertices or edges; the stack and the matrix are unchanged |
| EdgeEnumeration.CollectEdges | src/structures/DirectedGraph.java:249-275 | the nested loop over live sources and destinations computes exactly the result of `DirectedGraph.Edges`: every ordered live pair with a non-zero cell, with its weight, or IndexOutOfBounds |
| GraphProperties.NewIsSane | src/structures/DirectedGraph.java:28-34 | the default graph satisfies the well-formedness invariant (non-empty stack of non-negative indices, injective non-negative labels, non-negative weights, a matrix dimension at least the vertex count) |
| GraphProperties.NewSizedIsSane | src/structures/DirectedGraph.java:39-44 | the sized constructor with a non-negative size yields a well-formed graph |
| GraphProperties.AddVertexKeepsSane | src/structures/DirectedGraph.java:55-87 | `addVertex` keeps the invariant |
| GraphProperties.RemoveVertexKeepsSane | src/structures/DirectedGraph.java:284-303 | `removeVertex` keeps the invariant |
| GraphProperties.AddEdgeKeepsSane | src/structures/DirectedGraph.java:100-132 | `addEdge` keeps the invariant; in particular, no negative weight ever reaches the matrix |
| GraphProperties.RemoveEdgeKeepsSane | src/structures/DirectedGraph.java:314-341 | `removeEdge` keeps the invariant |
| GraphProperties.ApplyKeepsSane | src/structures/DirectedGraph.java:55-351 | every public mutating call keeps the invariant |
| GraphProperties.RunKeepsSane | src/structures/DirectedGraph.java:55-351 | any sequence of calls from a well-formed graph keeps it well formed |
| GraphProperties.ReachableStatesAreSized | src/structures/DirectedGraph.java:65-68 | every state reached from either constructor has injective labels and a matrix dimension at least its vertex count, the "never full" promise of the growth step |
| GraphProperties.EdgeSizeTracksCalls | src/structures/DirectedGraph.java:151-155 | `edgeSize()` rises by one exactly on a successful `addEdge`, falls by one exactly on a successful `removeEdge`, is 0 after `clear()`, and no vertex operation changes it |
| GraphProperties.SaneAddVertexNeverEmptiesStack | src/structures/DirectedGraph.java:79-84 | in a well-formed graph `addVertex` never pops an empty stack: it returns true exactly for an absent label |
| GraphProperties.SaneEdgesArePositive | src/structures/DirectedGraph.java:263-269 | in a well-formed graph every edge `edges()` reports has a positive weight |
| GraphProperties.NewIsDense | src/structures/DirectedGraph.java:28-34 | the default graph has the insertion-only shape: stack `[0]`, no live index, an all-zero 10-square matrix, no edges |
| GraphProperties.AddVertexKeepsDenseShape | src/structures/DirectedGraph.java:65-84 | from a graph built only by insertions, `addVertex` is always defined, returns true iff the label is new, and keeps the shape: stack `[vertexSize()]`, live indices `0..vertexSize()-1`, dimension `max(10, vertexSize())`, all-zero matrix, no edges |
| GraphProperties.AddFreshVertexToDense | src/structures/DirectedGraph.java:65-84 | the fresh-label case of the previous row: the label gets index `vertexSize()` and the shape is kept |
| GraphProperties.DenseShapeFacts | src/structures/DirectedGraph.java:67 | a graph of that shape is well formed, every live index lies below `vertexSize()` and so inside the matrix ("never full"), and `edges()` is empty |
| GraphProperties.InsertionsKeepDenseShape | src/structures/DirectedGraph.java:55-87 | any sequence of `addVertex` calls keeps that shape and adds exactly the labels of the sequence |
| GraphProperties.InsertOnlyFromNew | src/structures/DirectedGraph.java:28-87 | after any sequence of `addVertex` calls from `new DirectedGraph()`: the stack is exactly `[vertexSize()]`, the live indices are exactly `0..vertexSize()-1`, the dimension is `max(10, vertexSize())` and so at least `vertexSize()`, the vertex set is the set of labels added, `vertexSize()` is the number of distinct labels, and there are no edges |
| GraphProperties.AddEdgeThenRemoveEdge | src/structures/DirectedGraph.java:100-132 | `removeEdge` undoes a successful `addEdge` with a positive weight, restoring the graph exactly; after a zero-weight `addEdge` it returns false and the count stays one too high |
| GraphProperties.RemoveEdgeThenAddEdge | src/structures/DirectedGraph.java:314-341 | re-adding the weight a successful `removeEdge` removed restores the graph exactly |
| GraphProperties.AddVertexThenRemoveVertex | src/structures/DirectedGraph.java:284-303 | removing a just-added label restores the labels and `edgeCount`, but the stack ends as the old one with top+1 then the old top pushed |
| GraphProperties.RemoveVertexThenAddVertex | src/structures/DirectedGraph.java:79-84 | after a removal, adding a label that is not live binds it to the removed index and pushes that index plus one, leaving the other labels and `edgeCount` as they were; re-adding the removed label itself restores the label map |
| GraphProperties.RemoveVertexThenAddVertexKeepsMatrix | src/structures/DirectedGraph.java:65 | that re-addition does not grow the matrix when the matrix was at least as large as the vertex count before the removal |
| GraphProperties.EdgesAgreeWithQueries | src/structures/DirectedGraph.java:249-275 | `edges()` contains `(s, d, w)` iff `containsEdge(s, d)` holds and `edgeWeight(s, d)` is `w` |
| AsWritten.GrowthDiscardsEdges | src/structures/DirectedGraph.java:65-77 | an `addVertex` that grows the matrix loses every existing edge, while `edgeSize()` is unchanged |
| AsWritten.SizedConstructorStartsOutOfBounds | src/structures/DirectedGraph.java:39-44 | with `n > 0`, the first label added gets index `n`, equal to the dimension; `containsEdge`, `addEdge` and `edges()` on it then throw IndexOutOfBounds |
| AsWritten.SizedZeroStartsInBounds | src/structures/DirectedGraph.java:39-84 | for `new DirectedGraph(0)` the first `addVertex` grows the matrix to 1x1 before popping, so the first label gets index 0 in bounds, `containsEdge` on it is false and `addEdge` on it succeeds |
| AsWritten.RecycledIndexCollides | src/structures/DirectedGraph.java:84 | in a graph built by insertions, removing any vertex but the newest and adding a label leaves a live index on top of the stack, so the next `addVertex` of a new label would bind a live index |
| AsWritten.RemovedVertexEdgesResurface | src/structures/DirectedGraph.java:284-302 | a label added after a removal gets the removed index and every edge the removed vertex had, in both directions, while `edgeSize()` is unchanged |
| AsWritten.ClearedWeightsResurface | src/structures/DirectedGraph.java:347-351 | the first label added after `clear()` takes the old stack top and sees the old weight in its cell, while `edgeSize()` is 0 |
| AsWritten.ClearedEdgeCountGoesNegative | src/structures/DirectedGraph.java:314-351 | after `clear()` and one `addVertex`, removing the old diagonal weight succeeds and leaves `edgeSize()` at -1 |
| AsWritten.MissingEdgeWeighsZero | src/structures/DirectedGraph.java:209-220 | `edgeWeight` of two addressable labels with no edge between them answers 0, not the documented -1 |
| AsWritten.ZeroWeightEdgeOnlyCounts | src/structures/DirectedGraph.java:121-124 | a zero-weight `addEdge` on an empty cell returns true and only increments `edgeCount`: the matrix is unchanged and `containsEdge` stays false |

## Left out

- `toString` (src/structures/DirectedGraph.java:353-362): a debug rendering only.
- The `Bijection`, `Edge` and `IGraph` sources are not part of this model:
  - the bijection is a `map<V, int>`, and its index-to-label direction is the map's injectivity;
  - `Edge` is a plain triple, with equality on all three fields.
- DirectedGraph.AddVertex: requires that the stack top is not already a live index
  (`AddVertexDefined`). What `Bijection.add` does with an index that is already bound is not
  known. `AsWritten.RecycledIndexCollides` shows that reachable states violate this requirement,
  and `GraphProperties.Run` stops before such a call.
- DirectedGraph.EdgeWeight: requires both labels to be live, because `Bijection.getValue` on an
  absent label is not known.
- 32-bit overflow of `edgeCount` and of `value + 1` is not modelled: both are unbounded integers.
- Java `null` labels and `HashSet`/`Stack` object identity are not modelled. The copies returned
  by `vertices()` and `edges()` cannot alias the state in a value model.
- Iteration order of `edges()` over the key set is not modelled. The result is a set, and the
  loop throws whenever any live index is out of bounds, whatever the order.
