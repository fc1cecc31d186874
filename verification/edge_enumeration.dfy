/** `edges()` as the source computes it: a loop over every live source label
    with a loop over every live destination label inside, collecting an edge
    for each non-zero cell. */
module EdgeEnumeration {
  import opened Outcomes
  import opened Matrices
  import opened DirectedGraph

  /** The edges from `sources` to `dests` whose endpoints are addressable and
      whose cell is non-zero. */
  ghost function EdgesOver<V>(g: Graph<V>, sources: set<V>, dests: set<V>): (es: set<Edge<V>>) {
    set s, d | s in sources && d in dests && Addressable(g, s) && Addressable(g, d) && Cell(g, s, d) != 0
      :: Edge(s, d, Cell(g, s, d))
  }

  lemma EdgesOverAddSource<V>(g: Graph<V>, sources: set<V>, s: V, dests: set<V>)
    ensures EdgesOver(g, sources + {s}, dests) == EdgesOver(g, sources, dests) + EdgesOver(g, {s}, dests)
  {
  }

  lemma EdgesOverAddDest<V>(g: Graph<V>, s: V, dests: set<V>, d: V)
    requires Addressable(g, s) && Addressable(g, d)
    ensures EdgesOver(g, {s}, dests + {d}) ==
              EdgesOver(g, {s}, dests) + (if Cell(g, s, d) != 0 then {Edge(s, d, Cell(g, s, d))} else {})
  {
  }

  method CollectEdges<V>(g: Graph<V>) returns (r: Result<set<Edge<V>>>)
    ensures r == Edges(g)
  {
    var keys := g.labels.Keys;
    var found: set<Edge<V>> := {};
    var todo := keys;
    while todo != {}
      invariant todo <= keys
      invariant forall v | v in keys - todo :: Addressable(g, v)
      invariant found == EdgesOver(g, keys - todo, keys)
      decreases todo
    {
      var s :| s in todo;
      var pending := keys;
      ghost var row: set<Edge<V>> := {};
      while pending != {}
        invariant pending <= keys
        invariant keys - pending != {} ==> Addressable(g, s)
        invariant forall v | v in keys - pending :: Addressable(g, v)
        invariant row == EdgesOver(g, {s}, keys - pending)
        invariant found == EdgesOver(g, keys - todo, keys) + row
        decreases pending
      {
        var d :| d in pending;
        var sourceIndex := g.labels[s];
        var destinationIndex := g.labels[d];
        if !InBounds(g.matrix, sourceIndex) || !InBounds(g.matrix, destinationIndex) {
          assert !AllAddressable(g) by {
            assert s in g.labels && d in g.labels;
          }
          return Err(IndexOutOfBounds);
        }
        var weight := g.matrix[sourceIndex][destinationIndex];
        EdgesOverAddDest(g, s, keys - pending, d);
        assert keys - (pending - {d}) == (keys - pending) + {d};
        if weight != 0 {
          found := found + {Edge(s, d, weight)};
          row := row + {Edge(s, d, weight)};
        }
        pending := pending - {d};
      }
      EdgesOverAddSource(g, keys - todo, s, keys);
      assert keys - (todo - {s}) == (keys - todo) + {s};
      todo := todo - {s};
    }
    assert keys - todo == keys;
    assert AllAddressable(g);
    assert EdgesOver(g, keys, keys) == EdgeSet(g);
    r := Ok(found);
  }
}
