/** The label-to-index translation the graph keeps. Only the label-to-index
    direction is used by the graph, so the bijection is a map from labels to
    indices; the index-to-label direction exists exactly when the map is
    injective. */
module Bijections {

  type Bijection<V> = map<V, int>

  /** No two labels share an index. */
  ghost predicate Injective<V>(b: Bijection<V>) {
    forall x, y | x in b && y in b && x != y :: b[x] != b[y]
  }

  /** Binds a fresh label to an unused index. Binding an index that another
      label already holds is left undefined (the precondition). */
  function Add<V>(b: Bijection<V>, k: V, i: int): (r: Bijection<V>)
    requires k !in b && i !in b.Values
    ensures r.Keys == b.Keys + {k}
    ensures r[k] == i
    ensures forall x | x in b :: r[x] == b[x]
    ensures |r| == |b| + 1
    ensures r.Values == b.Values + {i}
    ensures Injective(b) ==> Injective(r)
  {
    var r := b[k := i];
    UpdateValues(b, k, i);
    r
  }

  /** Unbinds a present label; every other binding is kept and, when the map
      is injective, exactly that label's index leaves the value set. */
  function RemoveKey<V>(b: Bijection<V>, k: V): (r: Bijection<V>)
    requires k in b
    ensures r.Keys == b.Keys - {k}
    ensures forall x | x in r :: r[x] == b[x]
    ensures |r| == |b| - 1
    ensures Injective(b) ==> Injective(r) && r.Values == b.Values - {b[k]}
  {
    var r := b - {k};
    assert Injective(b) ==> r.Values == b.Values - {b[k]} by {
      if Injective(b) {
        forall i | i in b.Values - {b[k]} ensures i in r.Values {
          var x :| x in b && b[x] == i;
          assert x != k;
          assert r[x] == i;
        }
      }
    }
    r
  }

  /** The value set after binding a fresh key. */
  lemma UpdateValues<V>(b: Bijection<V>, k: V, i: int)
    requires k !in b
    ensures b[k := i].Values == b.Values + {i}
  {
    var r := b[k := i];
    forall j | j in r.Values ensures j in b.Values + {i} {
      var x :| x in r && r[x] == j;
      if x != k { assert b[x] == j; }
    }
    forall j | j in b.Values ensures j in r.Values {
      var x :| x in b && b[x] == j;
      assert r[x] == j;
    }
    assert r[k] == i;
  }

  /** Rebinding a removed label to its old index restores the map. */
  lemma RemoveKeyThenRestore<V>(b: Bijection<V>, k: V)
    requires k in b
    ensures RemoveKey(b, k)[k := b[k]] == b
  {
    var r := RemoveKey(b, k)[k := b[k]];
    assert r.Keys == b.Keys;
    forall x | x in r ensures r[x] == b[x] {}
  }
}
