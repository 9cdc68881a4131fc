/** Go leaves the iteration order of a map unspecified; the model makes it an explicit parameter
    that lists each key exactly once. */
module MapOrder {

  predicate Distinct<K(==)>(order: seq<K>)
  {
    forall i, j :: 0 <= i < j < |order| ==> order[i] != order[j]
  }

  ghost predicate IsOrderOf<K(!new)>(order: seq<K>, keys: set<K>)
  {
    Distinct(order) && forall k :: k in order <==> k in keys
  }

  /** An iteration order may start anywhere: the rest lists the remaining keys. */
  lemma RestIsOrder<K(!new)>(order: seq<K>, keys: set<K>)
    requires |order| > 0 && IsOrderOf(order, keys)
    ensures IsOrderOf(order[1..], keys - {order[0]})
  {
    forall k ensures k in order[1..] <==> k in keys - {order[0]} {
      if k in order[1..] {
        var j :| 0 <= j < |order[1..]| && order[1..][j] == k;
        assert order[j + 1] == k;
      }
      if k in keys - {order[0]} {
        var j :| 0 <= j < |order| && order[j] == k;
        assert j != 0;
        assert order[1..][j - 1] == k;
      }
    }
  }

  /** Only the empty order lists no keys. */
  lemma EmptyOrder<K(!new)>(order: seq<K>, keys: set<K>)
    requires IsOrderOf(order, keys)
    ensures |order| == 0 <==> keys == {}
  {
    if |order| > 0 {
      assert order[0] in keys;
    }
    if keys != {} {
      var k :| k in keys;
      assert k in order;
    }
  }
}
