/** Distinct values in order of first appearance, as a JavaScript `Set` or `Map` lists its keys. */
module Sequences {

  /** The distinct values, each at its first position. */
  function Unique(values: seq<string>): seq<string> {
    if values == [] then []
    else
      var front, last := Unique(values[..|values| - 1]), values[|values| - 1];
      if last in front then front else front + [last]
  }

  predicate Distinct(s: seq<string>) {
    forall i, j :: 0 <= i < j < |s| ==> s[i] != s[j]
  }

  lemma {:induction false} UniqueKeepsValues(values: seq<string>)
    ensures Distinct(Unique(values))
    ensures forall v :: v in Unique(values) <==> v in values
    ensures values != [] ==> Unique(values) != []
  {
    if values != [] {
      var n := |values| - 1;
      UniqueKeepsValues(values[..n]);
      assert values == values[..n] + [values[n]];
    }
  }

  /** Of two distinct values, the one listed first is the one met first: at `k` it is there and the other is not yet. */
  lemma {:induction false} UniqueKeepsOrder(values: seq<string>, i: nat, j: nat) returns (k: nat)
    requires i < j < |Unique(values)|
    ensures k < |values| && values[k] == Unique(values)[i] && Unique(values)[j] !in values[..k + 1]
  {
    var n := |values| - 1;
    var front := values[..n];
    UniqueKeepsValues(front);
    if j < |Unique(front)| {
      k := UniqueKeepsOrder(front, i, j);
    } else {
      assert Unique(front)[i] in front;
      k :| k < n && front[k] == Unique(front)[i];
    }
    assert values[..k + 1] == front[..k + 1];
  }
}
