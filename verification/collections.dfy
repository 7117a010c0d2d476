/** An optional value, and finite sets of small numbers. */
module Collections {

  datatype Option<+T> = None | Some(value: T)

  // The numbers below n.
  function Below(n: nat): (r: set<nat>)
    ensures |r| == n && forall s: nat :: s in r <==> s < n
  {
    if n == 0 then {} else Below(n - 1) + {n - 1}
  }

  lemma SameSize(a: set<nat>, b: set<nat>)
    requires a <= b && |a| == |b|
    ensures a == b
  {
    assert b == a + (b - a);
    assert |b| == |a| + |b - a|;
  }
}
