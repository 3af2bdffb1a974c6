/** The first of a set of IDs or key hashes, in whatever order a component ranks
    them.
 */
module Orders {
  /** A total order on the set. */
  ghost predicate TotalOn(s: set<nat>, before: (nat, nat) -> bool) {
    && (forall a, b :: a in s && b in s ==> before(a, b) || before(b, a))
    && (forall a, b, c :: a in s && b in s && c in s && before(a, b) && before(b, c) ==> before(a, c))
  }

  lemma {:induction false} FirstExists(s: set<nat>, before: (nat, nat) -> bool) returns (first: nat)
    requires s != {} && TotalOn(s, before)
    ensures first in s && forall x :: x in s ==> before(first, x)
  {
    var x :| x in s;
    first := x;
    if s != {x} {
      var other := FirstExists(s - {x}, before);
      first := if before(other, x) then other else x;
      forall y | y in s ensures before(first, y) {
        assert y == x || y in s - {x};
      }
    }
  }
}
