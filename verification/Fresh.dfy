/** Numbers that are not in use. */
module Fresh {
  /** A number that is larger than all in use. */
  lemma {:induction false} FreshNat(used: set<nat>) returns (n: nat)
    ensures forall x :: x in used ==> x < n
  {
    if used == {} {
      n := 0;
    } else {
      var x :| x in used;
      var d := FreshNat(used - {x});
      n := if x < d then d else x + 1;
      forall y | y in used ensures y < n {
        assert y == x || y in used - {x};
      }
    }
  }
}
