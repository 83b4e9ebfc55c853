/** Names not in use. */
module Fresh {

  lemma {:induction false} FreshName(names: set<nat>) returns (m: nat)
    ensures forall n :: n in names ==> n < m
  {
    m := 0;
    if n :| n in names {
      var rest := FreshName(names - {n});
      m := if n < rest then rest else n + 1;
      assert forall k :: k in names ==> k == n || k in names - {n};
    }
  }
}
