/** GTID sets of a single replication source: sets of transaction numbers.
    GTID_SUBSET and GTID_SUBTRACT are the subset and difference of such sets. */
module Gtid {

  type GtidSet = set<nat>

  /** The transactions lo, lo + 1, ..., hi - 1. */
  function Interval(lo: nat, hi: nat): (r: GtidSet)
    ensures forall x: nat :: x in r <==> lo <= x < hi
    decreases hi
  {
    if hi <= lo then {} else Interval(lo, hi - 1) + {hi - 1}
  }

  lemma IntervalSubset(a: nat, b: nat, c: nat, d: nat)
    requires a < b
    ensures Interval(a, b) <= Interval(c, d) <==> c <= a && b <= d
  {
    if Interval(a, b) <= Interval(c, d) {
      assert a in Interval(a, b) && b - 1 in Interval(a, b);
    }
  }

  lemma IntervalsEqual(a: nat, b: nat, c: nat, d: nat)
    requires a < b && Interval(a, b) == Interval(c, d)
    ensures a == c && b == d
  {
    IntervalSubset(a, b, c, d);
    assert a in Interval(c, d);
    IntervalSubset(c, d, a, b);
  }

  lemma IntervalEmpty(a: nat, b: nat)
    ensures Interval(a, b) == {} <==> b <= a
  {
    if a < b {
      assert a in Interval(a, b);
    }
  }
}
