/** Collector and recoverer together: buckets the collector can produce without flagging a gap on
    which the recoverer loses stored transactions or replays past its target. */
module PitrPipeline {
  import opened Options
  import opened Gtid
  import opened Collector
  import opened CollectorCoverage
  import opened Recoverer
  import opened RecoveryExactness
  import opened PitrNames
  import opened GoStrings

  /** The GTID-set objects the recoverer reads are the ones the collector wrote. */
  ghost predicate SameContents(b: Bucket, st: GtidObjects) {
    b.gtidSets.Keys == st.Keys && b.gtidSets.Keys <= b.binlogs.Keys
    && forall k :: k in st ==> Denote(st[k]) == b.gtidSets[k]
  }

  /** names is what listing the bucket may return: every object with its set, once, none before one
      whose key is smaller. */
  ghost predicate Listing(st: GtidObjects, names: seq<ObjectName>) {
    && (forall n :: n in names <==> n in st)
    && (forall i, j :: 0 <= i < j < |names| ==> names[i] != names[j] && !KeyBefore(names[j], names[i]))
  }

  ghost predicate InKeyOrder(keys: seq<ObjectName>) {
    forall i, j :: 0 <= i < j < |keys| ==> KeyBefore(keys[i], keys[j])
  }

  lemma OrderedKeysDiffer(keys: seq<ObjectName>, i: nat, j: nat)
    requires InKeyOrder(keys) && i < j < |keys|
    ensures keys[i] != keys[j]
  {
    LessIsStrict(keys[i].number);
  }

  /** The newest object is listed last. */
  lemma LastListed(st: GtidObjects, names: seq<ObjectName>, keys: seq<ObjectName>)
    requires Listing(st, names) && InKeyOrder(keys) && keys != [] && forall n :: n in st <==> n in keys
    ensures names != [] && names[|names| - 1] == keys[|keys| - 1]
  {
    var last := keys[|keys| - 1];
    assert last in keys && last in names;
    var p :| 0 <= p < |names| && names[p] == last;
    var end := names[|names| - 1];
    assert end in names && end in keys;
    var q :| 0 <= q < |keys| && keys[q] == end;
    assert end == last || KeyBefore(end, last);
  }

  lemma SomeMember(names: seq<ObjectName>)
    ensures names == [] || exists n :: n in names
  {
    if names != [] {
      assert names[0] in names;
    }
  }

  /** A bucket whose keys are all ordered is listed in that order. */
  lemma {:induction false} ListedInKeyOrder(st: GtidObjects, names: seq<ObjectName>, keys: seq<ObjectName>)
    requires Listing(st, names) && InKeyOrder(keys) && forall n :: n in st <==> n in keys
    ensures names == keys
    decreases |keys|
  {
    if keys == [] {
      SomeMember(names);
    } else {
      LastListed(st, names, keys);
      var k, m := |keys| - 1, |names| - 1;
      var st' := st - {keys[k]};
      FrontWithout(names);
      forall i | 0 <= i < k ensures keys[i] != keys[k] { OrderedKeysDiffer(keys, i, k); }
      FrontWithout(keys);
      assert Listing(st', names[..m]);
      ListedInKeyOrder(st', names[..m], keys[..k]);
      assert names == names[..m] + [keys[k]] && keys == keys[..k] + [keys[k]];
    }
  }

  lemma FrontWithout(names: seq<ObjectName>)
    requires names != [] && forall i :: 0 <= i < |names| - 1 ==> names[i] != names[|names| - 1]
    ensures forall n :: n in names[..|names| - 1] <==> n in names && n != names[|names| - 1]
  {
    var k := |names| - 1;
    forall n | n in names && n != names[k] ensures n in names[..k] {
      var i :| 0 <= i < |names| && names[i] == n;
      assert names[..k][i] == n;
    }
  }

  /** A first run stores 1 .. q - 1; the next reads a host that cut them at p as well. */
  lemma SecondHost(first: Binlog, small: Binlog, rest: Binlog, from: nat, p: nat, q: nat, r: nat, writes: nat)
    requires first.gtidSet == Interval(1, q)
    requires small.gtidSet == Interval(from, p) && rest.gtidSet == Interval(p, r)
    requires 1 <= from < p < q < r && p > 1
    requires writes == 3 || writes == 6
    ensures var runs := [Run([first], [1, q], 3), Run([small, rest], [from, p, r], writes)];
      var b1 := PutAll(EMPTY_BUCKET, first, 3);
      HostsContiguous(runs)
      && AfterRuns(EMPTY_BUCKET, runs)
         == if writes == 3 then PutAll(b1, small, 3) else PutAll(PutAll(b1, small, 3), rest, 3)
  {
    var list := [small, rest];
    var runs := [Run([first], [1, q], 3), Run(list, [from, p, r], writes)];
    IntervalEmpty(1, q);
    IntervalEmpty(from, p);
    IntervalEmpty(p, r);
    SingleRun(EMPTY_BUCKET, first, 3);
    var b1 := PutAll(EMPTY_BUCKET, first, 3);
    IntervalSubset(1, q, p, r);
    IntervalSubset(p, r, 1, q);
    IntervalSubset(from, p, 1, q);
    IntervalSubset(1, q, from, p);
    assert !Nested(rest, Interval(1, q)) && Nested(small, Interval(1, q));
    assert list[0].gtidSet != {};
    assert NewestNested(list, Interval(1, q)) == 0;
    assert list[0..] == list && list[1..] == [rest] && [rest][1..] == [];
    var b2 := PutAll(b1, small, 3);
    assert Collect(b1, list, writes) == Upload(b1, list, writes) == Upload(b2, [rest], writes - 3);
    assert writes == 6 ==> Upload(PutAll(b2, rest, 3), [], 0) == PutAll(b2, rest, 3);
    assert runs[1..] == [runs[1]] && [runs[1]][1..] == [];
    assert AfterRuns(b1, [runs[1]]) == AfterRuns(Collect(b1, list, writes), []);
  }

  lemma DistinctKeys(x: Binlog, y: Binlog, n: nat)
    requires n in x.gtidSet && n !in y.gtidSet
    ensures KeyOf(x) != KeyOf(y)
  {
  }

  /** The marker regresses to from .. p - 1 and the run dies. No gap was flagged and 1 .. q - 1 are
      stored with their sets, yet latest recovery of a backup at s stops at the younger object and
      never reads s + 1 .. q - 1. The object that reaches further is the older one by name, which is
      the natural order when the second host's binlog begins later. */
  lemma LatestLosesStored(
    first: Binlog, small: Binlog, rest: Binlog, from: nat, p: nat, q: nat, r: nat, s: nat,
    st: GtidObjects, names: seq<ObjectName>)
    requires first.gtidSet == Interval(1, q) && small.gtidSet == Interval(from, p) && rest.gtidSet == Interval(p, r)
    requires 1 <= from < p <= s < q - 1 && q < r
    requires st == map[KeyOf(first) := [Span(1, q - 1)], KeyOf(small) := [Span(from, p - 1)]]
    requires KeyBefore(KeyOf(first), KeyOf(small)) && Listing(st, names)
    ensures var b := AfterRuns(EMPTY_BUCKET, [Run([first], [1, q], 3), Run([small, rest], [from, p, r], 3)]);
      && b.gaps == 0 && b.lastSet == Some(Interval(from, p)) && SameContents(b, st)
      && var req := Request(Latest, Interval(1, s + 1), 0);
         q - 1 in Replayed(st, names) && Recovered(st, req, Select(st, req, names, None)) == Interval(1, s + 1)
  {
    SecondHost(first, small, rest, from, p, q, r, 3);
    DistinctKeys(first, small, q - 1);
    SpanDenotes(st[KeyOf(first)]);
    SpanDenotes(st[KeyOf(small)]);
    assert SameContents(PutAll(PutAll(EMPTY_BUCKET, first, 3), small, 3), st);
    ListedInKeyOrder(st, names, [KeyOf(first), KeyOf(small)]);
    StoppingWalk(KeyOf(first), KeyOf(small), from, p, q, s, st);
  }

  lemma StoppingWalk(a: ObjectName, c: ObjectName, from: nat, p: nat, q: nat, s: nat, st: GtidObjects)
    requires a != c && 1 <= from < p <= s < q - 1
    requires st == map[a := [Span(1, q - 1)], c := [Span(from, p - 1)]]
    ensures var req := Request(Latest, Interval(1, s + 1), 0);
      q - 1 in Replayed(st, [a, c]) && Recovered(st, req, Select(st, req, [a, c], None)) == Interval(1, s + 1)
  {
    SpanDenotes(st[a]);
    SpanDenotes(st[c]);
    var req := Request(Latest, Interval(1, s + 1), 0);
    assert from in req.start && from in Denote(st[c]);
    assert Select(st, req, [a, c], None) == Selection([c], None);
    OneReplayed(st, c);
    TwoReplayed(st, a, c);
  }

  /** The walk over objects 1 .. p - 1, 1 .. q - 1 and p .. r - 1 for a target both last ones hold. */
  lemma OvershootingWalk(
    a: ObjectName, b: ObjectName, c: ObjectName, p: nat, q: nat, r: nat, s: nat, t: nat, st: GtidObjects)
    requires a != b && a != c && b != c && 1 <= s < p <= t < q < r
    requires st == map[a := [Span(1, p - 1)], b := [Span(1, q - 1)], c := [Span(p, r - 1)]]
    ensures var req := Request(Transaction, Interval(1, s + 1), t);
      Recovered(st, req, Select(st, req, [a, b, c], None)) == Interval(1, t) + Interval(q, r)
  {
    SpanDenotes(st[a]);
    SpanDenotes(st[b]);
    SpanDenotes(st[c]);
    var req := Request(Transaction, Interval(1, s + 1), t);
    assert Select(st, req, [a, b, c], None) == Selection([b, c], Some(Span(t, q - 1))) by {
      assert [a, b, c][..2] == [a, b] && [a, b][..1] == [a];
      assert 1 in req.start && 1 in Denote(st[b]);
      assert Select(st, req, [a, b], Some(Span(t, r - 1))) == Selection([b], Some(Span(t, q - 1)));
    }
    TwoReplayed(st, b, c);
  }

  lemma TwoReplayed(st: GtidObjects, b: ObjectName, c: ObjectName)
    requires b in st && c in st
    ensures Replayed(st, [b, c]) == Denote(st[b]) + Denote(st[c])
  {
    assert [b, c][..1] == [b];
    OneReplayed(st, b);
  }

  lemma OneReplayed(st: GtidObjects, b: ObjectName)
    requires b in st
    ensures Replayed(st, [b]) == Denote(st[b])
  {
    assert [b][..0] == [];
    assert Replayed(st, [b]) == {} + Denote(st[b]);
  }

  lemma ThreeObjects(first: Binlog, small: Binlog, rest: Binlog, p: nat, q: nat, r: nat, st: GtidObjects, b: Bucket)
    requires first.gtidSet == Interval(1, q) && small.gtidSet == Interval(1, p) && rest.gtidSet == Interval(p, r)
    requires 1 < p < q < r
    requires st == map[KeyOf(small) := [Span(1, p - 1)], KeyOf(first) := [Span(1, q - 1)],
                       KeyOf(rest) := [Span(p, r - 1)]]
    requires b == PutAll(PutAll(PutAll(EMPTY_BUCKET, first, 3), small, 3), rest, 3)
    ensures KeyOf(small) != KeyOf(first) && KeyOf(small) != KeyOf(rest) && KeyOf(first) != KeyOf(rest)
    ensures b.gaps == 0 && SameContents(b, st)
  {
    DistinctKeys(first, small, p);
    DistinctKeys(small, rest, 1);
    DistinctKeys(first, rest, 1);
    SpanDenotes(st[KeyOf(small)]);
    SpanDenotes(st[KeyOf(first)]);
    SpanDenotes(st[KeyOf(rest)]);
  }

  /** With every write done the objects are 1 .. p - 1, 1 .. q - 1 and p .. r - 1 in name order, no
      gap flagged. Recovery to t takes its exclude set from the middle one and replays q .. r - 1. */
  lemma TransactionOvershoots(
    first: Binlog, small: Binlog, rest: Binlog, p: nat, q: nat, r: nat, s: nat, t: nat,
    st: GtidObjects, names: seq<ObjectName>)
    requires first.gtidSet == Interval(1, q) && small.gtidSet == Interval(1, p) && rest.gtidSet == Interval(p, r)
    requires 1 <= s < p <= t < q < r
    requires st == map[KeyOf(small) := [Span(1, p - 1)], KeyOf(first) := [Span(1, q - 1)],
                       KeyOf(rest) := [Span(p, r - 1)]]
    requires InKeyOrder([KeyOf(small), KeyOf(first), KeyOf(rest)]) && Listing(st, names)
    ensures var b := AfterRuns(EMPTY_BUCKET, [Run([first], [1, q], 3), Run([small, rest], [1, p, r], 6)]);
      && b.gaps == 0 && SameContents(b, st)
      && var req := Request(Transaction, Interval(1, s + 1), t);
         Recovered(st, req, Select(st, req, names, None)) == Interval(1, t) + Interval(q, r)
  {
    SecondHost(first, small, rest, 1, p, q, r, 6);
    ThreeObjects(first, small, rest, p, q, r, st, PutAll(PutAll(PutAll(EMPTY_BUCKET, first, 3), small, 3), rest, 3));
    ListedInKeyOrder(st, names, [KeyOf(small), KeyOf(first), KeyOf(rest)]);
    OvershootingWalk(KeyOf(small), KeyOf(first), KeyOf(rest), p, q, r, s, t, st);
  }
}
