/** The pipeline from end to end, when all hosts cut their binlogs alike: whatever runs die, the bucket
    holds a contiguous chain, and recovery from it is exact. */
module PitrEndToEnd {
  import opened Options
  import opened Gtid
  import opened GoStrings
  import opened Collector
  import opened CollectorCoverage
  import opened Recoverer
  import opened RecoveryExactness
  import opened PitrNames
  import opened PitrPipeline
  import opened DateRecovery

  /** The binlogs of the source, as every host that has them has cut, dated and numbered them. */
  ghost predicate Source(logs: seq<Binlog>, cuts: seq<nat>) {
    && Contiguous(logs, cuts)
    && (forall i :: 0 <= i < |logs| ==> cuts[i] < cuts[i + 1])
    && InKeyOrder(Keys(logs))
  }

  function Keys(logs: seq<Binlog>): (r: seq<ObjectName>)
    ensures |r| == |logs| && forall i :: 0 <= i < |logs| ==> r[i] == KeyOf(logs[i])
  {
    seq(|logs|, i requires 0 <= i < |logs| => KeyOf(logs[i]))
  }

  /** A run against a host that has some stretch of them. */
  ghost predicate ReadsStretch(run: Run, logs: seq<Binlog>, cuts: seq<nat>) {
    && |cuts| == |logs| + 1
    && exists a, e :: 0 <= a <= e <= |logs| && run.list == logs[a..e] && run.cuts == cuts[a..e + 1]
  }

  ghost predicate Alike(runs: seq<Run>, logs: seq<Binlog>, cuts: seq<nat>) {
    forall i :: 0 <= i < |runs| ==> ReadsStretch(runs[i], logs, cuts)
  }

  /** The bucket's sets are those of binlogs lo .. hi - 1, and its marker is that of binlog m. */
  ghost predicate Holds(b: Bucket, logs: seq<Binlog>, lo: nat, m: nat, hi: nat) {
    && lo <= m < hi <= |logs| && b.lastSet == Some(logs[m].gtidSet)
    && (forall i :: lo <= i < hi ==> KeyOf(logs[i]) in b.gtidSets)
    && (forall k :: k in b.gtidSets ==> exists i :: lo <= i < hi && k == KeyOf(logs[i]))
  }

  /** Writing the binlog after the marker, as far as the writes go. */
  lemma PutExtends(b: Bucket, logs: seq<Binlog>, lo: nat, m: nat, hi: nat, writes: nat) returns (hi': nat)
    requires Holds(b, logs, lo, m, hi) && m + 1 < |logs|
    ensures Holds(PutAll(b, logs[m + 1], writes), logs, lo, if writes >= 3 then m + 1 else m, hi')
  {
    hi' := if writes >= 2 && hi == m + 1 then m + 2 else hi;
    var r := PutAll(b, logs[m + 1], writes);
    forall k | k in r.gtidSets ensures exists i :: lo <= i < hi' && k == KeyOf(logs[i]) {
      if k in b.gtidSets {
        var i :| lo <= i < hi && k == KeyOf(logs[i]);
      } else {
        assert k == KeyOf(logs[m + 1]);
      }
    }
  }

  lemma {:induction false} UploadExtends(
    b: Bucket, logs: seq<Binlog>, cuts: seq<nat>, lo: nat, m: nat, hi: nat, e: nat, writes: nat)
    returns (m': nat, hi': nat)
    requires Source(logs, cuts) && Holds(b, logs, lo, m, hi) && m < e <= |logs|
    ensures Holds(Upload(b, logs[m + 1..e], writes), logs, lo, m', hi')
    decreases e - m
  {
    m', hi' := m, hi;
    if m + 1 < e {
      var rest := logs[m + 1..e];
      assert rest[0] == logs[m + 1] && rest[1..] == logs[m + 2..e];
      IntervalEmpty(cuts[m + 1], cuts[m + 2]);
      hi' := PutExtends(b, logs, lo, m, hi, writes);
      if writes >= 3 {
        m', hi' := UploadExtends(PutAll(b, logs[m + 1], writes), logs, cuts, lo, m + 1, hi', e, writes - 3);
      }
    }
  }

  /** Two binlogs of the source are nested only if they are the same. */
  lemma NestedIsSame(logs: seq<Binlog>, cuts: seq<nat>, i: nat, m: nat)
    requires Source(logs, cuts) && i < |logs| && m < |logs|
    ensures Nested(logs[i], logs[m].gtidSet) <==> i == m
  {
    IntervalEmpty(cuts[i], cuts[i + 1]);
    IntervalSubset(cuts[i], cuts[i + 1], cuts[m], cuts[m + 1]);
    IntervalSubset(cuts[m], cuts[m + 1], cuts[i], cuts[i + 1]);
    if i < m { SourceCutsOrdered(logs, cuts, i + 1, m); }
    if m < i { SourceCutsOrdered(logs, cuts, m + 1, i); }
  }

  lemma {:induction false} SourceCutsOrdered(logs: seq<Binlog>, cuts: seq<nat>, i: nat, j: nat)
    requires Source(logs, cuts) && i <= j <= |logs|
    ensures cuts[i] <= cuts[j]
    decreases j - i
  {
    if i < j { SourceCutsOrdered(logs, cuts, i, j - 1); }
  }

  /** The search finds the marker's own binlog, if the host still has it. */
  lemma {:induction false} SearchFindsMarker(logs: seq<Binlog>, cuts: seq<nat>, m: nat, a: nat, e: nat)
    requires Source(logs, cuts) && m < |logs| && a <= e <= |logs|
    ensures NewestNested(logs[a..e], logs[m].gtidSet) == if a <= m < e then m - a else -1
    decreases e - a
  {
    if a < e {
      var list := logs[a..e];
      assert list[|list| - 1] == logs[e - 1] && list[..|list| - 1] == logs[a..e - 1];
      NestedIsSame(logs, cuts, e - 1, m);
      SearchFindsMarker(logs, cuts, m, a, e - 1);
    }
  }

  /** A host that still has the marker's binlog is read from the next one on; any other is a gap. */
  lemma ResumesAfterMarker(b: Bucket, logs: seq<Binlog>, cuts: seq<nat>, m: nat, a: nat, e: nat)
    requires Source(logs, cuts) && m < |logs| && a < e <= |logs| && b.lastSet == Some(logs[m].gtidSet)
    ensures AnyTransactions(logs[a..e]) && (GapFlagged(b, logs[a..e]) <==> !(a <= m < e))
    ensures a <= m < e ==> logs[a..e][StartIndex(logs[a..e], MarkerOf(b))..] == logs[m + 1..e]
  {
    var list := logs[a..e];
    assert list[0] == logs[a];
    IntervalEmpty(cuts[a], cuts[a + 1]);
    IntervalEmpty(cuts[m], cuts[m + 1]);
    SearchFindsMarker(logs, cuts, m, a, e);
    if a <= m < e {
      StretchAt(logs, a, m, e);
      StartAt(list, logs[m].gtidSet, m - a);
    }
  }

  lemma StretchAt(logs: seq<Binlog>, a: nat, m: nat, e: nat)
    requires a <= m < e <= |logs|
    ensures logs[a..e][m - a] == logs[m] && logs[a..e][m - a + 1..] == logs[m + 1..e]
  {
  }

  lemma StartAt(list: seq<Binlog>, last: GtidSet, i: nat)
    requires i < |list| && list[i].gtidSet == last && last != {} && NewestNested(list, last) == i
    ensures StartIndex(list, last) == i + 1
  {
  }

  lemma FlagCounts(b: Bucket, list: seq<Binlog>, writes: nat)
    requires Collect(b, list, writes).gaps == b.gaps
    ensures !GapFlagged(b, list)
  {
    if AnyTransactions(list) {
      UploadMarker(Flagged(b, list), list[StartIndex(list, MarkerOf(b))..], writes);
    }
  }

  lemma CollectResumes(b: Bucket, list: seq<Binlog>, rest: seq<Binlog>, writes: nat)
    requires AnyTransactions(list) && !GapFlagged(b, list) && list[StartIndex(list, MarkerOf(b))..] == rest
    ensures Collect(b, list, writes) == Upload(b, rest, writes)
  {
  }

  lemma StretchExtends(
    b: Bucket, logs: seq<Binlog>, cuts: seq<nat>, a: nat, e: nat, writes: nat, lo: nat, m: nat, hi: nat)
    returns (m': nat, hi': nat)
    requires Source(logs, cuts) && a < e <= |logs| && Holds(b, logs, lo, m, hi)
    requires Collect(b, logs[a..e], writes).gaps == b.gaps
    ensures Holds(Collect(b, logs[a..e], writes), logs, lo, m', hi')
  {
    FlagCounts(b, logs[a..e], writes);
    ResumesAfterMarker(b, logs, cuts, m, a, e);
    CollectResumes(b, logs[a..e], logs[m + 1..e], writes);
    m', hi' := UploadExtends(b, logs, cuts, lo, m, hi, e, writes);
  }

  /** A run that flags no gap extends the stretch at its end. */
  lemma RunExtends(b: Bucket, run: Run, logs: seq<Binlog>, cuts: seq<nat>, lo: nat, m: nat, hi: nat)
    returns (m': nat, hi': nat)
    requires Source(logs, cuts) && ReadsStretch(run, logs, cuts) && Holds(b, logs, lo, m, hi)
    requires Collect(b, run.list, run.writes).gaps == b.gaps
    ensures Holds(Collect(b, run.list, run.writes), logs, lo, m', hi')
  {
    var a, e :| 0 <= a <= e <= |logs| && run.list == logs[a..e] && run.cuts == cuts[a..e + 1];
    m', hi' := m, hi;
    if a < e {
      m', hi' := StretchExtends(b, logs, cuts, a, e, run.writes, lo, m, hi);
    } else {
      NothingCollected(b, run.list, run.writes);
    }
  }

  lemma NothingCollected(b: Bucket, list: seq<Binlog>, writes: nat)
    requires |list| == 0
    ensures Collect(b, list, writes) == b
  {
  }

  lemma {:induction false} RunsExtend(
    b: Bucket, runs: seq<Run>, logs: seq<Binlog>, cuts: seq<nat>, lo: nat, m: nat, hi: nat)
    returns (m': nat, hi': nat)
    requires Source(logs, cuts) && Alike(runs, logs, cuts) && Holds(b, logs, lo, m, hi)
    requires AfterRuns(b, runs).gaps == b.gaps
    ensures Holds(AfterRuns(b, runs), logs, lo, m', hi')
    decreases |runs|
  {
    m', hi' := m, hi;
    if runs != [] {
      var run := runs[0];
      var next := Collect(b, run.list, run.writes);
      AlikeIsContiguous(runs, logs, cuts);
      UploadMarker(Flagged(b, run.list), run.list[StartIndex(run.list, MarkerOf(b))..], run.writes);
      NoSilentGap(next, 0, runs[1..]);
      m', hi' := RunExtends(b, run, logs, cuts, lo, m, hi);
      m', hi' := RunsExtend(next, runs[1..], logs, cuts, lo, m', hi');
    }
  }

  lemma AlikeIsContiguous(runs: seq<Run>, logs: seq<Binlog>, cuts: seq<nat>)
    requires Source(logs, cuts) && Alike(runs, logs, cuts)
    ensures HostsContiguous(runs)
  {
    forall i | 0 <= i < |runs| ensures Contiguous(runs[i].list, runs[i].cuts) {
      var a, e :| 0 <= a <= e <= |logs| && runs[i].list == logs[a..e] && runs[i].cuts == cuts[a..e + 1];
      forall j | 0 <= j < e - a
        ensures runs[i].cuts[j] <= runs[i].cuts[j + 1]
        ensures runs[i].list[j].gtidSet == Interval(runs[i].cuts[j], runs[i].cuts[j + 1])
      {
        assert runs[i].list[j] == logs[a + j];
      }
    }
  }

  lemma FirstPut(logs: seq<Binlog>, a: nat, writes: nat)
    requires a < |logs| && writes >= 3
    ensures Holds(PutAll(EMPTY_BUCKET, logs[a], writes), logs, a, a, a + 1)
  {
    var b := PutAll(EMPTY_BUCKET, logs[a], writes);
    assert b.gtidSets == map[KeyOf(logs[a]) := logs[a].gtidSet];
  }

  lemma FirstUploads(logs: seq<Binlog>, cuts: seq<nat>, a: nat, e: nat, writes: nat)
    requires Source(logs, cuts) && a < e <= |logs| && writes >= 3
    ensures Collect(EMPTY_BUCKET, logs[a..e], writes)
         == Upload(PutAll(EMPTY_BUCKET, logs[a], writes), logs[a + 1..e], writes - 3)
  {
    var list := logs[a..e];
    IntervalEmpty(cuts[a], cuts[a + 1]);
    assert list[0] == logs[a] && list[0..] == list && list[1..] == logs[a + 1..e];
    CollectResumes(EMPTY_BUCKET, list, list, writes);
  }

  lemma StretchBegins(logs: seq<Binlog>, cuts: seq<nat>, a: nat, e: nat, writes: nat) returns (m: nat, hi: nat)
    requires Source(logs, cuts) && a < e <= |logs| && writes >= 3
    ensures Holds(Collect(EMPTY_BUCKET, logs[a..e], writes), logs, a, m, hi)
  {
    FirstPut(logs, a, writes);
    FirstUploads(logs, cuts, a, e, writes);
    m, hi := UploadExtends(PutAll(EMPTY_BUCKET, logs[a], writes), logs, cuts, a, a, a + 1, e, writes - 3);
  }

  /** The first run to upload, if it survives to its marker, begins the stretch. */
  lemma FirstRunBegins(run: Run, logs: seq<Binlog>, cuts: seq<nat>) returns (lo: nat, m: nat, hi: nat)
    requires Source(logs, cuts) && ReadsStretch(run, logs, cuts) && Uploads(run) && run.writes >= 3
    ensures Holds(Collect(EMPTY_BUCKET, run.list, run.writes), logs, lo, m, hi)
    ensures run.cuts != [] && cuts[lo] == run.cuts[0]
  {
    var a, e :| 0 <= a <= e <= |logs| && run.list == logs[a..e] && run.cuts == cuts[a..e + 1];
    lo := a;
    assert cuts[a..e + 1][0] == cuts[a] && a < e;
    m, hi := StretchBegins(logs, cuts, a, e, run.writes);
  }

  /** All runs: from the first transaction ever uploaded, the bucket's sets are one stretch. */
  lemma {:induction false} RunsLeaveStretch(runs: seq<Run>, logs: seq<Binlog>, cuts: seq<nat>)
    returns (lo: nat, m: nat, hi: nat)
    requires Source(logs, cuts) && Alike(runs, logs, cuts) && FirstSurvives(runs)
    requires AfterRuns(EMPTY_BUCKET, runs).gaps == 0 && AfterRuns(EMPTY_BUCKET, runs).lastSet.Some?
    ensures Holds(AfterRuns(EMPTY_BUCKET, runs), logs, lo, m, hi)
    ensures HostsContiguous(runs) && cuts[lo] == FirstUpload(runs)
    decreases |runs|
  {
    AlikeIsContiguous(runs, logs, cuts);
    var run := runs[0];
    FirstRun(run);
    if Uploads(run) {
      lo, m, hi := FirstRunBegins(run, logs, cuts);
      m, hi := RunsExtend(Collect(EMPTY_BUCKET, run.list, run.writes), runs[1..], logs, cuts, lo, m, hi);
    } else {
      lo, m, hi := RunsLeaveStretch(runs[1..], logs, cuts);
    }
  }

  /** st is the bucket's sets as the server printed them, one interval each. */
  ghost predicate PrintedSets(b: Bucket, st: GtidObjects, logs: seq<Binlog>, cuts: seq<nat>) {
    && |cuts| == |logs| + 1 && (forall k :: k in st <==> k in b.gtidSets)
    && (forall i :: 0 <= i < |logs| && KeyOf(logs[i]) in st ==>
         cuts[i] < cuts[i + 1] && st[KeyOf(logs[i])] == [Span(cuts[i], cuts[i + 1] - 1)])
  }

  lemma StretchKeys(b: Bucket, logs: seq<Binlog>, lo: nat, m: nat, hi: nat, keys: seq<ObjectName>)
    requires InKeyOrder(Keys(logs)) && Holds(b, logs, lo, m, hi) && keys == Keys(logs)[lo..hi]
    ensures InKeyOrder(keys) && forall n :: n in b.gtidSets <==> n in keys
  {
    forall n ensures n in b.gtidSets <==> n in keys {
      if n in b.gtidSets {
        var i :| lo <= i < hi && n == KeyOf(logs[i]);
        assert keys[i - lo] == n;
      }
      if n in keys {
        var i :| 0 <= i < |keys| && keys[i] == n;
        assert keys[i] == KeyOf(logs[lo + i]);
      }
    }
    forall i, j | 0 <= i < j < |keys| ensures KeyBefore(keys[i], keys[j]) {
      assert keys[i] == Keys(logs)[lo + i] && keys[j] == Keys(logs)[lo + j];
    }
  }

  /** Whatever listing the recoverer gets, it is a chain over the stretch. */
  lemma StretchIsChain(
    b: Bucket, st: GtidObjects, names: seq<ObjectName>, logs: seq<Binlog>, cuts: seq<nat>, lo: nat, m: nat, hi: nat)
    requires Source(logs, cuts) && Holds(b, logs, lo, m, hi) && PrintedSets(b, st, logs, cuts) && Listing(st, names)
    ensures Chain(st, names, cuts[lo..hi + 1])
  {
    StretchKeys(b, logs, lo, m, hi, Keys(logs)[lo..hi]);
    ListedInKeyOrder(st, names, Keys(logs)[lo..hi]);
    KeysAreChain(st, names, logs, cuts, lo, hi);
  }

  lemma KeysAreChain(st: GtidObjects, names: seq<ObjectName>, logs: seq<Binlog>, cuts: seq<nat>, lo: nat, hi: nat)
    requires |cuts| == |logs| + 1 && lo <= hi <= |logs| && names == Keys(logs)[lo..hi]
    requires forall i :: lo <= i < hi ==>
      KeyOf(logs[i]) in st && cuts[i] < cuts[i + 1] && st[KeyOf(logs[i])] == [Span(cuts[i], cuts[i + 1] - 1)]
    ensures Chain(st, names, cuts[lo..hi + 1])
  {
    var part := cuts[lo..hi + 1];
    forall i | 0 <= i < |names|
      ensures part[i] < part[i + 1] && names[i] in st && st[names[i]] == [Span(part[i], part[i + 1] - 1)]
    {
      assert names[i] == KeyOf(logs[lo + i]);
      assert part[i] == cuts[lo + i] && part[i + 1] == cuts[lo + i + 1];
    }
  }

  /** Main theorem: collector and recoverer together. When hosts cut alike, the first run to upload
      survives to its marker and no gap was flagged, then recovery to any stored transaction from a
      backup that reaches the first upload leaves exactly what it should, and latest recovery
      everything up to the last stored transaction. */
  lemma PipelineIsExact(
    runs: seq<Run>, logs: seq<Binlog>, cuts: seq<nat>, st: GtidObjects, names: seq<ObjectName>, req: Request, s: nat)
    requires Source(logs, cuts) && Alike(runs, logs, cuts) && FirstSurvives(runs) && cuts[0] >= 1
    requires var b := AfterRuns(EMPTY_BUCKET, runs);
      b.gaps == 0 && b.lastSet.Some? && PrintedSets(b, st, logs, cuts) && Listing(st, names)
    requires s >= 1 && req.start == Interval(1, s + 1)
    ensures HostsContiguous(runs) && forall n :: n in names ==> n in st
    ensures (FirstUpload(runs) <= s + 1 && req.kind.Transaction? && req.target >= s
             && req.target in Replayed(st, names)) ==>
      Recovered(st, req, Select(st, req, names, None)) == Interval(1, if req.target <= s then s + 1 else req.target)
    ensures FirstUpload(runs) <= s + 1 && req.kind.Latest? ==>
      Recovered(st, req, Select(st, req, names, None)) == req.start + Replayed(st, names)
  {
    var b := AfterRuns(EMPTY_BUCKET, runs);
    var lo, m, hi := RunsLeaveStretch(runs, logs, cuts);
    var part := cuts[lo..hi + 1];
    StretchIsChain(b, st, names, logs, cuts, lo, m, hi);
    ChainReplays(st, names, part);
    SourceCutsOrdered(logs, cuts, 0, lo);
    if FirstUpload(runs) <= s + 1 && req.kind.Transaction? && req.target >= s && req.target in Replayed(st, names) {
      TransactionRecoveryIsExact(st, req, names, part, s);
    }
    if FirstUpload(runs) <= s + 1 && req.kind.Latest? {
      LatestOverChain(st, req, names, part, s);
    }
  }

  lemma ListedByTimestamp(st: GtidObjects, names: seq<ObjectName>)
    requires Listing(st, names) && forall n :: n in st ==> n.timestamp <= MAX_INT64
    ensures ByTimestamp(names)
  {
  }

  /** Main theorem for dates: from the bucket such runs leave, whatever their clock, a recovery to a date
      that succeeds brings back every stored transaction from before it and nothing later, exactly when
      none beyond the backup is held up: in a binlog that begins after the time, or behind a transaction
      of its own binlog from at or after it. */
  method RecoverBucketToDate(
    ghost runs: seq<Run>, ghost logs: seq<Binlog>, ghost cuts: seq<nat>, st: GtidObjects, names: seq<ObjectName>,
    req: Request, ghost s: nat, md5: GtidSet -> string, ghost clock: Clock, endTime: int, fails: set<nat>)
    returns (ok: bool, ghost applied: seq<ObjectName>)
    requires Source(logs, cuts) && Alike(runs, logs, cuts) && FirstSurvives(runs) && cuts[0] >= 1
    requires var b := AfterRuns(EMPTY_BUCKET, runs);
      b.gaps == 0 && b.lastSet.Some? && PrintedSets(b, st, logs, cuts) && Listing(st, names)
    requires s >= 1 && req.start == Interval(1, s + 1) && req.kind.Date?
    requires forall n :: n in st ==> n.timestamp <= MAX_INT64
    ensures (forall n :: n in names ==> n in st) && (forall n :: n in applied ==> n in st)
    ensures !ok ==> fails != {}
    ensures RecoveredTo(st, req, applied, clock, endTime)
         <= req.start + Before(Replayed(st, names), clock, endTime)
    ensures ok ==>
      (RecoveredTo(st, req, applied, clock, endTime) == req.start + Before(Replayed(st, names), clock, endTime)
       <==> !HoldsUp(st, names, req.start, clock, endTime))
  {
    RunsLeaveChain(runs, logs, cuts, st, names, req, s, clock, endTime);
    ListedByTimestamp(st, names);
    ok, applied := RecoverToDate(st, req, names, md5, clock, endTime, fails);
  }

  lemma RunsLeaveChain(
    runs: seq<Run>, logs: seq<Binlog>, cuts: seq<nat>, st: GtidObjects, names: seq<ObjectName>,
    req: Request, s: nat, clock: Clock, endTime: int)
    requires Source(logs, cuts) && Alike(runs, logs, cuts) && FirstSurvives(runs) && cuts[0] >= 1
    requires var b := AfterRuns(EMPTY_BUCKET, runs);
      b.gaps == 0 && b.lastSet.Some? && PrintedSets(b, st, logs, cuts) && Listing(st, names)
    requires s >= 1 && req.start == Interval(1, s + 1)
    ensures forall n :: n in names ==> n in st
    ensures LosesToDate(st, names, NewestOverlap(st, req.start, names), req.start, clock, endTime)
       <==> HoldsUp(st, names, req.start, clock, endTime)
  {
    var b := AfterRuns(EMPTY_BUCKET, runs);
    var lo, m, hi := RunsLeaveStretch(runs, logs, cuts);
    StretchIsChain(b, st, names, logs, cuts, lo, m, hi);
    SourceCutsOrdered(logs, cuts, 0, lo);
    ChainLosesExactlyWhen(st, req, names, cuts[lo..hi + 1], s, clock, endTime);
  }
}
