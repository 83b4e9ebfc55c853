/** Crash-safe coverage: whatever hosts the runs read and wherever they die, the bucket holds every
    transaction from the start of the current unbroken stretch up to the end of the marker. */
module CollectorCoverage {
  import opened Options
  import opened Gtid
  import opened Collector

  /** One run: the host's list, the cut points of its binlogs, and the writes it survives.
      Binlog i holds the transactions cuts[i], ..., cuts[i + 1] - 1, none if the cuts are equal. */
  datatype Run = Run(list: seq<Binlog>, cuts: seq<nat>, writes: nat)

  ghost predicate Contiguous(list: seq<Binlog>, cuts: seq<nat>) {
    && |cuts| == |list| + 1
    && forall i :: 0 <= i < |list| ==>
         cuts[i] <= cuts[i + 1] && list[i].gtidSet == Interval(cuts[i], cuts[i + 1])
  }

  ghost predicate StoredWithSet(b: Bucket, x: nat) {
    exists k :: k in b.binlogs && k in b.gtidSets && x in b.binlogs[k] && x in b.gtidSets[k]
  }

  ghost predicate Covered(b: Bucket, from: nat, to: nat) {
    forall x: nat :: from <= x < to ==> StoredWithSet(b, x)
  }

  /** Objects hold what the digest in their name says. */
  ghost predicate Named(b: Bucket) {
    && (forall k :: k in b.binlogs ==> b.binlogs[k] == k.digest)
    && (forall k :: k in b.gtidSets ==> b.gtidSets[k] == k.digest)
  }

  ghost predicate MarkerUpTo(b: Bucket, at: nat) {
    b.lastSet.Some? ==> exists lo: nat, hi: nat :: lo < hi <= at && b.lastSet.value == Interval(lo, hi)
  }

  ghost predicate MarkerCovered(b: Bucket, base: nat) {
    b.lastSet.Some? ==>
      exists lo: nat, hi: nat :: lo < hi && b.lastSet.value == Interval(lo, hi) && Covered(b, base, hi)
  }

  lemma PutAllKeeps(b: Bucket, log: Binlog, writes: nat, from: nat, to: nat)
    requires Named(b) && Covered(b, from, to)
    ensures var r := PutAll(b, log, writes);
      && Named(r) && Covered(r, from, to)
      && (writes >= 2 ==> forall x :: x in log.gtidSet ==> StoredWithSet(r, x))
  {
    var r := PutAll(b, log, writes);
    forall x: nat | from <= x < to ensures StoredWithSet(r, x) {
      assert StoredWithSet(b, x);
      var k :| k in b.binlogs && k in b.gtidSets && x in b.binlogs[k] && x in b.gtidSets[k];
      assert k in r.binlogs && k in r.gtidSets && x in r.binlogs[k] && x in r.gtidSets[k];
    }
    if writes >= 2 {
      assert KeyOf(log) in r.binlogs && KeyOf(log) in r.gtidSets;
    }
  }

  lemma ContiguousFrom(list: seq<Binlog>, cuts: seq<nat>, s: nat)
    requires Contiguous(list, cuts) && s <= |list|
    ensures Contiguous(list[s..], cuts[s..])
  {
    forall i | 0 <= i < |list[s..]|
      ensures cuts[s..][i] <= cuts[s..][i + 1] && list[s..][i].gtidSet == Interval(cuts[s..][i], cuts[s..][i + 1])
    {
      assert list[s..][i] == list[s + i];
    }
  }

  /** Uploading from a point that is already covered extends the covered stretch. */
  lemma {:induction false} UploadCovers(b: Bucket, list: seq<Binlog>, cuts: seq<nat>, writes: nat, base: nat, at: nat)
    requires Named(b) && Contiguous(list, cuts)
    requires Covered(b, base, at) && cuts[0] <= at && MarkerUpTo(b, at)
    ensures var r := Upload(b, list, writes); Named(r) && MarkerCovered(r, base)
    decreases |list|
  {
    if list != [] {
      ContiguousFrom(list, cuts, 1);
      if list[0].gtidSet == {} {
        IntervalEmpty(cuts[0], cuts[1]);
        UploadCovers(b, list[1..], cuts[1..], writes, base, at);
      } else {
        var r := PutAll(b, list[0], writes);
        PutAllKeeps(b, list[0], writes, base, at);
        IntervalEmpty(cuts[0], cuts[1]);
        if writes >= 3 {
          var at' := if at < cuts[1] then cuts[1] else at;
          assert list[0].gtidSet == Interval(cuts[0], cuts[1]);
          assert Covered(r, base, at');
          UploadCovers(r, list[1..], cuts[1..], writes - 3, base, at');
        }
      }
    }
  }

  /** A run that dies before its first marker write leaves the marker and what was covered alone. */
  lemma {:induction false} UploadShort(b: Bucket, list: seq<Binlog>, writes: nat, from: nat, to: nat)
    requires Named(b) && Covered(b, from, to) && writes < 3
    ensures var r := Upload(b, list, writes); Named(r) && Covered(r, from, to) && r.lastSet == b.lastSet
    decreases |list|
  {
    if list != [] && list[0].gtidSet == {} {
      UploadShort(b, list[1..], writes, from, to);
    } else if list != [] {
      PutAllKeeps(b, list[0], writes, from, to);
    }
  }

  /** Once it writes a marker, a run that starts from the front covers from its first transaction. */
  lemma {:induction false} UploadFresh(b: Bucket, list: seq<Binlog>, cuts: seq<nat>, writes: nat)
    requires Named(b) && Contiguous(list, cuts) && writes >= 3
    requires AnyTransactions(list)
    ensures var r := Upload(b, list, writes); Named(r) && MarkerCovered(r, cuts[0])
    decreases |list|
  {
    ContiguousFrom(list, cuts, 1);
    IntervalEmpty(cuts[0], cuts[1]);
    if list[0].gtidSet == {} {
      var i :| 0 <= i < |list| && list[i].gtidSet != {};
      assert list[1..][i - 1] == list[i];
      UploadFresh(b, list[1..], cuts[1..], writes);
    } else {
      var r := PutAll(b, list[0], writes);
      PutAllKeeps(b, list[0], writes, 0, 0);
      assert list[0].gtidSet == Interval(cuts[0], cuts[1]);
      assert Covered(r, cuts[0], cuts[1]);
      UploadCovers(r, list[1..], cuts[1..], writes - 3, cuts[0], cuts[1]);
    }
  }

  /** The resume point never lies beyond what the marker says is stored. */
  lemma ResumeWithinMarker(list: seq<Binlog>, cuts: seq<nat>, lo: nat, hi: nat)
    requires Contiguous(list, cuts) && lo < hi
    requires NewestNested(list, Interval(lo, hi)) >= 0
    ensures cuts[StartIndex(list, Interval(lo, hi))] <= hi
  {
    var m := NewestNested(list, Interval(lo, hi));
    assert list[m].gtidSet == Interval(cuts[m], cuts[m + 1]);
    IntervalEmpty(lo, hi);
    IntervalEmpty(cuts[m], cuts[m + 1]);
    IntervalSubset(lo, hi, cuts[m], cuts[m + 1]);
    IntervalSubset(cuts[m], cuts[m + 1], lo, hi);
  }

  /** Start of the unbroken stretch: it moves only when a run writes the first marker ever, or
      flags a gap and then writes a marker. */
  function NextBase(b: Bucket, base: nat, run: Run): nat
    requires |run.cuts| > 0
  {
    if AnyTransactions(run.list) && (b.lastSet.None? || GapFlagged(b, run.list)) && run.writes >= 3 then run.cuts[0]
    else base
  }

  lemma FromFront(b: Bucket, base: nat, run: Run)
    requires Named(b) && MarkerCovered(b, base) && Contiguous(run.list, run.cuts) && AnyTransactions(run.list)
    ensures var r := Upload(b, run.list, run.writes);
      Named(r) && MarkerCovered(r, if run.writes >= 3 then run.cuts[0] else base)
  {
    if run.writes >= 3 {
      UploadFresh(b, run.list, run.cuts, run.writes);
    } else if b.lastSet.None? {
      UploadShort(b, run.list, run.writes, 0, 0);
    } else {
      var lo: nat, hi: nat :| lo < hi && b.lastSet.value == Interval(lo, hi) && Covered(b, base, hi);
      UploadShort(b, run.list, run.writes, base, hi);
    }
  }

  lemma FromMarker(b: Bucket, base: nat, run: Run)
    requires Named(b) && MarkerCovered(b, base) && Contiguous(run.list, run.cuts) && AnyTransactions(run.list)
    requires b.lastSet.Some? && !GapFlagged(b, run.list)
    ensures var r := Upload(b, run.list[StartIndex(run.list, MarkerOf(b))..], run.writes);
      Named(r) && MarkerCovered(r, base)
  {
    var lo: nat, hi: nat :| lo < hi && b.lastSet.value == Interval(lo, hi) && Covered(b, base, hi);
    IntervalEmpty(lo, hi);
    var s := StartIndex(run.list, Interval(lo, hi));
    ResumeWithinMarker(run.list, run.cuts, lo, hi);
    ContiguousFrom(run.list, run.cuts, s);
    UploadCovers(b, run.list[s..], run.cuts[s..], run.writes, base, hi);
  }

  lemma FlagKeeps(b: Bucket, base: nat, list: seq<Binlog>)
    requires Named(b) && MarkerCovered(b, base)
    ensures Named(Flagged(b, list)) && MarkerCovered(Flagged(b, list), base)
  {
    if b.lastSet.Some? {
      var lo: nat, hi: nat :| lo < hi && b.lastSet.value == Interval(lo, hi) && Covered(b, base, hi);
      forall x: nat | base <= x < hi ensures StoredWithSet(Flagged(b, list), x) {
        assert StoredWithSet(b, x);
      }
      assert Covered(Flagged(b, list), base, hi);
    }
  }

  lemma CoverageStep(b: Bucket, base: nat, run: Run)
    requires Named(b) && MarkerCovered(b, base) && Contiguous(run.list, run.cuts)
    ensures var r := Collect(b, run.list, run.writes); Named(r) && MarkerCovered(r, NextBase(b, base, run))
  {
    if AnyTransactions(run.list) {
      FlagKeeps(b, base, run.list);
      if b.lastSet.None? || GapFlagged(b, run.list) {
        assert run.list[StartIndex(run.list, MarkerOf(b))..] == run.list;
        FromFront(Flagged(b, run.list), base, run);
      } else {
        FromMarker(b, base, run);
      }
    }
  }

  function AfterRuns(b: Bucket, runs: seq<Run>): Bucket
    decreases |runs|
  {
    if runs == [] then b else AfterRuns(Collect(b, runs[0].list, runs[0].writes), runs[1..])
  }

  function BaseAfter(b: Bucket, base: nat, runs: seq<Run>): nat
    requires forall i :: 0 <= i < |runs| ==> |runs[i].cuts| > 0
    decreases |runs|
  {
    if runs == [] then base
    else BaseAfter(Collect(b, runs[0].list, runs[0].writes), NextBase(b, base, runs[0]), runs[1..])
  }

  ghost predicate HostsContiguous(runs: seq<Run>) {
    forall i :: 0 <= i < |runs| ==> Contiguous(runs[i].list, runs[i].cuts)
  }

  lemma {:induction false} CoverageFrom(b: Bucket, base: nat, runs: seq<Run>)
    requires HostsContiguous(runs) && Named(b) && MarkerCovered(b, base)
    ensures MarkerCovered(AfterRuns(b, runs), BaseAfter(b, base, runs))
    decreases |runs|
  {
    if runs != [] {
      CoverageStep(b, base, runs[0]);
      CoverageFrom(Collect(b, runs[0].list, runs[0].writes), NextBase(b, base, runs[0]), runs[1..]);
    }
  }

  /** Main theorem: from an empty bucket, any runs against any hosts, each dying at any write. */
  lemma CoverageOverRuns(runs: seq<Run>)
    requires HostsContiguous(runs)
    ensures MarkerCovered(AfterRuns(EMPTY_BUCKET, runs), BaseAfter(EMPTY_BUCKET, 0, runs))
  {
    CoverageFrom(EMPTY_BUCKET, 0, runs);
  }

  lemma {:induction false} UploadMarker(b: Bucket, list: seq<Binlog>, writes: nat)
    ensures var r := Upload(b, list, writes);
      r.gaps == b.gaps && (b.lastSet.Some? ==> r.lastSet.Some?)
    decreases |list|
  {
    if list != [] && list[0].gtidSet == {} {
      UploadMarker(b, list[1..], writes);
    } else if list != [] && writes >= 3 {
      UploadMarker(PutAll(b, list[0], writes), list[1..], writes - 3);
    }
  }

  /** Once a marker exists, the covered stretch keeps its start unless a run flags a gap:
      every loss of continuity after the first marker is announced. */
  lemma {:induction false} NoSilentGap(b: Bucket, base: nat, runs: seq<Run>)
    requires HostsContiguous(runs) && b.lastSet.Some?
    ensures AfterRuns(b, runs).gaps >= b.gaps
    ensures AfterRuns(b, runs).gaps == b.gaps ==> BaseAfter(b, base, runs) == base
    decreases |runs|
  {
    if runs != [] {
      var run := runs[0];
      UploadMarker(Flagged(b, run.list), run.list[StartIndex(run.list, MarkerOf(b))..], run.writes);
      NoSilentGap(Collect(b, run.list, run.writes), NextBase(b, base, run), runs[1..]);
    }
  }

  lemma {:induction false} UploadEnds(b: Bucket, list: seq<Binlog>, cuts: seq<nat>, writes: nat)
    requires Contiguous(list, cuts) && writes >= 3 * |list|
    ensures var r := Upload(b, list, writes); var end := cuts[|list|];
      && cuts[0] <= end
      && (cuts[0] == end ==> r.lastSet == b.lastSet)
      && (cuts[0] < end ==> exists lo: nat :: lo < end && r.lastSet == Some(Interval(lo, end)))
    decreases |list|
  {
    if list != [] {
      ContiguousFrom(list, cuts, 1);
      IntervalEmpty(cuts[0], cuts[1]);
      if list[0].gtidSet == {} {
        UploadEnds(b, list[1..], cuts[1..], writes);
      } else {
        UploadEnds(PutAll(b, list[0], writes), list[1..], cuts[1..], writes - 3);
        assert cuts[1..][|list| - 1] == cuts[|list|];
        assert list[0].gtidSet == Interval(cuts[0], cuts[1]);
      }
    }
  }

  /** Where a run that survives leaves the marker: at the end of the host's list. */
  lemma CompleteRunMarker(b: Bucket, run: Run)
    requires Contiguous(run.list, run.cuts) && AnyTransactions(run.list) && run.writes >= 3 * |run.list|
    ensures var r := Collect(b, run.list, run.writes); var end := run.cuts[|run.list|];
      exists lo: nat :: lo < end && r.lastSet == Some(Interval(lo, end))
  {
    var list, cuts := run.list, run.cuts;
    var end, s := cuts[|list|], StartIndex(list, MarkerOf(b));
    ContiguousFrom(list, cuts, s);
    UploadEnds(Flagged(b, list), list[s..], cuts[s..], run.writes);
    assert cuts[s..][|list[s..]|] == end;
    if cuts[s] == end {
      SkippedToEnd(b, list, cuts);
    }
  }

  /** Nothing left to upload means the marker already is the newest non-empty binlog. */
  lemma SkippedToEnd(b: Bucket, list: seq<Binlog>, cuts: seq<nat>)
    requires Contiguous(list, cuts) && AnyTransactions(list)
    requires cuts[StartIndex(list, MarkerOf(b))] == cuts[|list|]
    ensures exists lo: nat :: lo < cuts[|list|] && b.lastSet == Some(Interval(lo, cuts[|list|]))
  {
    var i :| 0 <= i < |list| && list[i].gtidSet != {};
    IntervalEmpty(cuts[i], cuts[i + 1]);
    CutsOrdered(list, cuts, 0, i);
    CutsOrdered(list, cuts, i + 1, |list|);
    var m := NewestNested(list, MarkerOf(b));
    assert m >= 0 && MarkerOf(b) != {};
    IntervalEmpty(cuts[m], cuts[m + 1]);
    CutsOrdered(list, cuts, m + 1, |list|);
    assert list[m].gtidSet == Interval(cuts[m], cuts[m + 1]);
    assert b.lastSet == Some(Interval(cuts[m], cuts[|list|]));
  }

  /** A run that survives leaves the marker at the host's newest transaction, all covered. */
  lemma CompleteRunReachesEnd(b: Bucket, base: nat, run: Run)
    requires Named(b) && MarkerCovered(b, base)
    requires Contiguous(run.list, run.cuts) && AnyTransactions(run.list) && run.writes >= 3 * |run.list|
    ensures var r := Collect(b, run.list, run.writes); var end := run.cuts[|run.list|];
      && (exists lo: nat :: lo < end && r.lastSet == Some(Interval(lo, end)))
      && Covered(r, NextBase(b, base, run), end)
  {
    var r, end := Collect(b, run.list, run.writes), run.cuts[|run.list|];
    CompleteRunMarker(b, run);
    CoverageStep(b, base, run);
    var lo: nat, hi: nat :| lo < hi && r.lastSet.value == Interval(lo, hi) && Covered(r, NextBase(b, base, run), hi);
    var lo': nat :| lo' < end && r.lastSet == Some(Interval(lo', end));
    IntervalsEqual(lo, hi, lo', end);
  }

  lemma {:induction false} CutsOrdered(list: seq<Binlog>, cuts: seq<nat>, i: nat, j: nat)
    requires Contiguous(list, cuts) && i <= j <= |list|
    ensures cuts[i] <= cuts[j]
    decreases j - i
  {
    if i < j {
      CutsOrdered(list, cuts, i, j - 1);
      assert list[j - 1].gtidSet == Interval(cuts[j - 1], cuts[j]);
    }
  }

  /** What a one-binlog run does when the marker does not hold it back. */
  lemma SingleRun(b: Bucket, log: Binlog, writes: nat)
    requires log.gtidSet != {} && b.lastSet.None? && writes <= 3
    ensures Collect(b, [log], writes) == PutAll(b, log, writes)
  {
    assert [log][0].gtidSet != {};
    assert [log][0..] == [log] && [log][1..] == [];
    assert Upload(PutAll(b, log, writes), [], 0) == PutAll(b, log, writes);
  }

  /** The stretch cannot start earlier than the first marker: what a run stored before dying without
      a marker is forgotten, and a later host that no longer has it raises no gap. */
  lemma CrashBeforeFirstMarkerIsForgotten(first: Binlog, later: Binlog)
    requires first.gtidSet == Interval(1, 3) && later.gtidSet == Interval(5, 7)
    ensures var runs := [Run([first], [1, 3], 2), Run([later], [5, 7], 3)];
      HostsContiguous(runs) && var b := AfterRuns(EMPTY_BUCKET, runs);
      b.gaps == 0 && b.lastSet == Some(Interval(5, 7)) && StoredWithSet(b, 1) && !StoredWithSet(b, 3)
  {
    var runs := [Run([first], [1, 3], 2), Run([later], [5, 7], 3)];
    IntervalEmpty(1, 3);
    IntervalEmpty(5, 7);
    SingleRun(EMPTY_BUCKET, first, 2);
    var b1 := PutAll(EMPTY_BUCKET, first, 2);
    SingleRun(b1, later, 3);
    var b2 := PutAll(b1, later, 3);
    assert runs[1..] == [runs[1]] && [runs[1]][1..] == [];
    assert AfterRuns(b1, [runs[1]]) == AfterRuns(b2, []);
    assert AfterRuns(EMPTY_BUCKET, runs) == b2;
    assert KeyOf(first) in b2.binlogs && KeyOf(first) in b2.gtidSets;
  }

  predicate Uploads(run: Run) {
    AnyTransactions(run.list) && run.writes > 0
  }

  /** The first transaction that the runs upload to an empty bucket. */
  function FirstUpload(runs: seq<Run>): nat
    requires forall i :: 0 <= i < |runs| ==> |runs[i].cuts| > 0
  {
    if runs == [] then 0
    else if Uploads(runs[0]) then runs[0].cuts[0]
    else FirstUpload(runs[1..])
  }

  /** The first run that uploads anything gets as far as its first marker. */
  predicate FirstSurvives(runs: seq<Run>) {
    if runs == [] then true
    else if Uploads(runs[0]) then runs[0].writes >= 3
    else FirstSurvives(runs[1..])
  }

  ghost predicate CoveredOrFlagged(runs: seq<Run>)
    requires HostsContiguous(runs)
  {
    var b := AfterRuns(EMPTY_BUCKET, runs);
    b.gaps > 0 || MarkerCovered(b, FirstUpload(runs))
  }

  lemma {:induction false} UploadMarks(b: Bucket, list: seq<Binlog>, writes: nat)
    requires AnyTransactions(list) && writes >= 3
    ensures Upload(b, list, writes).lastSet.Some?
    decreases |list|
  {
    if list[0].gtidSet == {} {
      var i :| 0 <= i < |list| && list[i].gtidSet != {};
      assert list[1..][i - 1] == list[i];
      UploadMarks(b, list[1..], writes);
    } else {
      UploadMarker(PutAll(b, list[0], writes), list[1..], writes - 3);
    }
  }

  /** What the first run leaves of an empty bucket. */
  lemma FirstRun(run: Run)
    ensures var r := Collect(EMPTY_BUCKET, run.list, run.writes);
      && (!Uploads(run) ==> r == EMPTY_BUCKET)
      && (Uploads(run) && run.writes >= 3 ==> r.lastSet.Some? && r.gaps == 0)
  {
    assert run.list[0..] == run.list;
    UploadNothing(EMPTY_BUCKET, run.list);
    if AnyTransactions(run.list) && run.writes >= 3 {
      UploadMarks(EMPTY_BUCKET, run.list, run.writes);
      UploadMarker(EMPTY_BUCKET, run.list, run.writes);
    }
  }

  /** Everything from the first transaction ever uploaded is covered, or a gap was flagged, when the
      first run that uploads survives to its first marker. */
  lemma {:induction false} CoveredFromFirstUpload(runs: seq<Run>)
    requires HostsContiguous(runs) && FirstSurvives(runs)
    ensures CoveredOrFlagged(runs)
    decreases |runs|
  {
    if runs != [] {
      var run := runs[0];
      FirstRun(run);
      if Uploads(run) {
        var b := Collect(EMPTY_BUCKET, run.list, run.writes);
        CoverageStep(EMPTY_BUCKET, 0, run);
        CoverageFrom(b, run.cuts[0], runs[1..]);
        NoSilentGap(b, run.cuts[0], runs[1..]);
      } else {
        CoveredFromFirstUpload(runs[1..]);
      }
    }
  }

  // Runs that die before the first marker

  /** No run in the sequence reaches a marker. */
  predicate NoMarker(runs: seq<Run>) {
    forall i :: 0 <= i < |runs| ==> !Uploads(runs[i]) || runs[i].writes < 3
  }

  /** The transactions of the first binlog that has any. */
  function FirstSet(list: seq<Binlog>): GtidSet {
    if list == [] then {} else if list[0].gtidSet != {} then list[0].gtidSet else FirstSet(list[1..])
  }

  /** Some run died after exactly two writes, with this transaction in the binlog it was at. */
  ghost predicate InTwoWrites(runs: seq<Run>, x: nat) {
    exists i :: 0 <= i < |runs| && runs[i].writes == 2 && x in FirstSet(runs[i].list)
  }

  /** No marker, no gap, and every set has its binlog. */
  ghost predicate Unmarked(b: Bucket) {
    b.lastSet.None? && b.gaps == 0 && Named(b) && b.gtidSets.Keys <= b.binlogs.Keys
  }

  lemma StoredByDigest(b: Bucket, x: nat)
    requires Named(b) && b.gtidSets.Keys <= b.binlogs.Keys
    ensures StoredWithSet(b, x) <==> exists k :: k in b.gtidSets && x in k.digest
  {
    if k :| k in b.gtidSets && x in k.digest {
      assert k in b.binlogs && x in b.binlogs[k] && x in b.gtidSets[k];
    }
  }

  /** What up to two writes of one binlog add. */
  lemma PutAdds(b: Bucket, log: Binlog, writes: nat, x: nat)
    requires Named(b) && b.gtidSets.Keys <= b.binlogs.Keys
    ensures var r := PutAll(b, log, writes);
      && Named(r) && r.gtidSets.Keys <= r.binlogs.Keys
      && (StoredWithSet(r, x) <==> StoredWithSet(b, x) || (writes >= 2 && x in log.gtidSet))
  {
    var r := PutAll(b, log, writes);
    StoredByDigest(b, x);
    StoredByDigest(r, x);
    if writes >= 2 {
      assert KeyOf(log) in r.gtidSets && KeyOf(log).digest == log.gtidSet;
    }
    forall k | k in b.gtidSets ensures k in r.gtidSets {
    }
  }

  lemma {:induction false} ShortUploadAdds(b: Bucket, list: seq<Binlog>, writes: nat, x: nat)
    requires Unmarked(b) && writes < 3
    ensures var r := Upload(b, list, writes);
      Unmarked(r) && (StoredWithSet(r, x) <==> StoredWithSet(b, x) || (writes == 2 && x in FirstSet(list)))
    decreases |list|
  {
    if list != [] {
      if list[0].gtidSet == {} {
        ShortUploadAdds(b, list[1..], writes, x);
      } else {
        PutAdds(b, list[0], writes, x);
      }
    }
  }

  lemma {:induction false} NothingFirst(list: seq<Binlog>)
    requires !AnyTransactions(list)
    ensures FirstSet(list) == {}
  {
    if list != [] {
      assert list[0].gtidSet == {};
      assert forall i :: 0 <= i < |list[1..]| ==> list[1..][i] == list[i + 1];
      NothingFirst(list[1..]);
    }
  }

  lemma EarlyRunAdds(b: Bucket, run: Run, x: nat)
    requires Unmarked(b) && (!Uploads(run) || run.writes < 3)
    ensures var r := Collect(b, run.list, run.writes);
      Unmarked(r) && (StoredWithSet(r, x) <==> StoredWithSet(b, x) || (run.writes == 2 && x in FirstSet(run.list)))
  {
    if AnyTransactions(run.list) {
      assert run.list[0..] == run.list;
      ShortUploadAdds(b, run.list, run.writes, x);
    } else {
      NothingFirst(run.list);
    }
  }

  lemma {:induction false} EarlyRunsAdd(b: Bucket, runs: seq<Run>, x: nat)
    requires Unmarked(b) && NoMarker(runs)
    ensures var r := AfterRuns(b, runs);
      Unmarked(r) && (StoredWithSet(r, x) <==> StoredWithSet(b, x) || InTwoWrites(runs, x))
    decreases |runs|
  {
    if runs != [] {
      var rest := runs[1..];
      EarlyRunAdds(b, runs[0], x);
      EarlyRunsAdd(Collect(b, runs[0].list, runs[0].writes), rest, x);
      if InTwoWrites(runs, x) {
        var i :| 0 <= i < |runs| && runs[i].writes == 2 && x in FirstSet(runs[i].list);
        assert i > 0 ==> rest[i - 1] == runs[i];
      }
      if InTwoWrites(rest, x) {
        var i :| 0 <= i < |rest| && rest[i].writes == 2 && x in FirstSet(rest[i].list);
        assert runs[i + 1] == rest[i];
      }
    }
  }

  /** A run adds nothing from before its host's first transaction. */
  lemma {:induction false} UploadBounded(b: Bucket, list: seq<Binlog>, cuts: seq<nat>, writes: nat, x: nat)
    requires Named(b) && b.gtidSets.Keys <= b.binlogs.Keys && Contiguous(list, cuts) && x < cuts[0]
    ensures StoredWithSet(Upload(b, list, writes), x) <==> StoredWithSet(b, x)
    decreases |list|
  {
    if list != [] {
      ContiguousFrom(list, cuts, 1);
      if list[0].gtidSet == {} {
        UploadBounded(b, list[1..], cuts[1..], writes, x);
      } else {
        assert list[0].gtidSet == Interval(cuts[0], cuts[1]) && x !in list[0].gtidSet;
        PutAdds(b, list[0], writes, x);
        if writes >= 3 {
          UploadBounded(PutAll(b, list[0], writes), list[1..], cuts[1..], writes - 3, x);
        }
      }
    }
  }

  lemma {:induction false} AfterRunsThen(b: Bucket, runs: seq<Run>, more: seq<Run>)
    ensures AfterRuns(b, runs + more) == AfterRuns(AfterRuns(b, runs), more)
    decreases |runs|
  {
    if runs == [] {
      assert runs + more == more;
    } else {
      assert (runs + more)[1..] == runs[1..] + more;
      AfterRunsThen(Collect(b, runs[0].list, runs[0].writes), runs[1..], more);
    }
  }

  /** The first marker: written by the last run, from its host's first transaction on. */
  lemma FirstMarker(b: Bucket, last: Run) returns (hi: nat)
    requires Unmarked(b) && Contiguous(last.list, last.cuts) && Uploads(last) && last.writes >= 3
    ensures var r := Collect(b, last.list, last.writes);
      && r.gaps == 0 && Covered(r, last.cuts[0], hi) && last.cuts[0] <= hi
      && (exists lo: nat :: lo < hi && r.lastSet == Some(Interval(lo, hi)))
      && (forall x: nat :: x < last.cuts[0] ==> (StoredWithSet(r, x) <==> StoredWithSet(b, x)))
  {
    var r := Collect(b, last.list, last.writes);
    assert last.list[0..] == last.list;
    CoverageStep(b, 0, last);
    UploadMarks(b, last.list, last.writes);
    UploadMarker(b, last.list, last.writes);
    forall x: nat | x < last.cuts[0] ensures StoredWithSet(r, x) <==> StoredWithSet(b, x) {
      UploadBounded(b, last.list, last.cuts, last.writes, x);
    }
    var lo: nat, end: nat :| lo < end && r.lastSet.value == Interval(lo, end) && Covered(r, last.cuts[0], end);
    hi := end;
    MarkerAbove(b, last.list, last.cuts, last.writes);
    var lo': nat, end': nat :| last.cuts[0] <= lo' < end' && r.lastSet == Some(Interval(lo', end'));
    IntervalsEqual(lo, end, lo', end');
  }

  lemma {:induction false} MarkerAbove(b: Bucket, list: seq<Binlog>, cuts: seq<nat>, writes: nat)
    requires Contiguous(list, cuts) && AnyTransactions(list) && writes >= 3
    ensures exists lo: nat, hi: nat :: cuts[0] <= lo < hi && Upload(b, list, writes).lastSet == Some(Interval(lo, hi))
    decreases |list|
  {
    ContiguousFrom(list, cuts, 1);
    IntervalEmpty(cuts[0], cuts[1]);
    if list[0].gtidSet == {} {
      var i :| 0 <= i < |list| && list[i].gtidSet != {};
      assert list[1..][i - 1] == list[i];
      MarkerAbove(b, list[1..], cuts[1..], writes);
    } else {
      var r := PutAll(b, list[0], writes);
      assert r.lastSet == Some(Interval(cuts[0], cuts[1]));
      MarkerStaysAbove(r, list[1..], cuts[1..], writes - 3, cuts[0]);
    }
  }

  lemma {:induction false} MarkerStaysAbove(b: Bucket, list: seq<Binlog>, cuts: seq<nat>, writes: nat, from: nat)
    requires Contiguous(list, cuts) && from <= cuts[0]
    requires exists lo: nat, hi: nat :: from <= lo < hi && b.lastSet == Some(Interval(lo, hi))
    ensures exists lo: nat, hi: nat :: from <= lo < hi && Upload(b, list, writes).lastSet == Some(Interval(lo, hi))
    decreases |list|
  {
    if list != [] {
      ContiguousFrom(list, cuts, 1);
      IntervalEmpty(cuts[0], cuts[1]);
      if list[0].gtidSet == {} {
        MarkerStaysAbove(b, list[1..], cuts[1..], writes, from);
      } else if writes >= 3 {
        var r := PutAll(b, list[0], writes);
        assert r.lastSet == Some(Interval(cuts[0], cuts[1]));
        MarkerStaysAbove(r, list[1..], cuts[1..], writes - 3, from);
      }
    }
  }

  /** Up to and including the run that writes the first marker: everything from the first transaction
      ever uploaded is covered exactly when whatever that run's host no longer has was in the binlog at
      which some earlier run died after two writes. */
  lemma FirstMarkerCoveredExactlyWhen(early: seq<Run>, last: Run)
    requires HostsContiguous(early + [last]) && NoMarker(early)
    requires Contiguous(last.list, last.cuts) && Uploads(last) && last.writes >= 3
    ensures CoveredOrFlagged(early + [last])
      <==> forall x: nat :: FirstUpload(early + [last]) <= x < last.cuts[0] ==> InTwoWrites(early, x)
  {
    var runs := early + [last];
    var b := AfterRuns(EMPTY_BUCKET, early);
    AfterRunsThen(EMPTY_BUCKET, early, [last]);
    assert [last][1..] == [] && runs[|early|] == last;
    assert AfterRuns(b, [last]) == AfterRuns(Collect(b, last.list, last.writes), []);
    forall x: nat ensures Unmarked(b) && (StoredWithSet(b, x) <==> InTwoWrites(early, x)) {
      EarlyRunsAdd(EMPTY_BUCKET, early, x);
    }
    assert Unmarked(b) by { EarlyRunsAdd(EMPTY_BUCKET, early, 0); }
    var hi := FirstMarker(b, last);
    MarkerCoveredFrom(AfterRuns(EMPTY_BUCKET, runs), FirstUpload(runs), last.cuts[0], hi);
  }

  lemma MarkerCoveredFrom(r: Bucket, from: nat, c: nat, hi: nat)
    requires Covered(r, c, hi) && c <= hi && exists lo: nat :: lo < hi && r.lastSet == Some(Interval(lo, hi))
    ensures MarkerCovered(r, from) <==> forall x: nat :: from <= x < c ==> StoredWithSet(r, x)
  {
    var lo: nat :| lo < hi && r.lastSet == Some(Interval(lo, hi));
    forall lo': nat, hi': nat | lo' < hi' && r.lastSet.value == Interval(lo', hi') ensures hi' == hi {
      IntervalsEqual(lo', hi', lo, hi);
    }
    if forall x: nat :: from <= x < c ==> StoredWithSet(r, x) {
      assert Covered(r, from, hi);
    }
  }

  /** And then it stays covered, or a gap is flagged, whatever runs follow. */
  lemma CoveredOnwards(runs: seq<Run>, later: seq<Run>)
    requires HostsContiguous(runs + later) && HostsContiguous(runs) && CoveredOrFlagged(runs)
    requires AfterRuns(EMPTY_BUCKET, runs).lastSet.Some? && exists i :: 0 <= i < |runs| && Uploads(runs[i])
    ensures CoveredOrFlagged(runs + later)
  {
    var b := AfterRuns(EMPTY_BUCKET, runs);
    AfterRunsThen(EMPTY_BUCKET, runs, later);
    FirstUploadStays(runs, later);
    assert HostsContiguous(later) by {
      assert forall i :: 0 <= i < |later| ==> later[i] == (runs + later)[|runs| + i];
    }
    NoSilentGap(b, FirstUpload(runs), later);
    RunsStayNamed(EMPTY_BUCKET, runs);
    if b.gaps == 0 {
      CoverageFrom(b, FirstUpload(runs), later);
    }
  }

  lemma {:induction false} RunsStayNamed(b: Bucket, runs: seq<Run>)
    requires HostsContiguous(runs) && Named(b)
    ensures Named(AfterRuns(b, runs))
    decreases |runs|
  {
    if runs != [] {
      UploadStaysNamed(Flagged(b, runs[0].list), runs[0].list[StartIndex(runs[0].list, MarkerOf(b))..], runs[0].writes);
      RunsStayNamed(Collect(b, runs[0].list, runs[0].writes), runs[1..]);
    }
  }

  lemma {:induction false} UploadStaysNamed(b: Bucket, list: seq<Binlog>, writes: nat)
    requires Named(b)
    ensures Named(Upload(b, list, writes))
    decreases |list|
  {
    if list != [] && list[0].gtidSet == {} {
      UploadStaysNamed(b, list[1..], writes);
    } else if list != [] && writes >= 3 {
      UploadStaysNamed(PutAll(b, list[0], writes), list[1..], writes - 3);
    }
  }

  lemma {:induction false} FirstUploadStays(runs: seq<Run>, later: seq<Run>)
    requires HostsContiguous(runs + later) && HostsContiguous(runs) && exists i :: 0 <= i < |runs| && Uploads(runs[i])
    ensures FirstUpload(runs + later) == FirstUpload(runs)
    decreases |runs|
  {
    assert (runs + later)[1..] == runs[1..] + later && (runs + later)[0] == runs[0];
    if !Uploads(runs[0]) {
      var i :| 0 <= i < |runs| && Uploads(runs[i]);
      assert runs[1..][i - 1] == runs[i];
      FirstUploadStays(runs[1..], later);
    }
  }
}
