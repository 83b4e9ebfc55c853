/** What a recovery replays, for every backup position and every target. */
module RecoveryExactness {
  import opened Options
  import opened Gtid
  import opened Collector
  import opened Recoverer

  function Replayed(st: GtidObjects, names: seq<ObjectName>): GtidSet
    requires forall n :: n in names ==> n in st
  {
    if names == [] then {} else Replayed(st, names[..|names| - 1]) + Denote(st[names[|names| - 1]])
  }

  /** The transactions of the database after restoring the backup and replaying the selection. A date
      recovery stops before its end; what it leaves is in module DateRecovery. */
  function Recovered(st: GtidObjects, req: Request, sel: Selection): GtidSet
    requires (forall n :: n in sel.names ==> n in st) && !req.kind.Date?
  {
    req.start + (Replayed(st, sel.names) - Excluded(req, sel))
  }

  /** What the replay is told to leave out, by the kind of recovery. */
  function Excluded(req: Request, sel: Selection): GtidSet
    requires !req.kind.Date?
  {
    match req.kind
    case Transaction => DenoteExclude(sel.exclude)
    case Skip => {req.target}
    case Latest => {}
  }

  /** Every stored set is one non-empty interval. */
  ghost predicate SingleSpans(st: GtidObjects, names: seq<ObjectName>) {
    forall n :: n in names ==> n in st && |st[n]| == 1 && st[n][0].first <= st[n][0].last
  }

  /** Stored binlogs follow each other without hole or overlap, at the given cut points. */
  ghost predicate Chain(st: GtidObjects, names: seq<ObjectName>, cuts: seq<nat>) {
    && |cuts| == |names| + 1
    && forall i :: 0 <= i < |names| ==>
         cuts[i] < cuts[i + 1] && names[i] in st && st[names[i]] == [Span(cuts[i], cuts[i + 1] - 1)]
  }

  ghost predicate LastsMonotone(st: GtidObjects, names: seq<ObjectName>)
    requires SingleSpans(st, names)
  {
    forall i, j :: 0 <= i < j < |names| ==> st[names[i]][0].last <= st[names[j]][0].last
  }

  lemma ChainAt(st: GtidObjects, names: seq<ObjectName>, cuts: seq<nat>, i: nat)
    requires Chain(st, names, cuts) && i < |names|
    ensures names[i] in st && cuts[i] < cuts[i + 1] && st[names[i]] == [Span(cuts[i], cuts[i + 1] - 1)]
    ensures Denote(st[names[i]]) == Interval(cuts[i], cuts[i + 1])
  {
    var n := names[i];
    assert cuts[i] < cuts[i + 1] && st[n] == [Span(cuts[i], cuts[i + 1] - 1)];
    SpanDenotes(st[n]);
  }

  lemma SpanDenotes(g: GtidText)
    requires |g| == 1
    ensures Denote(g) == Interval(g[0].first, g[0].last + 1)
  {
    assert Denote(g[1..]) == {};
  }

  lemma {:induction false} ReplayedHas(st: GtidObjects, names: seq<ObjectName>, x: nat)
    requires forall n :: n in names ==> n in st
    ensures x in Replayed(st, names) <==> exists i :: 0 <= i < |names| && x in Denote(st[names[i]])
    decreases |names|
  {
    if names != [] {
      var k := |names| - 1;
      var front := names[..k];
      ReplayedHas(st, front, x);
      FrontAt(names);
      if x in Replayed(st, front) {
        var i :| 0 <= i < |front| && x in Denote(st[front[i]]);
        assert x in Denote(st[names[i]]);
      }
      if i :| 0 <= i < k && x in Denote(st[names[i]]) {
        assert x in Denote(st[front[i]]);
      }
    }
  }

  /** The newest binlog that overlaps the backup, or the oldest one when none does. */
  function NewestOverlap(st: GtidObjects, start: GtidSet, names: seq<ObjectName>): (j: nat)
    requires forall n :: n in names ==> n in st
    ensures j < |names| || (j == 0 && names == [])
  {
    if names == [] then 0
    else if !(start !! Denote(st[names[|names| - 1]])) then |names| - 1
    else NewestOverlap(st, start, names[..|names| - 1])
  }

  lemma {:induction false} NewestOverlaps(st: GtidObjects, start: GtidSet, names: seq<ObjectName>)
    requires forall n :: n in names ==> n in st
    ensures var j := NewestOverlap(st, start, names);
      && (j > 0 ==> !(start !! Denote(st[names[j]])))
      && forall i :: j < i < |names| ==> start !! Denote(st[names[i]])
    decreases |names|
  {
    if names != [] && start !! Denote(st[names[|names| - 1]]) {
      NewestOverlaps(st, start, names[..|names| - 1]);
      FrontAt(names);
    }
  }

  lemma FrontAt(names: seq<ObjectName>)
    requires names != []
    ensures forall i :: 0 <= i < |names| - 1 ==> names[..|names| - 1][i] == names[i]
  {
  }

  /** With no transaction to look for, the walk keeps exactly the suffix that starts there. */
  lemma {:induction false} SuffixFromNewestOverlap(st: GtidObjects, req: Request, names: seq<ObjectName>)
    requires (forall n :: n in names ==> n in st) && !req.kind.Transaction?
    ensures Select(st, req, names, None) == Selection(names[NewestOverlap(st, req.start, names)..], None)
    decreases |names|
  {
    if names != [] {
      var k := |names| - 1;
      if req.start !! Denote(st[names[k]]) {
        SuffixFromNewestOverlap(st, req, names[..k]);
        SuffixSnoc(names, NewestOverlap(st, req.start, names[..k]));
      } else {
        assert names[k..] == [names[k]];
      }
    }
  }

  /** Transactions that recovery should bring back and that only binlogs before j hold. */
  ghost predicate LosesBefore(st: GtidObjects, names: seq<ObjectName>, j: nat, unwanted: GtidSet)
    requires (forall n :: n in names ==> n in st) && j <= |names|
  {
    exists i, x: nat :: (0 <= i < j && x in Denote(st[names[i]]) && x !in unwanted
      && forall k :: j <= k < |names| ==> x !in Denote(st[names[k]]))
  }

  /** Latest and skip recovery bring back everything stored exactly when no binlog older than the
      newest overlap holds a transaction, beyond the backup and not skipped, that the later ones lack. */
  lemma LatestCompleteExactlyWhen(st: GtidObjects, req: Request, names: seq<ObjectName>)
    requires (forall n :: n in names ==> n in st) && (req.kind.Latest? || req.kind.Skip?)
    ensures var sel := Select(st, req, names, None); var j := NewestOverlap(st, req.start, names);
      Recovered(st, req, sel) == req.start + (Replayed(st, names) - Excluded(req, sel))
      <==> !LosesBefore(st, names, j, req.start + Excluded(req, sel))
  {
    var sel, j := Select(st, req, names, None), NewestOverlap(st, req.start, names);
    SuffixFromNewestOverlap(st, req, names);
    SuffixReplays(st, names, j);
    var unwanted := req.start + Excluded(req, sel);
    if LosesBefore(st, names, j, unwanted) {
      var x := LostBySuffix(st, names, j, unwanted);
      assert x in req.start + (Replayed(st, names) - Excluded(req, sel)) && x !in Recovered(st, req, sel);
    } else {
      forall x | x in Replayed(st, names) && x !in unwanted ensures x in Replayed(st, names[j..]) {
        KeptBySuffix(st, names, j, unwanted, x);
      }
    }
  }

  lemma LostBySuffix(st: GtidObjects, names: seq<ObjectName>, j: nat, unwanted: GtidSet) returns (x: nat)
    requires (forall n :: n in names ==> n in st) && j <= |names| && LosesBefore(st, names, j, unwanted)
    ensures x in Replayed(st, names) && x !in unwanted && x !in Replayed(st, names[j..])
  {
    var i;
    i, x :| (0 <= i < j && x in Denote(st[names[i]]) && x !in unwanted
      && forall k :: j <= k < |names| ==> x !in Denote(st[names[k]]));
    ReplayedHas(st, names, x);
    NotReplayed(st, names, j, x);
  }

  lemma KeptBySuffix(st: GtidObjects, names: seq<ObjectName>, j: nat, unwanted: GtidSet, x: nat)
    requires (forall n :: n in names ==> n in st) && j <= |names| && !LosesBefore(st, names, j, unwanted)
    requires x in Replayed(st, names) && x !in unwanted
    ensures x in Replayed(st, names[j..])
  {
    ReplayedHas(st, names, x);
    ReplayedHas(st, names[j..], x);
    var i :| 0 <= i < |names| && x in Denote(st[names[i]]);
    if i < j {
      var k :| j <= k < |names| && x in Denote(st[names[k]]);
      assert names[j..][k - j] == names[k];
    } else {
      assert names[j..][i - j] == names[i];
    }
  }

  /** The last transaction of any of the binlogs. */
  function EndOf(st: GtidObjects, names: seq<ObjectName>): nat
    requires SingleSpans(st, names)
  {
    if names == [] then 0
    else
      var last, end := st[names[|names| - 1]][0].last, EndOf(st, names[..|names| - 1]);
      if last > end then last else end
  }

  lemma {:induction false} EndBounds(st: GtidObjects, names: seq<ObjectName>)
    requires SingleSpans(st, names)
    ensures forall i :: 0 <= i < |names| ==> st[names[i]][0].last <= EndOf(st, names)
    decreases |names|
  {
    if names != [] {
      EndBounds(st, names[..|names| - 1]);
      FrontAt(names);
    }
  }

  /** Where the binlogs from the newest overlap on leave no hole after the backup, latest recovery is
      complete exactly when no older binlog ends after them all. */
  lemma LatestCompleteWithoutHoles(st: GtidObjects, req: Request, names: seq<ObjectName>, s: nat)
    requires SingleSpans(st, names) && req.kind.Latest? && req.start == Interval(1, s + 1)
    requires var late := names[NewestOverlap(st, req.start, names)..];
      SingleSpans(st, late) && forall x: nat :: s < x <= EndOf(st, late) ==> x in Replayed(st, late)
    requires forall n :: n in names ==> st[n][0].first >= 1
    ensures var sel := Select(st, req, names, None); var j := NewestOverlap(st, req.start, names);
      Recovered(st, req, sel) == req.start + Replayed(st, names)
      <==> forall i :: 0 <= i < j ==> st[names[i]][0].last <= s || st[names[i]][0].last <= EndOf(st, names[j..])
  {
    var j := NewestOverlap(st, req.start, names);
    LatestCompleteExactlyWhen(st, req, names);
    assert req.start + {} == req.start;
    LosesBeyondEnd(st, names, s, j);
  }

  lemma LosesBeyondEnd(st: GtidObjects, names: seq<ObjectName>, s: nat, j: nat)
    requires SingleSpans(st, names) && j <= |names| && SingleSpans(st, names[j..])
    requires forall x: nat :: s < x <= EndOf(st, names[j..]) ==> x in Replayed(st, names[j..])
    requires forall n :: n in names ==> st[n][0].first >= 1
    ensures LosesBefore(st, names, j, Interval(1, s + 1))
      <==> exists i :: 0 <= i < j && st[names[i]][0].last > s && st[names[i]][0].last > EndOf(st, names[j..])
  {
    var late := names[j..];
    if i :| 0 <= i < j && st[names[i]][0].last > s && st[names[i]][0].last > EndOf(st, late) {
      var x := st[names[i]][0].last;
      assert names[i] in names;
      SpanDenotes(st[names[i]]);
      EndBounds(st, late);
      forall k | j <= k < |names| ensures x !in Denote(st[names[k]]) {
        assert late[k - j] == names[k] && names[k] in names;
        SpanDenotes(st[names[k]]);
      }
      assert x in Denote(st[names[i]]) && x !in Interval(1, s + 1);
      assert LosesBefore(st, names, j, Interval(1, s + 1));
    }
    if LosesBefore(st, names, j, Interval(1, s + 1)) {
      var i, x: nat :| (0 <= i < j && x in Denote(st[names[i]]) && x !in Interval(1, s + 1)
        && forall k :: j <= k < |names| ==> x !in Denote(st[names[k]]));
      assert names[i] in names;
      SpanDenotes(st[names[i]]);
      NotReplayed(st, names, j, x);
      assert st[names[i]][0].last >= x > s && x > EndOf(st, late);
    }
  }

  lemma NotReplayed(st: GtidObjects, names: seq<ObjectName>, j: nat, x: nat)
    requires (forall n :: n in names ==> n in st) && j <= |names|
    requires forall k :: j <= k < |names| ==> x !in Denote(st[names[k]])
    ensures x !in Replayed(st, names[j..])
  {
    ReplayedHas(st, names[j..], x);
    assert forall k :: 0 <= k < |names[j..]| ==> names[j..][k] == names[j + k];
  }

  /** When later-listed binlogs never end earlier than older ones, nothing is lost. */
  lemma LatestIsComplete(st: GtidObjects, req: Request, names: seq<ObjectName>, s: nat)
    requires SingleSpans(st, names) && LastsMonotone(st, names)
    requires (req.kind.Latest? || req.kind.Skip?) && s >= 1 && req.start == Interval(1, s + 1)
    requires forall n :: n in names ==> st[n][0].first >= 1
    ensures var sel := Select(st, req, names, None);
      Recovered(st, req, sel) == req.start + (Replayed(st, names) - Excluded(req, sel))
  {
    LatestCompleteExactlyWhen(st, req, names);
    MonotoneLosesNothing(st, req.start, names, s, Excluded(req, Select(st, req, names, None)));
  }

  lemma MonotoneLosesNothing(st: GtidObjects, start: GtidSet, names: seq<ObjectName>, s: nat, excluded: GtidSet)
    requires SingleSpans(st, names) && LastsMonotone(st, names) && start == Interval(1, s + 1)
    requires forall n :: n in names ==> st[n][0].first >= 1
    ensures !LosesBefore(st, names, NewestOverlap(st, start, names), start + excluded)
  {
    var j := NewestOverlap(st, start, names);
    NewestOverlaps(st, start, names);
    forall i, x: nat | 0 <= i < j && x in Denote(st[names[i]]) && x !in start + excluded
      ensures j < |names| && x in Denote(st[names[j]])
    {
      SpanDenotes(st[names[i]]);
      SpanDenotes(st[names[j]]);
      var y :| y in start && y in Denote(st[names[j]]);
    }
  }

  lemma SuffixReplays(st: GtidObjects, names: seq<ObjectName>, j: nat)
    requires (forall n :: n in names ==> n in st) && j <= |names|
    ensures Replayed(st, names[j..]) <= Replayed(st, names)
  {
    forall x | x in Replayed(st, names[j..]) ensures x in Replayed(st, names) {
      ReplayedHas(st, names, x);
      ReplayedHas(st, names[j..], x);
      var i :| 0 <= i < |names[j..]| && x in Denote(st[names[j..][i]]);
      assert names[j + i] == names[j..][i];
    }
  }

  lemma ChainFront(st: GtidObjects, names: seq<ObjectName>, cuts: seq<nat>)
    requires Chain(st, names, cuts) && names != []
    ensures Chain(st, names[..|names| - 1], cuts[..|names|])
  {
    var front := names[..|names| - 1];
    assert forall i :: 0 <= i < |front| ==> front[i] == names[i];
  }

  lemma IntervalsJoin(a: nat, b: nat, c: nat)
    requires a <= b <= c
    ensures Interval(a, b) + Interval(b, c) == Interval(a, c)
  {
  }

  lemma {:induction false} ChainReplays(st: GtidObjects, names: seq<ObjectName>, cuts: seq<nat>)
    requires Chain(st, names, cuts)
    ensures forall n :: n in names ==> n in st
    ensures cuts[0] <= cuts[|names|] && Replayed(st, names) == Interval(cuts[0], cuts[|names|])
    decreases |names|
  {
    if names != [] {
      var k := |names| - 1;
      ChainFront(st, names, cuts);
      ChainReplays(st, names[..k], cuts[..k + 1]);
      ChainAt(st, names, cuts, k);
      assert names == names[..k] + [names[k]];
      IntervalsJoin(cuts[0], cuts[k], cuts[k + 1]);
    } else {
      IntervalEmpty(cuts[0], cuts[0]);
    }
  }

  lemma ChainPart(st: GtidObjects, names: seq<ObjectName>, cuts: seq<nat>, lo: nat, hi: nat)
    requires Chain(st, names, cuts) && lo <= hi <= |names|
    ensures Chain(st, names[lo..hi], cuts[lo..hi + 1])
  {
    assert forall i :: 0 <= i < hi - lo ==> names[lo..hi][i] == names[lo + i];
  }

  /** Newer binlogs without the target are passed over. */
  lemma {:induction false} SkipsNewer(st: GtidObjects, req: Request, names: seq<ObjectName>, k: nat)
    requires forall n :: n in names ==> n in st
    requires req.kind.Transaction? && k <= |names|
    requires forall i :: k <= i < |names| ==> req.target !in Denote(st[names[i]])
    ensures Select(st, req, names, None) == Select(st, req, names[..k], None)
    decreases |names|
  {
    if k < |names| {
      var top := |names| - 1;
      assert names[..top][..k] == names[..k];
      assert forall i :: 0 <= i < top ==> names[..top][i] == names[i];
      SkipsNewer(st, req, names[..top], k);
    } else {
      assert names[..k] == names;
    }
  }

  lemma {:induction false} CutsIncrease(st: GtidObjects, names: seq<ObjectName>, cuts: seq<nat>, i: nat, j: nat)
    requires Chain(st, names, cuts) && i <= j <= |names|
    ensures cuts[i] <= cuts[j] && (i < j ==> cuts[i] < cuts[j])
    decreases j - i
  {
    if i < j {
      CutsIncrease(st, names, cuts, i, j - 1);
      assert names[j - 1] in st;
    }
  }

  lemma {:induction false} BinlogOf(st: GtidObjects, names: seq<ObjectName>, cuts: seq<nat>, t: nat) returns (k: nat)
    requires Chain(st, names, cuts) && cuts[0] <= t < cuts[|names|]
    ensures k < |names| && cuts[k] <= t < cuts[k + 1]
    decreases |names|
  {
    var top := |names| - 1;
    if cuts[top] <= t {
      k := top;
    } else {
      ChainPart(st, names, cuts, 0, top);
      k := BinlogOf(st, names[..top], cuts[..top + 1], t);
    }
  }

  lemma TargetOnlyAt(st: GtidObjects, names: seq<ObjectName>, cuts: seq<nat>, t: nat, k: nat, i: nat)
    requires Chain(st, names, cuts) && k < |names| && cuts[k] <= t < cuts[k + 1] && i < |names|
    ensures names[i] in st && (t in Denote(st[names[i]]) <==> i == k)
  {
    ChainAt(st, names, cuts, i);
    if i < k { CutsIncrease(st, names, cuts, i + 1, k); }
    if i > k { CutsIncrease(st, names, cuts, k + 1, i); }
  }

  /** Where the walk stops is at or before the end of the backup, plus one. */
  lemma OverlapStartsEarly(st: GtidObjects, names: seq<ObjectName>, cuts: seq<nat>, s: nat, j: nat)
    requires Chain(st, names, cuts) && cuts[0] <= s + 1 && j < |names|
    requires j > 0 ==> !(Interval(1, s + 1) !! Denote(st[names[j]]))
    ensures cuts[j] <= s + 1
  {
    if j > 0 {
      ChainAt(st, names, cuts, j);
      var x :| x in Interval(1, s + 1) && x in Denote(st[names[j]]);
    }
  }

  lemma Slices(names: seq<ObjectName>, j: nat, k: nat)
    requires j <= k < |names|
    ensures names[..k] + [names[k]] == names[..k + 1]
    ensures names[..k + 1][j..] == names[j..k + 1] && names[..k + 1][j] == names[j]
  {
  }

  lemma SuffixSnoc(names: seq<ObjectName>, j: nat)
    requires names != [] && j < |names|
    ensures names[..|names| - 1][j..] + [names[|names| - 1]] == names[j..]
    ensures forall i :: 0 <= i < |names| - 1 ==> names[..|names| - 1][i] == names[i]
  {
  }

  /** The newest binlog that holds a transaction, or -1. */
  function NewestHolder(st: GtidObjects, t: nat, names: seq<ObjectName>): (k: int)
    requires forall n :: n in names ==> n in st
    ensures -1 <= k < |names|
  {
    if names == [] then -1
    else if t in Denote(st[names[|names| - 1]]) then |names| - 1
    else NewestHolder(st, t, names[..|names| - 1])
  }

  lemma {:induction false} NewestHolds(st: GtidObjects, t: nat, names: seq<ObjectName>)
    requires forall n :: n in names ==> n in st
    ensures var k := NewestHolder(st, t, names);
      && (k >= 0 ==> t in Denote(st[names[k]]))
      && forall i :: k < i < |names| ==> t !in Denote(st[names[i]])
    decreases |names|
  {
    if names != [] && t !in Denote(st[names[|names| - 1]]) {
      NewestHolds(st, t, names[..|names| - 1]);
      FrontAt(names);
    }
  }

  /** The oldest binlog that holds a transaction, or -1. */
  function OldestHolder(st: GtidObjects, t: nat, names: seq<ObjectName>): (o: int)
    requires forall n :: n in names ==> n in st
    ensures -1 <= o < |names| && (o >= 0 ==> t in Denote(st[names[o]]))
  {
    if names == [] then -1
    else
      var k := |names| - 1;
      var o := OldestHolder(st, t, names[..k]);
      if o >= 0 then o else if t in Denote(st[names[k]]) then k else -1
  }

  lemma {:induction false} OldestHolds(st: GtidObjects, t: nat, names: seq<ObjectName>)
    requires forall n :: n in names ==> n in st
    ensures var o := OldestHolder(st, t, names);
      forall i :: 0 <= i < (if o < 0 then |names| else o) ==> t !in Denote(st[names[i]])
    decreases |names|
  {
    if names != [] {
      OldestHolds(st, t, names[..|names| - 1]);
      FrontAt(names);
    }
  }

  lemma OldestOfSnoc(st: GtidObjects, t: nat, names: seq<ObjectName>, last: ObjectName)
    requires (forall n :: n in names ==> n in st) && last in st
    ensures var o := OldestHolder(st, t, names);
      OldestHolder(st, t, names + [last]) == if o >= 0 then o else if t in Denote(st[last]) then |names| else -1
  {
    assert (names + [last])[..|names|] == names;
  }

  /** The exclude set after a walk over these binlogs: from the oldest that holds the target. */
  function ExcludeOf(st: GtidObjects, t: nat, late: seq<ObjectName>, ex: Option<Span>): Option<Span>
    requires forall n :: n in late ==> n in st
  {
    var o := OldestHolder(st, t, late);
    if o >= 0 then Some(Extend(st[late[o]], t)) else ex
  }

  lemma ExcludeOfSnoc(st: GtidObjects, t: nat, late: seq<ObjectName>, last: ObjectName, ex: Option<Span>)
    requires (forall n :: n in late ==> n in st) && last in st
    ensures ExcludeOf(st, t, late + [last], ex)
         == ExcludeOf(st, t, late, if t in Denote(st[last]) then Some(Extend(st[last], t)) else ex)
  {
    OldestOfSnoc(st, t, late, last);
  }

  /** The walk once it has found the target: back to the newest overlap, with the exclude set of the
      oldest binlog on the way that holds the target. */
  lemma {:induction false} WalkFromHolder(st: GtidObjects, req: Request, names: seq<ObjectName>, ex: Option<Span>)
    requires (forall n :: n in names ==> n in st) && req.kind.Transaction?
    requires names != [] ==> ex.Some? || req.target in Denote(st[names[|names| - 1]])
    ensures var late := names[NewestOverlap(st, req.start, names)..];
      Select(st, req, names, ex) == Selection(late, ExcludeOf(st, req.target, late, ex))
    decreases |names|
  {
    if names != [] {
      var k := |names| - 1;
      var front, last := names[..k], names[k];
      assert names == front + [last];
      var ex' := if req.target in Denote(st[last]) then Some(Extend(st[last], req.target)) else ex;
      SelectSnoc(st, req, front, last, ex);
      var j := NewestOverlap(st, req.start, front);
      if req.start !! Denote(st[last]) {
        WalkFromHolder(st, req, front, ex');
        SuffixSnoc(names, j);
        ExcludeOfSnoc(st, req.target, front[j..], last, ex);
      } else {
        assert names[k..] == [] + [last];
        ExcludeOfSnoc(st, req.target, [], last, ex);
      }
    }
  }

  /** One step of a walk that has found the target. */
  lemma SelectSnoc(st: GtidObjects, req: Request, front: seq<ObjectName>, last: ObjectName, ex: Option<Span>)
    requires (forall n :: n in front ==> n in st) && last in st && req.kind.Transaction?
    requires ex.Some? || req.target in Denote(st[last])
    ensures var ex' := if req.target in Denote(st[last]) then Some(Extend(st[last], req.target)) else ex;
      var older := Select(st, req, front, ex');
      Select(st, req, front + [last], ex)
      == if req.start !! Denote(st[last]) then Selection(older.names + [last], older.exclude)
         else Selection([last], ex')
  {
    assert (front + [last])[..|front|] == front;
  }

  /** Of binlogs up to the newest holder of the target, those from the newest overlap on. */
  function Chosen(st: GtidObjects, req: Request, upTo: seq<ObjectName>): seq<ObjectName>
    requires forall n :: n in upTo ==> n in st
  {
    upTo[NewestOverlap(st, req.start, upTo)..]
  }

  /** The selection takes those, and its exclude set from the oldest of them that holds the target. */
  ghost predicate SelectsBack(st: GtidObjects, req: Request, upTo: seq<ObjectName>, sel: Selection)
    requires forall n :: n in upTo ==> n in st
  {
    var late := Chosen(st, req, upTo);
    var o := OldestHolder(st, req.target, late);
    o >= 0 && sel == Selection(late, Some(Extend(st[late[o]], req.target)))
  }

  /** The selection when the newest binlog holds the target. */
  lemma SelectHeld(st: GtidObjects, req: Request, names: seq<ObjectName>)
    requires (forall n :: n in names ==> n in st) && req.kind.Transaction?
    requires names != [] && req.target in Denote(st[names[|names| - 1]])
    ensures SelectsBack(st, req, names, Select(st, req, names, None))
  {
    var j := NewestOverlap(st, req.start, names);
    WalkFromHolder(st, req, names, None);
    LastOfSuffix(names, j);
    OldestHolds(st, req.target, names[j..]);
  }

  /** For any storage, the selection of a transaction recovery in terms of the stored list. */
  lemma SelectionByIndices(st: GtidObjects, req: Request, names: seq<ObjectName>, upTo: seq<ObjectName>)
    requires (forall n :: n in names ==> n in st) && req.kind.Transaction? && NewestHolder(st, req.target, names) >= 0
    requires upTo == names[..NewestHolder(st, req.target, names) + 1]
    ensures (forall n :: n in upTo ==> n in st) && SelectsBack(st, req, upTo, Select(st, req, names, None))
  {
    NewestHolds(st, req.target, names);
    SelectionUpTo(st, req, names, NewestHolder(st, req.target, names), upTo);
  }

  lemma SelectionUpTo(st: GtidObjects, req: Request, names: seq<ObjectName>, k: nat, upTo: seq<ObjectName>)
    requires (forall n :: n in names ==> n in st) && req.kind.Transaction? && k < |names| && upTo == names[..k + 1]
    requires req.target in Denote(st[names[k]])
    requires forall i :: k < i < |names| ==> req.target !in Denote(st[names[i]])
    ensures (forall n :: n in upTo ==> n in st) && SelectsBack(st, req, upTo, Select(st, req, names, None))
  {
    SkipsNewer(st, req, names, k + 1);
    assert upTo[|upTo| - 1] == names[k];
    SelectHeld(st, req, upTo);
  }

  lemma LastOfSuffix(names: seq<ObjectName>, j: nat)
    requires j < |names|
    ensures names[j..] != [] && names[j..][|names[j..]| - 1] == names[|names| - 1]
  {
  }

  /** The selection for a stored target of a chain: the binlog k holding it, back to the newest overlap. */
  lemma TransactionSelection(st: GtidObjects, req: Request, names: seq<ObjectName>, cuts: seq<nat>, s: nat, k: nat)
    returns (j: nat)
    requires Chain(st, names, cuts) && req.kind.Transaction? && req.start == Interval(1, s + 1)
    requires k < |names| && cuts[k] <= req.target < cuts[k + 1] && cuts[0] <= s + 1
    ensures forall n :: n in names ==> n in st
    ensures j <= k && cuts[j] <= s + 1
    ensures Select(st, req, names, None) == Selection(names[j..k + 1], Some(Span(req.target, cuts[k + 1] - 1)))
  {
    OnlyAt(st, names, cuts, req.target, k);
    j := SelectStored(st, req, names, k);
    ChainAt(st, names, cuts, k);
    OverlapStartsEarly(st, names, cuts, s, j);
  }

  lemma OnlyAt(st: GtidObjects, names: seq<ObjectName>, cuts: seq<nat>, t: nat, k: nat)
    requires Chain(st, names, cuts) && k < |names| && cuts[k] <= t < cuts[k + 1]
    ensures forall n :: n in names ==> n in st
    ensures forall i :: 0 <= i < |names| ==> (t in Denote(st[names[i]]) <==> i == k)
  {
    ChainReplays(st, names, cuts);
    forall i | 0 <= i < |names| ensures t in Denote(st[names[i]]) <==> i == k {
      TargetOnlyAt(st, names, cuts, t, k, i);
    }
  }

  lemma SelectStored(st: GtidObjects, req: Request, names: seq<ObjectName>, k: nat) returns (j: nat)
    requires (forall n :: n in names ==> n in st) && req.kind.Transaction? && k < |names|
    requires forall i :: 0 <= i < |names| ==> (req.target in Denote(st[names[i]]) <==> i == k)
    ensures j <= k && (j > 0 ==> !(req.start !! Denote(st[names[j]])))
    ensures Select(st, req, names, None) == Selection(names[j..k + 1], Some(Extend(st[names[k]], req.target)))
  {
    SkipsNewer(st, req, names, k + 1);
    var upTo := names[..k + 1];
    j := SelectOnly(st, req, upTo);
    Slices(names, j, k);
  }

  /** The selection when the newest binlog alone holds the target. */
  lemma SelectOnly(st: GtidObjects, req: Request, upTo: seq<ObjectName>) returns (j: nat)
    requires (forall n :: n in upTo ==> n in st) && req.kind.Transaction? && upTo != []
    requires forall i :: 0 <= i < |upTo| ==> (req.target in Denote(st[upTo[i]]) <==> i == |upTo| - 1)
    ensures j < |upTo| && (j > 0 ==> !(req.start !! Denote(st[upTo[j]])))
    ensures Select(st, req, upTo, None) == Selection(upTo[j..], Some(Extend(st[upTo[|upTo| - 1]], req.target)))
  {
    SelectHeld(st, req, upTo);
    j := NewestOverlap(st, req.start, upTo);
    NewestOverlaps(st, req.start, upTo);
    var o := OldestHolder(st, req.target, upTo[j..]);
    assert upTo[j..][o] == upTo[j + o];
  }

  /** Transaction recovery is exact: over contiguous storage that reaches back to the backup, the
      recovered database holds transactions 1 .. max(s, t - 1) and nothing else. */
  lemma TransactionRecoveryIsExact(st: GtidObjects, req: Request, names: seq<ObjectName>, cuts: seq<nat>, s: nat)
    requires Chain(st, names, cuts) && req.kind.Transaction?
    requires s >= 1 && req.start == Interval(1, s + 1) && 1 <= cuts[0] <= s + 1
    requires cuts[0] <= req.target < cuts[|names|] && req.target >= s
    ensures forall n :: n in names ==> n in st
    ensures var sel := Select(st, req, names, None);
      && sel.names != []
      && Recovered(st, req, sel) == Interval(1, if req.target <= s then s + 1 else req.target)
  {
    var k := BinlogOf(st, names, cuts, req.target);
    var j := TransactionSelection(st, req, names, cuts, s, k);
    ChainPart(st, names, cuts, j, k + 1);
    ChainReplays(st, names[j..k + 1], cuts[j..k + 2]);
    var sel := Select(st, req, names, None);
    assert Replayed(st, sel.names) == Interval(cuts[j], cuts[k + 1]);
    assert DenoteExclude(sel.exclude) == Interval(req.target, cuts[k + 1]);
    assert cuts[j] >= 1 by { CutsIncrease(st, names, cuts, 0, j); }
    assert Recovered(st, req, sel)
        == Interval(1, s + 1) + (Interval(cuts[j], cuts[k + 1]) - Interval(req.target, cuts[k + 1]));
  }

  /** A target that is not stored is refused: nothing is selected. */
  lemma {:induction false} MissingTargetIsRefused(st: GtidObjects, req: Request, names: seq<ObjectName>)
    requires forall n :: n in names ==> n in st
    requires req.kind.Transaction? && req.target !in Replayed(st, names)
    ensures Select(st, req, names, None) == Selection([], None)
    decreases |names|
  {
    if names != [] {
      MissingTargetIsRefused(st, req, names[..|names| - 1]);
    }
  }

  /** The replay goes past the target. */
  ghost predicate Overshoots(st: GtidObjects, req: Request, sel: Selection)
    requires forall n :: n in sel.names ==> n in st
  {
    exists x :: x in Replayed(st, sel.names) - DenoteExclude(sel.exclude) && x >= req.target
  }

  /** One of these binlogs ends later than the oldest that holds the transaction. */
  ghost predicate OneEndsLater(st: GtidObjects, t: nat, late: seq<ObjectName>)
    requires SingleSpans(st, late)
  {
    var o := OldestHolder(st, t, late);
    o >= 0 && exists i :: 0 <= i < |late| && st[late[i]][0].last > st[late[o]][0].last
  }

  lemma OvershootsBack(st: GtidObjects, req: Request, upTo: seq<ObjectName>, sel: Selection)
    requires SingleSpans(st, upTo) && SelectsBack(st, req, upTo, sel)
    ensures var late := Chosen(st, req, upTo);
      && SingleSpans(st, late) && (forall n :: n in sel.names ==> n in st)
      && (Overshoots(st, req, sel) <==> OneEndsLater(st, req.target, late))
  {
    var late := Chosen(st, req, upTo);
    var o := OldestHolder(st, req.target, late);
    assert late[o] in late;
    SpanDenotes(st[late[o]]);
    var excluded := DenoteExclude(sel.exclude);
    BeyondExclude(st, late, excluded, req.target, st[late[o]][0].last);
    if Overshoots(st, req, sel) {
      var x :| x in Replayed(st, sel.names) - excluded && x >= req.target;
      assert x in Replayed(st, late) - excluded;
    }
    if OneEndsLater(st, req.target, late) {
      var x :| x in Replayed(st, late) - excluded && x >= req.target;
      assert x in Replayed(st, sel.names) - DenoteExclude(sel.exclude);
    }
  }

  /** Without contiguity the replay can run past the target. It does so exactly when, of the binlogs
      from the newest overlap to the newest holder, one ends later than the oldest holder. */
  lemma OvershootsExactlyWhen(st: GtidObjects, req: Request, names: seq<ObjectName>, upTo: seq<ObjectName>)
    requires SingleSpans(st, names) && req.kind.Transaction? && NewestHolder(st, req.target, names) >= 0
    requires upTo == names[..NewestHolder(st, req.target, names) + 1]
    ensures SingleSpans(st, upTo) && SingleSpans(st, Chosen(st, req, upTo))
    ensures Overshoots(st, req, Select(st, req, names, None)) <==> OneEndsLater(st, req.target, Chosen(st, req, upTo))
  {
    SelectionByIndices(st, req, names, upTo);
    assert forall n :: n in upTo ==> n in names;
    OvershootsBack(st, req, upTo, Select(st, req, names, None));
  }

  /** Transactions from the target on survive the exclude set exactly when some binlog ends after it. */
  lemma BeyondExclude(st: GtidObjects, names: seq<ObjectName>, excluded: GtidSet, target: nat, end: nat)
    requires SingleSpans(st, names) && target <= end && excluded == Interval(target, end + 1)
    ensures (exists x :: x in Replayed(st, names) - excluded && x >= target)
            <==> exists i :: 0 <= i < |names| && st[names[i]][0].last > end
  {
    if x :| x in Replayed(st, names) - excluded && x >= target {
      ReplayedHas(st, names, x);
      var i :| 0 <= i < |names| && x in Denote(st[names[i]]);
      SpanDenotes(st[names[i]]);
      assert st[names[i]][0].last > end;
    }
    if i :| 0 <= i < |names| && st[names[i]][0].last > end {
      SpanDenotes(st[names[i]]);
      var x := st[names[i]][0].last;
      ReplayedHas(st, names, x);
      assert x in Replayed(st, names) - excluded;
    }
  }

  lemma ChainIsMonotone(st: GtidObjects, names: seq<ObjectName>, cuts: seq<nat>)
    requires Chain(st, names, cuts) && cuts[0] >= 1
    ensures SingleSpans(st, names) && LastsMonotone(st, names)
    ensures forall n :: n in names ==> st[n][0].first >= 1
  {
    forall n | n in names ensures n in st && |st[n]| == 1 && 1 <= st[n][0].first <= st[n][0].last {
      var i :| 0 <= i < |names| && names[i] == n;
      ChainAt(st, names, cuts, i);
      CutsIncrease(st, names, cuts, 0, i);
    }
    forall i, j | 0 <= i < j < |names| ensures st[names[i]][0].last <= st[names[j]][0].last {
      ChainAt(st, names, cuts, i);
      ChainAt(st, names, cuts, j);
      CutsIncrease(st, names, cuts, i + 1, j + 1);
    }
  }

  /** Latest and skip recovery over contiguous storage that reaches back to the backup: the
      database holds everything up to the last stored transaction, but for a skipped one beyond the backup. */
  lemma LatestOverChain(st: GtidObjects, req: Request, names: seq<ObjectName>, cuts: seq<nat>, s: nat)
    requires Chain(st, names, cuts) && (req.kind.Latest? || req.kind.Skip?)
    requires s >= 1 && req.start == Interval(1, s + 1) && 1 <= cuts[0] <= s + 1
    ensures forall n :: n in names ==> n in st
    ensures var end := cuts[|names|];
      Recovered(st, req, Select(st, req, names, None))
      == Interval(1, if end <= s then s + 1 else end) - if req.kind.Skip? && req.target > s then {req.target} else {}
  {
    ChainReplays(st, names, cuts);
    ChainIsMonotone(st, names, cuts);
    LatestIsComplete(st, req, names, s);
  }
}
