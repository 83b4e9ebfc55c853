/** What a recovery to a date leaves: the choice of binlogs, the early break of the replay loop and
    mysqlbinlog's stop time together. */
module DateRecovery {
  import opened Options
  import opened Gtid
  import opened GoStrings
  import opened Collector
  import opened Recoverer
  import opened RecoveryExactness
  import opened PitrNames

  /** When each transaction was committed. */
  type Clock = nat -> int

  function KeysOf(names: seq<ObjectName>, md5: GtidSet -> string): (r: seq<Key>)
    ensures |r| == |names|
    ensures forall i :: 0 <= i < |names| ==> r[i].timestamp == names[i].timestamp
  {
    seq(|names|, i requires 0 <= i < |names| => Key(names[i].timestamp, names[i].number, md5(names[i].digest)))
  }

  /** Listed by first timestamp. */
  ghost predicate ByTimestamp(names: seq<ObjectName>) {
    && (forall i :: 0 <= i < |names| ==> names[i].timestamp <= MAX_INT64)
    && (forall i, j :: 0 <= i < j < |names| ==> names[i].timestamp <= names[j].timestamp)
  }

  function Before(g: GtidSet, clock: Clock, endTime: int): GtidSet {
    set x | x in g && clock(x) < endTime
  }

  function NotBefore(g: GtidSet, clock: Clock, endTime: int): GtidSet {
    set x | x in g && clock(x) >= endTime
  }

  /** What mysqlbinlog gives of a binlog with a stop time: it reads the transactions in their order and
      stops at the first from at or after the time. */
  function UpToStop(g: GtidSet, clock: Clock, endTime: int): GtidSet {
    set x | x in g && (forall y :: y in g && y <= x ==> clock(y) < endTime)
  }

  /** Each binlog is read by its own mysqlbinlog. */
  function ReplayedTo(st: GtidObjects, names: seq<ObjectName>, clock: Clock, endTime: int): GtidSet
    requires forall n :: n in names ==> n in st
  {
    set n, x | n in names && x in UpToStop(Denote(st[n]), clock, endTime) :: x
  }

  /** What replaying binlogs with a stop time adds to the backup. */
  function RecoveredTo(st: GtidObjects, req: Request, applied: seq<ObjectName>, clock: Clock, endTime: int): GtidSet
    requires forall n :: n in applied ==> n in st
  {
    req.start + ReplayedTo(st, applied, clock, endTime)
  }

  ghost predicate Gives(st: GtidObjects, name: ObjectName, clock: Clock, endTime: int, x: nat) {
    name in st && x in UpToStop(Denote(st[name]), clock, endTime)
  }

  lemma ReplayedToHas(st: GtidObjects, names: seq<ObjectName>, clock: Clock, endTime: int, x: nat)
    requires forall n :: n in names ==> n in st
    ensures x in ReplayedTo(st, names, clock, endTime)
       <==> exists i :: 0 <= i < |names| && Gives(st, names[i], clock, endTime, x)
  {
    if x in ReplayedTo(st, names, clock, endTime) {
      var n :| n in names && x in UpToStop(Denote(st[n]), clock, endTime);
      assert Gives(st, n, clock, endTime, x);
    }
  }

  /** The transaction does not come back from this binlog: the loop breaks before it, or mysqlbinlog
      stops at an earlier transaction. */
  ghost predicate HeldUp(st: GtidObjects, name: ObjectName, clock: Clock, endTime: int, x: nat)
    requires name in st
  {
    name.timestamp > endTime || exists y :: y in Denote(st[name]) && y <= x && clock(y) >= endTime
  }

  /** Some binlog brings it back. */
  ghost predicate BroughtBack(st: GtidObjects, late: seq<ObjectName>, clock: Clock, endTime: int, x: nat)
    requires forall n :: n in late ==> n in st
  {
    exists k :: 0 <= k < |late| && x in Denote(st[late[k]]) && !HeldUp(st, late[k], clock, endTime, x)
  }

  /** A stored transaction from before the time and beyond the backup is in no binlog from j on, or is
      held up in every one that has it. */
  ghost predicate LosesToDate(
    st: GtidObjects, names: seq<ObjectName>, j: nat, start: GtidSet, clock: Clock, endTime: int)
    requires (forall n :: n in names ==> n in st) && j <= |names|
  {
    exists x :: (x in Before(Replayed(st, names), clock, endTime) && x !in start
      && !BroughtBack(st, names[j..], clock, endTime, x))
  }

  /** applied is what the replay loop reports of a successful run to a date, over printed names. */
  ghost predicate Applied(applied: seq<string>, printed: seq<string>, endTime: int) {
    && applied <= printed
    && (forall i :: 0 <= i < |applied| ==> BinlogTime(applied[i]).Number? && BinlogTime(applied[i]).value <= endTime)
    && (|applied| < |printed| ==>
         BinlogTime(printed[|applied|]).Number? && BinlogTime(printed[|applied|]).value > endTime)
  }

  /** The loop applies exactly the binlogs that begin by the recovery time. */
  lemma AppliedFront(names: seq<ObjectName>, md5: GtidSet -> string, applied: seq<string>, endTime: int)
    requires ByTimestamp(names) && Applied(applied, Printed(KeysOf(names, md5)), endTime)
    ensures |applied| <= |names| && applied == Printed(NotAfter(KeysOf(names, md5), endTime))
    ensures forall i :: 0 <= i < |names| ==> (i < |applied| <==> names[i].timestamp <= endTime)
  {
    var keys := KeysOf(names, md5);
    EarlyBreakIsFilter(keys, endTime, applied);
    forall i | 0 <= i < |applied| ensures names[i].timestamp <= endTime {
      PrintedTime(keys, i);
    }
    if |applied| < |names| {
      PrintedTime(keys, |applied|);
    }
  }

  /** What the applied binlogs give is what is brought back. */
  lemma AppliedBringsBack(st: GtidObjects, late: seq<ObjectName>, n: nat, clock: Clock, endTime: int, x: nat)
    requires (forall m :: m in late ==> m in st) && n <= |late|
    requires forall i :: 0 <= i < |late| ==> (i < n <==> late[i].timestamp <= endTime)
    ensures x in ReplayedTo(st, late[..n], clock, endTime) <==> BroughtBack(st, late, clock, endTime, x)
    ensures BroughtBack(st, late, clock, endTime, x) ==> x in Before(Replayed(st, late), clock, endTime)
  {
    ReplayedToHas(st, late[..n], clock, endTime, x);
    ReplayedHas(st, late, x);
    if i :| 0 <= i < n && Gives(st, late[..n][i], clock, endTime, x) {
      assert late[..n][i] == late[i] && x in Denote(st[late[i]]) && !HeldUp(st, late[i], clock, endTime, x);
    }
    if BroughtBack(st, late, clock, endTime, x) {
      var k :| 0 <= k < |late| && x in Denote(st[late[k]]) && !HeldUp(st, late[k], clock, endTime, x);
      assert late[..n][k] == late[k] && Gives(st, late[..n][k], clock, endTime, x);
    }
  }

  lemma SuffixByTimestamp(names: seq<ObjectName>, j: nat)
    requires ByTimestamp(names) && j <= |names|
    ensures ByTimestamp(names[j..])
  {
    assert forall i :: 0 <= i < |names[j..]| ==> names[j..][i] == names[j + i];
  }

  /** Whatever part of the binlogs is applied, nothing from at or after the time comes back. */
  lemma NeverLater(st: GtidObjects, names: seq<ObjectName>, applied: seq<ObjectName>, clock: Clock, endTime: int)
    requires (forall n :: n in names ==> n in st) && forall n :: n in applied ==> n in names
    ensures ReplayedTo(st, applied, clock, endTime) <= Before(Replayed(st, names), clock, endTime)
  {
    forall x | x in ReplayedTo(st, applied, clock, endTime)
      ensures x in Before(Replayed(st, names), clock, endTime)
    {
      ReplayedToHas(st, applied, clock, endTime, x);
      var i :| 0 <= i < |applied| && Gives(st, applied[i], clock, endTime, x);
      assert applied[i] in names;
      ReplayedHas(st, names, x);
    }
  }

  /** A whole date recovery: choose, print, replay each binlog up to its stop, until the break. Whatever
      the storage and the clock, it leaves every stored transaction from before the time, and nothing
      later, exactly when none is lost or held up. */
  method RecoverToDate(st: GtidObjects, req: Request, names: seq<ObjectName>, md5: GtidSet -> string,
                       ghost clock: Clock, endTime: int, fails: set<nat>)
    returns (ok: bool, ghost applied: seq<ObjectName>)
    requires (forall n :: n in names ==> n in st) && req.kind.Date? && ByTimestamp(names)
    ensures forall n :: n in applied ==> n in st
    ensures !ok ==> fails != {}
    ensures RecoveredTo(st, req, applied, clock, endTime)
         <= req.start + Before(Replayed(st, names), clock, endTime)
    ensures ok ==>
      (RecoveredTo(st, req, applied, clock, endTime) == req.start + Before(Replayed(st, names), clock, endTime)
       <==> !LosesToDate(st, names, NewestOverlap(st, req.start, names), req.start, clock, endTime))
  {
    var sel := Select(st, req, names, None);
    ghost var j := NewestOverlap(st, req.start, names);
    SuffixFromNewestOverlap(st, req, names);
    SuffixByTimestamp(names, j);
    var texts;
    texts, ok := Replay(Date, Printed(KeysOf(sel.names, md5)), endTime, fails);
    applied := sel.names[..|texts|];
    NeverLater(st, names, applied, clock, endTime);
    if ok {
      AppliedFront(sel.names, md5, texts, endTime);
      AppliedIsExactlyWhen(st, req, names, j, |texts|, clock, endTime);
    } else {
      PrintedTime(KeysOf(sel.names, md5), |texts|);
    }
  }

  lemma AppliedIsExactlyWhen(
    st: GtidObjects, req: Request, names: seq<ObjectName>, j: nat, n: nat, clock: Clock, endTime: int)
    requires (forall m :: m in names ==> m in st) && j <= |names| && n <= |names[j..]|
    requires forall i :: 0 <= i < |names[j..]| ==> (i < n <==> names[j..][i].timestamp <= endTime)
    ensures RecoveredTo(st, req, names[j..][..n], clock, endTime)
         == req.start + Before(Replayed(st, names), clock, endTime)
       <==> !LosesToDate(st, names, j, req.start, clock, endTime)
  {
    var late := names[j..];
    SuffixReplays(st, names, j);
    forall x: nat
      ensures x in ReplayedTo(st, late[..n], clock, endTime) <==> BroughtBack(st, late, clock, endTime, x)
      ensures BroughtBack(st, late, clock, endTime, x) ==> x in Before(Replayed(st, late), clock, endTime)
    {
      AppliedBringsBack(st, late, n, clock, endTime, x);
    }
    if LosesToDate(st, names, j, req.start, clock, endTime) {
      var x :| (x in Before(Replayed(st, names), clock, endTime) && x !in req.start
        && !BroughtBack(st, late, clock, endTime, x));
      assert x in req.start + Before(Replayed(st, names), clock, endTime);
      assert x !in RecoveredTo(st, req, late[..n], clock, endTime);
    }
  }

  // Where the clock keeps order

  /** No transaction is older than the first timestamp of its binlog. */
  ghost predicate NotOlder(st: GtidObjects, names: seq<ObjectName>, clock: Clock)
    requires forall n :: n in names ==> n in st
  {
    forall i, x :: 0 <= i < |names| && x in Denote(st[names[i]]) ==> names[i].timestamp <= clock(x)
  }

  /** In no binlog does a transaction from before the time follow one from at or after it. */
  ghost predicate InOrder(st: GtidObjects, names: seq<ObjectName>, clock: Clock, endTime: int)
    requires forall n :: n in names ==> n in st
  {
    forall i, x, y :: (0 <= i < |names| && x in Denote(st[names[i]]) && y in Denote(st[names[i]]) && y <= x
      && clock(x) < endTime) ==> clock(y) < endTime
  }

  /** Breaking off at the first binlog that begins after the time then loses nothing from before it. */
  lemma BreakLosesNothing(st: GtidObjects, names: seq<ObjectName>, n: nat, clock: Clock, endTime: int)
    requires (forall m :: m in names ==> m in st) && NotOlder(st, names, clock) && n <= |names|
    requires forall i :: n <= i < |names| ==> names[i].timestamp > endTime
    ensures Before(Replayed(st, names[..n]), clock, endTime) == Before(Replayed(st, names), clock, endTime)
  {
    forall x: nat | clock(x) < endTime ensures x in Replayed(st, names[..n]) <==> x in Replayed(st, names) {
      BeforeInFront(st, names, n, clock, endTime, x);
    }
  }

  lemma BeforeInFront(st: GtidObjects, names: seq<ObjectName>, n: nat, clock: Clock, endTime: int, x: nat)
    requires (forall m :: m in names ==> m in st) && NotOlder(st, names, clock) && n <= |names|
    requires (forall i :: n <= i < |names| ==> names[i].timestamp > endTime) && clock(x) < endTime
    ensures x in Replayed(st, names[..n]) <==> x in Replayed(st, names)
  {
    ReplayedHas(st, names, x);
    ReplayedHas(st, names[..n], x);
    if i :| 0 <= i < n && x in Denote(st[names[..n][i]]) {
      assert names[..n][i] == names[i];
    }
    if i :| 0 <= i < |names| && x in Denote(st[names[i]]) {
      assert names[..n][i] == names[i];
    }
  }

  lemma InOrderBringsBack(st: GtidObjects, late: seq<ObjectName>, clock: Clock, endTime: int, x: nat)
    requires (forall n :: n in late ==> n in st) && clock(x) < endTime
    requires NotOlder(st, late, clock) && InOrder(st, late, clock, endTime)
    ensures BroughtBack(st, late, clock, endTime, x) <==> x in Replayed(st, late)
  {
    ReplayedHas(st, late, x);
    if k :| 0 <= k < |late| && x in Denote(st[late[k]]) {
      assert !HeldUp(st, late[k], clock, endTime, x);
    }
  }

  lemma OnlyOlderHold(st: GtidObjects, names: seq<ObjectName>, j: nat, unwanted: GtidSet, x: nat)
    requires (forall n :: n in names ==> n in st) && j <= |names|
    requires x in Replayed(st, names) && x !in Replayed(st, names[j..]) && x !in unwanted
    ensures LosesBefore(st, names, j, unwanted)
  {
    ReplayedHas(st, names, x);
    ReplayedHas(st, names[j..], x);
    forall k | j <= k < |names| ensures x !in Denote(st[names[k]]) {
      assert names[j..][k - j] == names[k];
    }
  }

  /** With the clock in order nothing is held up: what is lost is what older binlogs alone hold. */
  lemma InOrderLosesExactlyWhen(
    st: GtidObjects, names: seq<ObjectName>, j: nat, start: GtidSet, clock: Clock, endTime: int)
    requires (forall n :: n in names ==> n in st) && j <= |names|
    requires NotOlder(st, names[j..], clock) && InOrder(st, names[j..], clock, endTime)
    ensures LosesToDate(st, names, j, start, clock, endTime)
       <==> LosesBefore(st, names, j, start + NotBefore(Replayed(st, names), clock, endTime))
  {
    var late, unwanted := names[j..], start + NotBefore(Replayed(st, names), clock, endTime);
    if LosesToDate(st, names, j, start, clock, endTime) {
      var x :| (x in Before(Replayed(st, names), clock, endTime) && x !in start
        && !BroughtBack(st, late, clock, endTime, x));
      InOrderBringsBack(st, late, clock, endTime, x);
      OnlyOlderHold(st, names, j, unwanted, x);
    }
    if LosesBefore(st, names, j, unwanted) {
      var x := LostBySuffix(st, names, j, unwanted);
      InOrderBringsBack(st, late, clock, endTime, x);
      assert x in Before(Replayed(st, names), clock, endTime);
    }
  }

  /** A transaction from before the time and beyond the backup is held up in a binlog that has it. */
  ghost predicate HoldsUp(st: GtidObjects, names: seq<ObjectName>, start: GtidSet, clock: Clock, endTime: int)
    requires forall n :: n in names ==> n in st
  {
    exists k, x :: (0 <= k < |names| && x in Denote(st[names[k]]) && x !in start && clock(x) < endTime
      && HeldUp(st, names[k], clock, endTime, x))
  }

  /** Over contiguous storage older binlogs lose nothing: some transaction is lost exactly when one from
      before the time and beyond the backup is held up in the binlog that has it. */
  lemma ChainLosesExactlyWhen(
    st: GtidObjects, req: Request, names: seq<ObjectName>, cuts: seq<nat>, s: nat, clock: Clock, endTime: int)
    requires Chain(st, names, cuts) && s >= 1 && req.start == Interval(1, s + 1) && 1 <= cuts[0]
    ensures forall n :: n in names ==> n in st
    ensures LosesToDate(st, names, NewestOverlap(st, req.start, names), req.start, clock, endTime)
       <==> HoldsUp(st, names, req.start, clock, endTime)
  {
    ChainReplays(st, names, cuts);
    ChainIsMonotone(st, names, cuts);
    var j := NewestOverlap(st, req.start, names);
    MonotoneLosesNothing(st, req.start, names, s, {});
    assert req.start + {} == req.start;
    if LosesToDate(st, names, j, req.start, clock, endTime) {
      var x :| (x in Before(Replayed(st, names), clock, endTime) && x !in req.start
        && !BroughtBack(st, names[j..], clock, endTime, x));
      KeptBySuffix(st, names, j, req.start, x);
      LostIsHeldUp(st, names, j, req.start, clock, endTime, x);
    }
    if k, x :| (0 <= k < |names| && x in Denote(st[names[k]]) && x !in req.start && clock(x) < endTime
                && HeldUp(st, names[k], clock, endTime, x)) {
      ReplayedHas(st, names, x);
      HeldUpIsLost(st, names, cuts, j, k, clock, endTime, x);
    }
  }

  lemma LostIsHeldUp(
    st: GtidObjects, names: seq<ObjectName>, j: nat, start: GtidSet, clock: Clock, endTime: int, x: nat)
    requires (forall n :: n in names ==> n in st) && j <= |names| && x !in start && clock(x) < endTime
    requires x in Replayed(st, names[j..]) && !BroughtBack(st, names[j..], clock, endTime, x)
    ensures HoldsUp(st, names, start, clock, endTime)
  {
    ReplayedHas(st, names[j..], x);
    var k :| 0 <= k < |names[j..]| && x in Denote(st[names[j..][k]]);
    assert names[j..][k] == names[j + k] && HeldUp(st, names[j + k], clock, endTime, x);
  }

  lemma HeldUpIsLost(
    st: GtidObjects, names: seq<ObjectName>, cuts: seq<nat>, j: nat, k: nat, clock: Clock, endTime: int, x: nat)
    requires Chain(st, names, cuts) && (forall n :: n in names ==> n in st) && k < |names| && j <= |names|
    requires x in Denote(st[names[k]]) && HeldUp(st, names[k], clock, endTime, x)
    ensures !BroughtBack(st, names[j..], clock, endTime, x)
  {
    ChainAt(st, names, cuts, k);
    OnlyAt(st, names, cuts, x, k);
    var late := names[j..];
    forall i | 0 <= i < |late| && x in Denote(st[late[i]]) ensures HeldUp(st, late[i], clock, endTime, x) {
      assert late[i] == names[j + i];
    }
  }

  /** So with one stored binlog after a backup, and in it transaction x from before the time after y from
      at or after it, x is lost. */
  lemma InversionLosesTransaction(name: ObjectName, s: nat, last: nat, x: nat, y: nat, clock: Clock, endTime: int)
    requires s >= 1 && s < y < x <= last && clock(x) < endTime <= clock(y)
    ensures var st: GtidObjects := map[name := [Span(s + 1, last)]]; var start := Interval(1, s + 1);
      LosesToDate(st, [name], NewestOverlap(st, start, [name]), start, clock, endTime)
  {
    var st: GtidObjects := map[name := [Span(s + 1, last)]];
    var req := Request(Date, Interval(1, s + 1), 0);
    assert Chain(st, [name], [s + 1, last + 1]);
    ChainLosesExactlyWhen(st, req, [name], [s + 1, last + 1], s, clock, endTime);
    SpanDenotes(st[[name][0]]);
    assert y in Denote(st[name]) && x in Denote(st[[name][0]]) && HeldUp(st, [name][0], clock, endTime, x);
  }
}
