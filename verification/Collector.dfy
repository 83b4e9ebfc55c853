/** The binlog collector: it finds where the previous run stopped by comparing GTID sets,
    uploads the rest in order and keeps a "last set" marker in the bucket. */
module Collector {
  import opened Options
  import opened Gtid

  datatype Binlog = Binlog(name: string, firstTimestamp: nat, number: string, gtidSet: GtidSet)

  /** The key printed as binlog_<timestamp>_<number>_<md5 of the GTID set>. The digest is modelled
      by the GTID set itself, that is, MD5 is taken to be collision free. */
  datatype ObjectName = ObjectName(timestamp: nat, number: string, digest: GtidSet)

  /** What outlives a run: binlog objects, their -gtid-set companions, the last-set marker and the
      number of times a gap was flagged. */
  datatype Bucket = Bucket(
    binlogs: map<ObjectName, GtidSet>,
    gtidSets: map<ObjectName, GtidSet>,
    lastSet: Option<GtidSet>,
    gaps: nat)

  const EMPTY_BUCKET := Bucket(map[], map[], None, 0)

  function KeyOf(log: Binlog): ObjectName {
    ObjectName(log.firstTimestamp, log.number, log.gtidSet)
  }

  /** A stored marker and a binlog match when one contains the other. */
  predicate Nested(log: Binlog, last: GtidSet) {
    log.gtidSet != {} && (last <= log.gtidSet || log.gtidSet <= last)
  }

  function MarkerOf(b: Bucket): GtidSet {
    if b.lastSet.None? then {} else b.lastSet.value
  }

  /** Index of the newest binlog that matches the marker, or -1. */
  function NewestNested(list: seq<Binlog>, last: GtidSet): (m: int)
    ensures -1 <= m < |list|
    ensures m >= 0 ==> Nested(list[m], last)
    ensures forall j :: m < j < |list| ==> !Nested(list[j], last)
  {
    if list == [] then -1
    else if Nested(list[|list| - 1], last) then |list| - 1
    else NewestNested(list[..|list| - 1], last)
  }

  predicate AnyTransactions(list: seq<Binlog>) {
    exists i :: 0 <= i < |list| && list[i].gtidSet != {}
  }

  predicate GapFlagged(b: Bucket, list: seq<Binlog>) {
    && AnyTransactions(list)
    && MarkerOf(b) != {} && NewestNested(list, MarkerOf(b)) < 0
  }

  /** The run goes on from a binlog that matches the marker. */
  predicate Resumes(b: Bucket, list: seq<Binlog>) {
    AnyTransactions(list) && MarkerOf(b) != {} && NewestNested(list, MarkerOf(b)) >= 0
  }

  /** First index whose binlogs are to be uploaded. */
  function StartIndex(list: seq<Binlog>, last: GtidSet): (s: nat)
    ensures s <= |list|
  {
    var m := NewestNested(list, last);
    if last == {} || m < 0 then 0
    else if list[m].gtidSet == last then m + 1 else m
  }

  function NonEmpty(list: seq<Binlog>): seq<Binlog> {
    if list == [] then []
    else (if list[0].gtidSet == {} then [] else [list[0]]) + NonEmpty(list[1..])
  }

  function PutBinlog(b: Bucket, log: Binlog): Bucket {
    b.(binlogs := b.binlogs[KeyOf(log) := log.gtidSet])
  }

  function PutGtidSet(b: Bucket, log: Binlog): Bucket {
    b.(gtidSets := b.gtidSets[KeyOf(log) := log.gtidSet])
  }

  function PutMarker(b: Bucket, log: Binlog): Bucket {
    b.(lastSet := Some(log.gtidSet))
  }

  /** One binlog under a budget of storage writes: the run dies when the budget is spent. */
  function PutAll(b: Bucket, log: Binlog, writes: nat): Bucket {
    if writes == 0 then b
    else if writes == 1 then PutBinlog(b, log)
    else if writes == 2 then PutGtidSet(PutBinlog(b, log), log)
    else PutMarker(PutGtidSet(PutBinlog(b, log), log), log)
  }

  function Upload(b: Bucket, list: seq<Binlog>, writes: nat): Bucket
    decreases |list|
  {
    if list == [] then b
    else if list[0].gtidSet == {} then Upload(b, list[1..], writes)
    else if writes < 3 then PutAll(b, list[0], writes)
    else Upload(PutAll(b, list[0], writes), list[1..], writes - 3)
  }

  function Flagged(b: Bucket, list: seq<Binlog>): Bucket {
    if GapFlagged(b, list) then b.(gaps := b.gaps + 1) else b
  }

  /** The bucket left by one collector run over a host's binlog list. */
  function Collect(b: Bucket, list: seq<Binlog>, writes: nat): Bucket {
    if !AnyTransactions(list) then b
    else Upload(Flagged(b, list), list[StartIndex(list, MarkerOf(b))..], writes)
  }

  /** The collector process. Its bucket survives runs; lastUploadedSet is per run. */
  class Process {
    var bucket: Bucket
    var lastUploadedSet: GtidSet

    constructor (b: Bucket)
      ensures bucket == b
    {
      bucket := b;
      lastUploadedSet := {};
    }

    method RemoveEmptyBinlogs(logs: seq<Binlog>) returns (result: seq<Binlog>)
      ensures result == NonEmpty(logs)
    {
      result := [];
      for i := 0 to |logs|
        invariant result + NonEmpty(logs[i..]) == NonEmpty(logs)
      {
        assert logs[i..][1..] == logs[i + 1..];
        if logs[i].gtidSet != {} {
          result := result + [logs[i]];
        }
      }
    }

    /** The first loop cannot run off the list: its caller passes the name of a listed binlog. The set
        of that binlog is read from the server once more, which can fail. */
    method FilterBinLogs(logs: seq<Binlog>, lastBinlogName: Option<string>, readable: bool)
      returns (ok: bool, result: seq<Binlog>)
      requires forall i, j :: 0 <= i < j < |logs| ==> logs[i].name != logs[j].name
      requires lastBinlogName.Some? ==> exists i :: 0 <= i < |logs| && logs[i].name == lastBinlogName.value
      ensures ok <==> lastBinlogName.None? || readable
      ensures lastBinlogName.None? ==> result == NonEmpty(logs)
      ensures ok ==> forall m :: 0 <= m < |logs| && lastBinlogName == Some(logs[m].name) ==>
        result == NonEmpty(logs[if logs[m].gtidSet == lastUploadedSet then m + 1 else m..])
    {
      if lastBinlogName.None? {
        result := RemoveEmptyBinlogs(logs);
        return true, result;
      }
      var startIndex := 0;
      while logs[startIndex].name != lastBinlogName.value
        invariant 0 <= startIndex < |logs|
        invariant forall i :: 0 <= i < startIndex ==> logs[i].name != lastBinlogName.value
        decreases |logs| - startIndex
      {
        startIndex := startIndex + 1;
      }
      if !readable { return false, []; }
      if logs[startIndex].gtidSet == lastUploadedSet {
        startIndex := startIndex + 1;
      }
      result := RemoveEmptyBinlogs(logs[startIndex..]);
      ok := true;
    }

    /** Binlog object, then its GTID set, then the marker; a crash can fall before each write. */
    method ManageBinlog(log: Binlog, writes: nat) returns (left: nat, done: bool)
      modifies this
      ensures bucket == PutAll(old(bucket), log, writes)
      ensures done <==> writes >= 3
      ensures done ==> left == writes - 3
      ensures lastUploadedSet == if done then log.gtidSet else old(lastUploadedSet)
    {
      left, done := 0, false;
      if writes == 0 { return; }
      bucket := bucket.(binlogs := bucket.binlogs[KeyOf(log) := log.gtidSet]);
      if writes == 1 { return; }
      bucket := bucket.(gtidSets := bucket.gtidSets[KeyOf(log) := log.gtidSet]);
      if writes == 2 { return; }
      bucket := bucket.(lastSet := Some(log.gtidSet));
      lastUploadedSet := log.gtidSet;
      left, done := writes - 3, true;
    }

    /** Newest to oldest, the first binlog whose GTID set contains the marker or lies in it. */
    method FindLastUploaded(list: seq<Binlog>) returns (name: Option<string>)
      ensures name == var m := NewestNested(list, lastUploadedSet); if m < 0 then None else Some(list[m].name)
    {
      name := None;
      var i := |list| - 1;
      while i >= 0
        invariant -1 <= i < |list|
        invariant NewestNested(list, lastUploadedSet) == NewestNested(list[..i + 1], lastUploadedSet)
      {
        assert list[..i + 1][..i] == list[..i];
        if list[i].gtidSet != {} {
          if lastUploadedSet == list[i].gtidSet { return Some(list[i].name); }
          if lastUploadedSet <= list[i].gtidSet { return Some(list[i].name); }
          if list[i].gtidSet <= lastUploadedSet { return Some(list[i].name); }
        }
        i := i - 1;
      }
    }

    method HasTransactions(list: seq<Binlog>) returns (any: bool)
      ensures any <==> AnyTransactions(list)
    {
      var i := |list| - 1;
      while i >= 0
        invariant -1 <= i < |list|
        invariant forall j :: i < j < |list| ==> list[j].gtidSet == {}
      {
        if list[i].gtidSet != {} { return true; }
        i := i - 1;
      }
      return false;
    }

    /** One run against a host whose binlog list, with GTID sets read, is binlogList. When the matched
        binlog cannot be read again, the run ends before its first write. */
    method CollectBinLogs(binlogList: seq<Binlog>, readable: bool, writes: nat)
      requires forall i, j :: 0 <= i < j < |binlogList| ==> binlogList[i].name != binlogList[j].name
      modifies this
      ensures bucket
           == Collect(old(bucket), binlogList, if Resumes(old(bucket), binlogList) && !readable then 0 else writes)
    {
      var any := HasTransactions(binlogList);
      if !any { return; }

      lastUploadedSet := if bucket.lastSet.Some? then bucket.lastSet.value else {};
      var lastUploadedBinlogName: Option<string> := None;
      if lastUploadedSet != {} {
        lastUploadedBinlogName := FindLastUploaded(binlogList);
        if lastUploadedBinlogName.None? {
          bucket := bucket.(gaps := bucket.gaps + 1);
        }
      }

      ghost var rest := binlogList[StartIndex(binlogList, lastUploadedSet)..];
      assert binlogList[0..] == binlogList;
      ghost var flagged := bucket;
      var ok, toUpload := FilterBinLogs(binlogList, lastUploadedBinlogName, readable);
      if !ok {
        UploadNothing(flagged, rest);
        return;
      }
      assert toUpload == NonEmpty(rest);
      UploadSkipsEmpty(flagged, rest, writes);
      UploadBinlogs(toUpload, writes);
    }

    method UploadBinlogs(logs: seq<Binlog>, writes: nat)
      requires forall i :: 0 <= i < |logs| ==> logs[i].gtidSet != {}
      modifies this
      ensures bucket == Upload(old(bucket), logs, writes)
    {
      var left := writes;
      for k := 0 to |logs|
        invariant Upload(bucket, logs[k..], left) == Upload(old(bucket), logs, writes)
      {
        var done;
        assert logs[k..][1..] == logs[k + 1..];
        left, done := ManageBinlog(logs[k], left);
        if !done { return; }
      }
    }
  }

  lemma {:induction false} UploadSkipsEmpty(b: Bucket, list: seq<Binlog>, writes: nat)
    ensures forall i :: 0 <= i < |NonEmpty(list)| ==> NonEmpty(list)[i].gtidSet != {}
    ensures Upload(b, NonEmpty(list), writes) == Upload(b, list, writes)
    decreases |list|
  {
    if list == [] {
    } else if list[0].gtidSet == {} {
      assert NonEmpty(list) == NonEmpty(list[1..]);
      UploadSkipsEmpty(b, list[1..], writes);
    } else {
      assert NonEmpty(list)[1..] == NonEmpty(list[1..]);
      UploadSkipsEmpty(PutAll(b, list[0], writes), list[1..], if writes < 3 then 0 else writes - 3);
    }
  }

  lemma {:induction false} UploadNothing(b: Bucket, list: seq<Binlog>)
    ensures Upload(b, list, 0) == b
    decreases |list|
  {
    if list != [] && list[0].gtidSet == {} {
      UploadNothing(b, list[1..]);
    }
  }
}
