/** Text the two PITR programs exchange: object names and GTID ranges. */
module PitrNames {
  import opened GoStrings
  import opened Collector
  import opened Recoverer
  import Gtid

  /** The key the collector prints for a binlog object. */
  function ObjectKey(timestamp: nat, number: string, md5: string): string {
    "binlog_" + Decimal(timestamp) + "_" + number + "_" + md5
  }

  /** The recoverer's reading of an object's first timestamp. */
  function BinlogTime(name: string): Parsed {
    var parts := Split(name, '_');
    if |parts| < 2 then Invalid else ParseInt(parts[1])
  }

  lemma TimestampRoundTrip(timestamp: nat, number: string, md5: string)
    requires timestamp <= MAX_INT64
    ensures BinlogTime(ObjectKey(timestamp, number, md5)) == Number(timestamp)
  {
    var rest := number + "_" + md5;
    var name := ObjectKey(timestamp, number, md5);
    assert name == "binlog" + ['_'] + (Decimal(timestamp) + ['_'] + rest);
    SplitFirst("binlog", '_', Decimal(timestamp) + ['_'] + rest);
    SplitFirst(Decimal(timestamp), '_', rest);
    ParsePrinted(timestamp);
  }

  /** The replay loop: it stops at the first binlog that begins after the recovery time.
      fails are the iterations at which reading the object or running mysqlbinlog fails. */
  method Replay(kind: RecoverType, binlogs: seq<string>, endTime: int, fails: set<nat>)
    returns (applied: seq<string>, ok: bool)
    ensures applied <= binlogs
    ensures ok && !kind.Date? ==> applied == binlogs
    ensures kind.Date? ==> forall i :: 0 <= i < |applied| ==>
      BinlogTime(binlogs[i]).Number? && BinlogTime(binlogs[i]).value <= endTime
    ensures ok && kind.Date? && |applied| < |binlogs| ==>
      BinlogTime(binlogs[|applied|]).Number? && BinlogTime(binlogs[|applied|]).value > endTime
    ensures !ok ==> |applied| < |binlogs|
    ensures !ok ==> |applied| in fails || (kind.Date? && BinlogTime(binlogs[|applied|]).Invalid?)
    ensures forall i :: 0 <= i < |applied| ==> i !in fails
  {
    applied := [];
    for i := 0 to |binlogs|
      invariant applied == binlogs[..i] && forall j :: 0 <= j < i ==> j !in fails
      invariant kind.Date? ==> forall j :: 0 <= j < i ==>
        BinlogTime(binlogs[j]).Number? && BinlogTime(binlogs[j]).value <= endTime
    {
      if kind.Date? {
        var parts := Split(binlogs[i], '_');
        if |parts| < 2 { return applied, false; }
        var binlogTime := ParseInt(parts[1]);
        if binlogTime.Invalid? { return applied, false; }
        if binlogTime.value > endTime { return applied, true; }
      }
      if i in fails { return applied, false; }
      applied := applied + [binlogs[i]];
    }
    ok := true;
  }

  datatype Key = Key(timestamp: nat, number: string, md5: string)

  function KeyText(k: Key): string {
    ObjectKey(k.timestamp, k.number, k.md5)
  }

  /** The order that timestamp and number give to objects. */
  predicate KeyBefore(a: ObjectName, b: ObjectName) {
    a.timestamp < b.timestamp || (a.timestamp == b.timestamp && Less(a.number, b.number))
  }

  /** It is the order in which storage lists the printed names, as long as timestamps have equally
      many digits and numbers are equally long, whatever the digests are. */
  lemma PrintedInKeyOrder(a: ObjectName, b: ObjectName, md5a: string, md5b: string)
    requires KeyBefore(a, b) && |Decimal(a.timestamp)| == |Decimal(b.timestamp)| && |a.number| == |b.number|
    ensures Less(ObjectKey(a.timestamp, a.number, md5a), ObjectKey(b.timestamp, b.number, md5b))
  {
    var x, y := "_" + (a.number + ("_" + md5a)), "_" + (b.number + ("_" + md5b));
    Regroup(Decimal(a.timestamp), a.number, md5a);
    Regroup(Decimal(b.timestamp), b.number, md5b);
    if a.timestamp < b.timestamp {
      DecimalOrder(a.timestamp, b.timestamp);
      LessBefore(Decimal(a.timestamp), Decimal(b.timestamp), x, y);
    } else {
      LessBefore(a.number, b.number, "_" + md5a, "_" + md5b);
      LessAfter("_", a.number + ("_" + md5a), b.number + ("_" + md5b));
      LessAfter(Decimal(a.timestamp), x, y);
    }
    LessAfter("binlog_", Decimal(a.timestamp) + x, Decimal(b.timestamp) + y);
  }

  lemma Regroup(digits: string, number: string, md5: string)
    ensures "binlog_" + digits + "_" + number + "_" + md5 == "binlog_" + (digits + ("_" + (number + ("_" + md5))))
  {
  }

  function Printed(keys: seq<Key>): (r: seq<string>)
    ensures |r| == |keys| && forall i :: 0 <= i < |keys| ==> r[i] == KeyText(keys[i])
  {
    seq(|keys|, i requires 0 <= i < |keys| => KeyText(keys[i]))
  }

  /** The binlogs a date recovery should replay: those that begin no later than the recovery time. */
  function NotAfter(keys: seq<Key>, endTime: int): seq<Key> {
    if keys == [] then []
    else if keys[|keys| - 1].timestamp <= endTime then NotAfter(keys[..|keys| - 1], endTime) + [keys[|keys| - 1]]
    else NotAfter(keys[..|keys| - 1], endTime)
  }

  /** A list sorted by first timestamp splits at one point into kept and dropped. */
  lemma {:induction false} SortedFilter(keys: seq<Key>, endTime: int, n: nat)
    requires n <= |keys|
    requires forall i :: 0 <= i < n ==> keys[i].timestamp <= endTime
    requires forall i :: n <= i < |keys| ==> keys[i].timestamp > endTime
    ensures NotAfter(keys, endTime) == keys[..n]
    decreases |keys|
  {
    if keys != [] {
      var k := |keys| - 1;
      var m := if n == |keys| then k else n;
      FrontOf(keys, m);
      SortedFilter(keys[..k], endTime, m);
      if n == |keys| {
        assert keys[..k] + [keys[k]] == keys;
      }
    }
  }

  lemma FrontOf(keys: seq<Key>, m: nat)
    requires keys != [] && m < |keys|
    ensures keys[..|keys| - 1][..m] == keys[..m]
    ensures forall i :: 0 <= i < |keys| - 1 ==> keys[..|keys| - 1][i] == keys[i]
  {
  }

  /** Date recovery's early break replays exactly the binlogs that begin by the recovery time,
      judged by the timestamps the collector printed, when the list is sorted by them: whatever
      Replay reports as applied in a successful date recovery is that list. */
  lemma EarlyBreakIsFilter(keys: seq<Key>, endTime: int, applied: seq<string>)
    requires forall i :: 0 <= i < |keys| ==> keys[i].timestamp <= MAX_INT64
    requires forall i, j :: 0 <= i < j < |keys| ==> keys[i].timestamp <= keys[j].timestamp
    requires applied <= Printed(keys)
    requires forall i :: 0 <= i < |applied| ==>
      BinlogTime(applied[i]).Number? && BinlogTime(applied[i]).value <= endTime
    requires |applied| < |keys| ==>
      var next := BinlogTime(Printed(keys)[|applied|]); next.Number? && next.value > endTime
    ensures applied == Printed(NotAfter(keys, endTime))
  {
    var n := |applied|;
    forall i | 0 <= i < n ensures keys[i].timestamp <= endTime && applied[i] == KeyText(keys[i]) {
      PrintedTime(keys, i);
      assert applied[i] == Printed(keys)[i];
    }
    if n < |keys| {
      PrintedTime(keys, n);
    }
    SortedFilter(keys, endTime, n);
    assert applied == Printed(keys[..n]);
  }

  lemma PrintedTime(keys: seq<Key>, i: nat)
    requires i < |keys| && keys[i].timestamp <= MAX_INT64
    ensures BinlogTime(Printed(keys)[i]) == Number(keys[i].timestamp)
  {
    TimestampRoundTrip(keys[i].timestamp, keys[i].number, keys[i].md5);
  }

  /** A GTID range of one source as MySQL prints it. */
  function RangeText(uuid: string, span: Span): string {
    uuid + ":" + Decimal(span.first) + if span.first == span.last then "" else "-" + Decimal(span.last)
  }

  /** The transactions a printed range stands for. */
  function RangeOf(text: string): seq<Span> {
    var parts := Split(text, ':');
    if |parts| != 2 then []
    else
      var ends := Split(parts[1], '-');
      if |ends| > 2 || ParseInt(ends[0]).Invalid? || ParseInt(ends[|ends| - 1]).Invalid? then []
      else
        var (a, b) := (ParseInt(ends[0]).value, ParseInt(ends[|ends| - 1]).value);
        if a < 0 || b < 0 then [] else [Span(a, b)]
  }

  function ExtendText(gtidSet: string, gtid: string): seq<string> {
    if gtidSet == gtid then [gtid]
    else
      var s := Split(gtidSet, ':');
      if |s| < 2 then []
      else
        var e := Split(s[1], '-');
        var eidx := if |e| == 1 then 0 else 1;
        var gs := Split(gtid, ':');
        if |gs| < 2 then []
        else
          var es := Split(gs[1], '-');
          [gs[0] + ":" + es[0] + "-" + e[eidx]]
  }

  lemma DecimalLacks(n: nat, c: char)
    requires !IsDigit(c)
    ensures Lacks(Decimal(n), c)
  {
  }

  lemma SplitSingle(uuid: string, n: nat)
    requires Lacks(uuid, ':')
    ensures var text := uuid + ":" + Decimal(n);
      Split(text, ':') == [uuid, Decimal(n)] && Split(Decimal(n), '-') == [Decimal(n)]
  {
    DecimalLacks(n, ':');
    DecimalLacks(n, '-');
    SplitFirst(uuid, ':', Decimal(n));
    SplitPlain(Decimal(n), ':');
    SplitPlain(Decimal(n), '-');
    assert uuid + ":" + Decimal(n) == uuid + [':'] + Decimal(n);
  }

  lemma SplitDashed(uuid: string, a: nat, b: nat)
    requires Lacks(uuid, ':')
    ensures var text := uuid + ":" + Decimal(a) + "-" + Decimal(b);
      var tail := Decimal(a) + ['-'] + Decimal(b);
      Split(text, ':') == [uuid, tail] && Split(tail, '-') == [Decimal(a), Decimal(b)]
  {
    DashedText(uuid, Decimal(a), Decimal(b));
    DecimalLacks(a, ':');
    DecimalLacks(b, ':');
    DecimalLacks(a, '-');
    DecimalLacks(b, '-');
    SplitPair(uuid, ':', Decimal(a) + ['-'] + Decimal(b));
    SplitPair(Decimal(a), '-', Decimal(b));
  }

  lemma DashedText(uuid: string, a: string, b: string)
    ensures uuid + ":" + a + "-" + b == uuid + [':'] + (a + ['-'] + b)
  {
  }

  lemma SplitPair(a: string, sep: char, b: string)
    requires Lacks(a, sep) && Lacks(b, sep)
    ensures Split(a + [sep] + b, sep) == [a, b]
  {
    SplitFirst(a, sep, b);
    SplitPlain(b, sep);
  }

  lemma DashedDenotes(uuid: string, a: nat, b: nat)
    requires Lacks(uuid, ':') && a <= MAX_INT64 && b <= MAX_INT64
    ensures RangeOf(uuid + ":" + Decimal(a) + "-" + Decimal(b)) == [Span(a, b)]
  {
    SplitDashed(uuid, a, b);
    ParsePrinted(a);
    ParsePrinted(b);
  }

  /** A range, one transaction or several, splits at its colon and its dash. */
  lemma SplitRange(uuid: string, span: Span) returns (tail: string)
    requires Lacks(uuid, ':')
    ensures Split(RangeText(uuid, span), ':') == [uuid, tail]
    ensures span.first == span.last ==> tail == Decimal(span.first)
    ensures Split(tail, '-') == if span.first == span.last then [Decimal(span.first)]
                                else [Decimal(span.first), Decimal(span.last)]
  {
    if span.first == span.last {
      tail := Decimal(span.first);
      SplitSingle(uuid, span.first);
      assert RangeText(uuid, span) == uuid + ":" + Decimal(span.first);
    } else {
      tail := Decimal(span.first) + ['-'] + Decimal(span.last);
      SplitDashed(uuid, span.first, span.last);
      assert RangeText(uuid, span) == uuid + ":" + Decimal(span.first) + "-" + Decimal(span.last);
    }
  }

  lemma RangeRoundTrip(uuid: string, span: Span)
    requires Lacks(uuid, ':') && span.first <= MAX_INT64 && span.last <= MAX_INT64
    ensures RangeOf(RangeText(uuid, span)) == [span]
  {
    var tail := SplitRange(uuid, span);
    ParsePrinted(span.first);
    ParsePrinted(span.last);
  }

  /** On one-interval sets the text that getExtendGTIDSet builds stands for the span Extend gives. */
  lemma ExtendTextDenotes(uuid: string, span: Span, target: nat)
    requires Lacks(uuid, ':') && span.first <= target <= span.last <= MAX_INT64
    ensures target in Denote([span])
    ensures var r := ExtendText(RangeText(uuid, span), RangeText(uuid, Span(target, target)));
      |r| == 1 && RangeOf(r[0]) == [Extend([span], target)]
  {
    var gtidSet, gtid := RangeText(uuid, span), RangeText(uuid, Span(target, target));
    assert Denote([span]) == Gtid.Interval(span.first, span.last + 1) + Denote([]);
    if gtidSet == gtid {
      RangeRoundTrip(uuid, Span(target, target));
      RangeRoundTrip(uuid, span);
      assert [span][0] == [Span(target, target)][0];
    } else {
      var tail := SplitRange(uuid, span);
      var tail' := SplitRange(uuid, Span(target, target));
      DashedDenotes(uuid, target, span.last);
    }
  }

  datatype Admission = Admitted | Refused

  /** The check New makes before a transaction recovery. A target without a colon, on which the
      code would panic, is counted as refused. */
  function AdmitTarget(startGTID: string, gtid: string): Admission {
    var start := Split(startGTID, ':');
    var target := Split(gtid, ':');
    if |start| != 2 || |target| < 2 then Refused
    else
      var set_ := Split(start[1], '-');
      var last := ParseInt(set_[if |set_| == 1 then 0 else 1]);
      var transaction := ParseInt(target[1]);
      if last.Invalid? || transaction.Invalid? || transaction.value < last.value then Refused else Admitted
  }

  /** A target is admitted exactly when it is not older than the backup's last transaction. */
  lemma AdmittedExactlyWhen(uuid: string, start: Span, target: nat)
    requires Lacks(uuid, ':') && start.first <= start.last <= MAX_INT64 && target <= MAX_INT64
    ensures AdmitTarget(RangeText(uuid, start), RangeText(uuid, Span(target, target))).Admitted?
       <==> target >= start.last
  {
    var tail := SplitRange(uuid, start);
    var tail' := SplitRange(uuid, Span(target, target));
    ParsePrinted(start.last);
    ParsePrinted(target);
  }
}
