/** Asynchronous replication channels: bringing a channel's failover sources and configuration in
    line with the cluster's spec, and leaving it alone once they are. */
module Replication {
  import opened Options

  datatype Source = Source(host: string, port: int, weight: int)

  predicate HostsDistinct(s: seq<Source>) {
    forall i, j :: 0 <= i < j < |s| ==> s[i].host != s[j].host
  }

  /** The same sources as multisets of host, port and weight, and no host twice. */
  ghost predicate SameSources(wanted: seq<Source>, current: seq<Source>) {
    HostsDistinct(current) && multiset(wanted) == multiset(current)
  }

  function ByHost(s: seq<Source>): map<string, Source> {
    if s == [] then map[] else ByHost(s[..|s| - 1])[s[|s| - 1].host := s[|s| - 1]]
  }

  lemma {:induction false} ByHostFacts(s: seq<Source>)
    ensures forall h :: h in ByHost(s) ==> ByHost(s)[h].host == h && ByHost(s)[h] in s
    ensures forall i :: 0 <= i < |s| ==> s[i].host in ByHost(s)
    ensures HostsDistinct(s) ==> forall i :: 0 <= i < |s| ==> ByHost(s)[s[i].host] == s[i]
  {
    if s != [] {
      var front := s[..|s| - 1];
      ByHostFacts(front);
      assert forall i :: 0 <= i < |front| ==> s[i] == front[i] && front[i].host in ByHost(front);
    }
  }

  lemma HostInFront(s: seq<Source>, h: string)
    ensures h in ByHost(s) <==> exists i :: 0 <= i < |s| && s[i].host == h
  {
    ByHostFacts(s);
    if h in ByHost(s) {
      var i :| 0 <= i < |s| && s[i] == ByHost(s)[h];
    }
  }

  lemma DistinctSnoc(s: seq<Source>)
    requires s != []
    ensures HostsDistinct(s) <==> HostsDistinct(s[..|s| - 1]) && s[|s| - 1].host !in ByHost(s[..|s| - 1])
  {
    var front := s[..|s| - 1];
    HostInFront(front, s[|s| - 1].host);
    assert forall i :: 0 <= i < |front| ==> front[i] == s[i];
  }

  /** A host listed twice leaves the map smaller than the list. */
  lemma {:induction false} ByHostSize(s: seq<Source>)
    ensures |ByHost(s)| <= |s|
    ensures |ByHost(s)| == |s| <==> HostsDistinct(s)
  {
    if s != [] {
      var front := s[..|s| - 1];
      ByHostSize(front);
      DistinctSnoc(s);
      assert ByHost(s).Keys == ByHost(front).Keys + {s[|s| - 1].host};
    }
  }

  lemma {:induction false} DistinctCount(s: seq<Source>, x: Source)
    requires HostsDistinct(s)
    ensures multiset(s)[x] <= 1
  {
    if s != [] {
      var front := s[..|s| - 1];
      assert s == front + [s[|s| - 1]];
      DistinctCount(front, x);
      forall y | y in front ensures y != s[|s| - 1] {
        var i :| 0 <= i < |front| && front[i] == y;
        assert s[i].host != s[|s| - 1].host;
      }
    }
  }

  lemma TwiceCounts(s: seq<Source>, i: nat, j: nat)
    requires i < j < |s| && s[i] == s[j]
    ensures multiset(s)[s[i]] >= 2
  {
    assert s == s[..j] + s[j..];
    assert s[..j][i] in s[..j] && s[j..][0] in s[j..];
  }

  /** Distinct hosts carry over to a permutation. */
  lemma DistinctPermutes(a: seq<Source>, b: seq<Source>)
    requires multiset(a) == multiset(b) && HostsDistinct(b)
    ensures HostsDistinct(a)
  {
    forall i, j | 0 <= i < j < |a| ensures a[i].host != a[j].host {
      assert a[i] in multiset(b) && a[j] in multiset(b);
      var p :| 0 <= p < |b| && b[p] == a[i];
      var q :| 0 <= q < |b| && b[q] == a[j];
      if a[i] == a[j] {
        TwiceCounts(a, i, j);
        DistinctCount(b, a[i]);
      }
    }
  }

  function Drop(b: seq<Source>, q: nat): seq<Source>
    requires q < |b|
  {
    b[..q] + b[q + 1..]
  }

  lemma DropFacts(b: seq<Source>, q: nat)
    requires HostsDistinct(b) && q < |b|
    ensures HostsDistinct(Drop(b, q))
    ensures forall y :: y in b && y != b[q] ==> y in Drop(b, q)
  {
    var b' := Drop(b, q);
    forall i, j | 0 <= i < j < |b'| ensures b'[i].host != b'[j].host {
      assert b'[i] == b[if i < q then i else i + 1] && b'[j] == b[if j < q then j else j + 1];
    }
    forall y | y in b && y != b[q] ensures y in b' {
      var p :| 0 <= p < |b| && b[p] == y;
      assert b'[if p < q then p else p - 1] == y;
    }
  }

  lemma DropCounts(b: seq<Source>, q: nat)
    requires q < |b|
    ensures multiset(b) == multiset(Drop(b, q)) + multiset{b[q]}
  {
    assert b == b[..q] + [b[q]] + b[q + 1..];
  }

  /** Equally many, all found in the other list, no host twice: a permutation. */
  lemma {:induction false} ContainedIsPermutation(a: seq<Source>, b: seq<Source>)
    requires HostsDistinct(a) && HostsDistinct(b) && |a| == |b| && forall x :: x in a ==> x in b
    ensures multiset(a) == multiset(b)
    decreases |a|
  {
    if a != [] {
      assert a[0] in a;
      var q :| 0 <= q < |b| && b[q] == a[0];
      DropFacts(a, 0);
      DropFacts(b, q);
      var a' := Drop(a, 0);
      forall y | y in a' ensures y in Drop(b, q) {
        var i :| 0 <= i < |a'| && a'[i] == y;
        assert a[i + 1] == y && a[i + 1] in a;
      }
      ContainedIsPermutation(a', Drop(b, q));
      DropCounts(a, 0);
      DropCounts(b, q);
    }
  }

  /** The first i wanted sources were each found, and taken out, once. */
  ghost predicate Matched(wanted: seq<Source>, i: nat, all: map<string, Source>, left: map<string, Source>)
    requires i <= |wanted|
  {
    && (forall h :: h in left ==> h in all && left[h] == all[h])
    && (forall j :: 0 <= j < i ==> wanted[j].host in all && all[wanted[j].host] == wanted[j] && wanted[j].host !in left)
    && HostsDistinct(wanted[..i])
    && (forall h :: h in all && h !in left ==> exists j :: 0 <= j < i && wanted[j].host == h)
    && |left| == |all| - i
  }

  lemma DistinctGrows(wanted: seq<Source>, i: nat)
    requires i < |wanted| && HostsDistinct(wanted[..i])
    requires forall j :: 0 <= j < i ==> wanted[j].host != wanted[i].host
    ensures HostsDistinct(wanted[..i + 1])
  {
    var front, more := wanted[..i], wanted[..i + 1];
    forall a, b | 0 <= a < b < |more| ensures more[a].host != more[b].host {
      if b < i { assert front[a].host != front[b].host; }
    }
  }

  /** One more found: the match grows by it. */
  lemma MatchGrows(wanted: seq<Source>, i: nat, all: map<string, Source>, left: map<string, Source>)
    requires i < |wanted| && Matched(wanted, i, all, left)
    requires wanted[i].host in left && left[wanted[i].host] == wanted[i]
    ensures Matched(wanted, i + 1, all, left - {wanted[i].host})
  {
    var next := left - {wanted[i].host};
    assert next.Keys == left.Keys - {wanted[i].host};
    assert HostsDistinct(wanted[..i + 1]) by {
      DistinctGrows(wanted, i);
    }
    forall h | h in all && h !in next ensures exists j :: 0 <= j < i + 1 && wanted[j].host == h {
      if h in left {
        assert wanted[i].host == h;
      } else {
        var j :| 0 <= j < i && wanted[j].host == h;
      }
    }
  }

  /** With the same sources and no host twice, the next wanted source is still left. */
  lemma SameFindsNext(wanted: seq<Source>, i: nat, current: seq<Source>, left: map<string, Source>)
    requires i < |wanted| && Matched(wanted, i, ByHost(current), left) && SameSources(wanted, current)
    ensures wanted[i].host in left && left[wanted[i].host] == wanted[i]
  {
    DistinctPermutes(wanted, current);
    ByHostFacts(current);
    assert wanted[i] in multiset(current);
    var p :| 0 <= p < |current| && current[p] == wanted[i];
    assert ByHost(current)[current[p].host] == wanted[i];
    assert forall j :: 0 <= j < i ==> wanted[j].host != wanted[i].host;
  }

  lemma AllMatched(wanted: seq<Source>, current: seq<Source>, left: map<string, Source>)
    requires |wanted| == |current| && Matched(wanted, |wanted|, ByHost(current), left)
    ensures |left| == 0 <==> SameSources(wanted, current)
  {
    ByHostSize(current);
    ByHostFacts(current);
    assert wanted[..|wanted|] == wanted;
    if |left| == 0 {
      forall x | x in wanted ensures x in current {
        var j :| 0 <= j < |wanted| && wanted[j] == x;
      }
      ContainedIsPermutation(wanted, current);
    }
  }

  /** isSourcesChanged answers false exactly when no current host repeats and both lists hold the
      same sources. */
  method IsSourcesChanged(wanted: seq<Source>, current: seq<Source>) returns (changed: bool)
    ensures changed <==> !SameSources(wanted, current)
  {
    if |wanted| != |current| {
      assert |multiset(wanted)| == |wanted| && |multiset(current)| == |current|;
      return true;
    }
    var left: map<string, Source> := map[];
    for i := 0 to |current|
      invariant left == ByHost(current[..i])
    {
      assert current[..i + 1][..i] == current[..i];
      left := left[current[i].host := current[i]];
    }
    assert current[..|current|] == current;
    for i := 0 to |wanted|
      invariant Matched(wanted, i, ByHost(current), left)
    {
      var v := wanted[i];
      if SameSources(wanted, current) { SameFindsNext(wanted, i, current, left); }
      if v.host !in left {
        return true;
      }
      assert left[v.host].host == v.host by { ByHostFacts(current); }
      if left[v.host].port != v.port || left[v.host].weight != v.weight {
        return true;
      }
      MatchGrows(wanted, i, ByHost(current), left);
      left := left - {v.host};
    }
    AllMatched(wanted, current, left);
    changed := |left| != 0;
  }

  // The server's side of one channel

  /** The failover table of a channel: one row per host and port. */
  type Table = map<(string, int), int>

  function TableOf(s: seq<Source>): Table {
    if s == [] then map[] else var x := s[|s| - 1]; TableOf(s[..|s| - 1])[(x.host, x.port) := x.weight]
  }

  /** rows is what selecting the table may return, in any order. */
  ghost predicate Lists(rows: seq<Source>, table: Table) {
    && (forall i :: 0 <= i < |rows| ==>
         (rows[i].host, rows[i].port) in table && table[(rows[i].host, rows[i].port)] == rows[i].weight)
    && (forall i, j :: 0 <= i < j < |rows| ==> (rows[i].host, rows[i].port) != (rows[j].host, rows[j].port))
    && (forall k :: k in table ==> Remains(rows, 0, k))
    && |rows| == |table|
  }

  lemma {:induction false} TableFacts(s: seq<Source>)
    ensures forall h, p :: (h, p) in TableOf(s) ==> Source(h, p, TableOf(s)[(h, p)]) in s
    ensures HostsDistinct(s) ==> |TableOf(s)| == |s|
  {
    if s != [] {
      var front := s[..|s| - 1];
      var last := s[|s| - 1];
      TableFacts(front);
      if HostsDistinct(s) {
        forall h, p | (h, p) in TableOf(front) ensures h != last.host {
          var i :| 0 <= i < |front| && front[i] == Source(h, p, TableOf(front)[(h, p)]);
          assert s[i].host != last.host;
        }
        assert TableOf(s).Keys == TableOf(front).Keys + {(last.host, last.port)};
      }
    }
  }

  /** After a pass has written the wanted sources, the next one sees no change exactly when the
      wanted hosts are distinct. Otherwise every pass restarts replication. */
  lemma ConvergesExactlyWhen(wanted: seq<Source>, rows: seq<Source>)
    requires Lists(rows, TableOf(wanted))
    ensures SameSources(wanted, rows) <==> HostsDistinct(wanted)
  {
    TableFacts(wanted);
    if SameSources(wanted, rows) {
      DistinctPermutes(wanted, rows);
    }
    if HostsDistinct(wanted) {
      forall i | 0 <= i < |rows| ensures rows[i] in wanted {
        assert Source(rows[i].host, rows[i].port, TableOf(wanted)[(rows[i].host, rows[i].port)]) in wanted;
      }
      forall i, j | 0 <= i < j < |rows| ensures rows[i].host != rows[j].host {
        var p :| 0 <= p < |wanted| && wanted[p] == rows[i];
        var q :| 0 <= q < |wanted| && wanted[q] == rows[j];
      }
      ContainedIsPermutation(rows, wanted);
    }
  }

  datatype Config = Config(retryCount: nat, connectRetry: nat, ssl: bool, skipVerify: bool, ca: string)

  datatype Status = NotInitiated | Active | Error

  datatype Outcome = Ok | Failed | Panicked

  /** Index of the source replication starts from: the last one with a positive weight, else the first. */
  function Chosen(s: seq<Source>): (c: nat)
    requires s != []
    ensures c < |s|
    ensures (exists i :: 0 <= i < |s| && s[i].weight > 0) ==> s[c].weight > 0
    ensures forall i :: c < i < |s| ==> s[i].weight <= 0
    ensures (forall i :: 0 <= i < |s| ==> s[i].weight <= 0) ==> c == 0
  {
    if s[|s| - 1].weight > 0 || |s| == 1 then |s| - 1 else Chosen(s[..|s| - 1])
  }

  /** The name maxWeightSrc promises a heaviest source. With the positive weights MySQL admits, that
      is what is chosen exactly when the last source listed is one of the heaviest. */
  lemma ChosenIsHeaviestExactlyWhen(s: seq<Source>)
    requires s != [] && forall i :: 0 <= i < |s| ==> s[i].weight > 0
    ensures (forall i :: 0 <= i < |s| ==> s[i].weight <= s[Chosen(s)].weight)
            <==> forall i :: 0 <= i < |s| - 1 ==> s[i].weight <= s[|s| - 1].weight
  {
  }

  /** A pass has nothing to do. */
  ghost predicate Quiet(wanted: seq<Source>, rows: seq<Source>, status: Status, config: Config, current: Config) {
    SameSources(wanted, rows) && (status.Error? || (status.Active? && config == current))
  }

  /** The key is among the rows from i on. */
  predicate Remains(rows: seq<Source>, i: nat, k: (string, int)) {
    exists j :: i <= j < |rows| && (rows[j].host, rows[j].port) == k
  }

  lemma RemainsBut(rows: seq<Source>, i: nat)
    requires i < |rows|
    ensures forall k :: Remains(rows, i, k) && k != (rows[i].host, rows[i].port) ==> Remains(rows, i + 1, k)
  {
  }

  /** Which of the statements sent to the server fail, by their number. */
  type Failures = nat -> bool

  /** Some statement issued from number a up to number b fails. */
  ghost predicate FailedBetween(fails: Failures, a: nat, b: nat) {
    exists i: nat :: a <= i < b && fails(i)
  }

  /** One channel as the primary's server has it. */
  class Channel {
    var table: Table
    var status: Status
    var started: Option<(Source, Config)>
    var statements: nat  // changing ones issued so far

    constructor ()
      ensures table == map[] && status == NotInitiated && started == None && statements == 0
    {
      table, status, started, statements := map[], NotInitiated, None, 0;
    }

    method Issue(fails: Failures) returns (ok: bool)
      modifies this`statements
      ensures statements == old(statements) + 1 && (ok <==> !fails(old(statements)))
    {
      ok := !fails(statements);
      statements := statements + 1;
    }

    method DeleteSources(rows: seq<Source>, fails: Failures) returns (ok: bool)
      requires Lists(rows, table)
      modifies this`table, this`statements
      ensures ok ==> table == map[] && !FailedBetween(fails, old(statements), statements)
      ensures old(statements) <= statements
      ensures !ok ==> FailedBetween(fails, old(statements), statements)
    {
      for i := 0 to |rows|
        invariant forall k :: k in table ==> Remains(rows, i, k)
        invariant old(statements) <= statements && !FailedBetween(fails, old(statements), statements)
      {
        var done := Issue(fails);
        if !done { return false; }
        RemainsBut(rows, i);
        table := table - {(rows[i].host, rows[i].port)};
      }
      assert forall k :: !Remains(rows, |rows|, k);
      ok := true;
    }

    method AddSources(wanted: seq<Source>, fails: Failures) returns (ok: bool, heaviest: Source)
      requires wanted != [] && table == map[]
      modifies this`table, this`statements
      ensures ok ==> table == TableOf(wanted) && heaviest == wanted[Chosen(wanted)]
      ensures ok ==> !FailedBetween(fails, old(statements), statements)
      ensures old(statements) <= statements
      ensures !ok ==> FailedBetween(fails, old(statements), statements)
    {
      var maxWeight := 0;
      heaviest := wanted[0];
      for i := 0 to |wanted|
        invariant table == TableOf(wanted[..i])
        invariant old(statements) <= statements && !FailedBetween(fails, old(statements), statements)
        invariant heaviest == if i == 0 then wanted[0] else wanted[Chosen(wanted[..i])]
      {
        assert wanted[..i + 1][..i] == wanted[..i];
        if wanted[i].weight > maxWeight {
          heaviest := wanted[i];
        }
        var done := Issue(fails);
        if !done { return false, heaviest; }
        table := table[(wanted[i].host, wanted[i].port) := wanted[i].weight];
      }
      assert wanted[..|wanted|] == wanted;
      ok := true;
    }

    /** manageReplicationChannel. It fails exactly when a statement it issued does. */
    method Manage(wanted: seq<Source>, config: Config, current: Config, rows: seq<Source>, fails: Failures)
      returns (r: Outcome)
      requires Lists(rows, table)
      modifies this
      ensures Quiet(wanted, rows, old(status), config, current) ==>
        && r.Ok? && table == old(table) && status == old(status)
        && started == old(started) && statements == old(statements)
      ensures !Quiet(wanted, rows, old(status), config, current) && r.Ok? ==>
        && wanted != [] && table == TableOf(wanted) && status == Active
        && started == Some((wanted[Chosen(wanted)], config))
      ensures !Quiet(wanted, rows, old(status), config, current) && old(status).Active? ==> statements > old(statements)
      ensures r.Panicked? ==> wanted == []
      ensures old(statements) <= statements
      ensures r.Failed? <==> FailedBetween(fails, old(statements), statements)
    {
      var changed := IsSourcesChanged(wanted, rows);
      if !changed {
        if status.Error? { return Ok; }
        if status.Active? && config == current { return Ok; }
      }
      r := Rewrite(wanted, config, rows, fails);
    }

    /** Stops replication, replaces all the sources and starts it again. */
    method Rewrite(wanted: seq<Source>, config: Config, rows: seq<Source>, fails: Failures) returns (r: Outcome)
      requires Lists(rows, table)
      modifies this
      ensures r.Ok? ==>
        && wanted != [] && table == TableOf(wanted) && status == Active
        && started == Some((wanted[Chosen(wanted)], config))
      ensures old(status).Active? ==> statements > old(statements)
      ensures r.Panicked? ==> wanted == []
      ensures old(statements) <= statements
      ensures r.Failed? <==> FailedBetween(fails, old(statements), statements)
    {
      if status.Active? {
        var stopped := Issue(fails);
        if !stopped { return Failed; }
        status := NotInitiated;
      }
      var deleted := DeleteSources(rows, fails);
      if !deleted { return Failed; }
      if wanted == [] { return Panicked; }
      var added, source := AddSources(wanted, fails);
      if !added { return Failed; }
      var start := Issue(fails);
      if !start { return Failed; }
      status, started := Active, Some((source, config));
      return Ok;
    }
  }

  // The channel configurations remembered in the cluster's status

  datatype ChannelStatus = ChannelStatus(name: string, config: Config)

  const NO_CONFIG := Config(0, 0, false, false, "")

  /** The configuration of the first entry with the name. */
  function Remembered(channels: seq<ChannelStatus>, name: string): Config {
    if channels == [] then NO_CONFIG
    else if channels[0].name == name then channels[0].config
    else Remembered(channels[1..], name)
  }

  method CurrentReplicaConfig(name: string, channels: Option<seq<ChannelStatus>>) returns (config: Config)
    ensures config == Remembered(if channels.Some? then channels.value else [], name)
  {
    if channels.None? { return NO_CONFIG; }
    var list := channels.value;
    for k := 0 to |list|
      invariant Remembered(list[k..], name) == Remembered(list, name)
    {
      if list[k].name == name { return list[k].config; }
      assert list[k..][1..] == list[k + 1..];
    }
    return NO_CONFIG;
  }

  /** setReplicationChannelStatus: afterwards the name gives its configuration and every other name
      what it gave before. */
  method SetReplicationChannelStatus(channels: Option<seq<ChannelStatus>>, name: string, config: Config)
    returns (result: seq<ChannelStatus>)
    ensures Remembered(result, name) == config
    ensures forall other :: other != name ==>
      Remembered(result, other) == Remembered(if channels.Some? then channels.value else [], other)
  {
    var status := ChannelStatus(name, config);
    if channels.None? {
      assert [status][1..] == [];
      return [status];
    }
    var list := channels.value;
    for k := 0 to |list|
      invariant forall j :: 0 <= j < k ==> list[j].name != name
    {
      if list[k].name == name {
        Replaced(list, k, status);
        return list[k := status];
      }
    }
    Appended(list, status);
    return list + [status];
  }

  lemma {:induction false} Replaced(list: seq<ChannelStatus>, k: nat, status: ChannelStatus)
    requires k < |list| && list[k].name == status.name && forall j :: 0 <= j < k ==> list[j].name != status.name
    ensures Remembered(list[k := status], status.name) == status.config
    ensures forall other :: other != status.name ==> Remembered(list[k := status], other) == Remembered(list, other)
    decreases k
  {
    if k > 0 {
      Replaced(list[1..], k - 1, status);
      assert list[k := status][1..] == list[1..][k - 1 := status];
    } else {
      assert list[0 := status][1..] == list[1..];
    }
  }

  lemma {:induction false} Appended(list: seq<ChannelStatus>, status: ChannelStatus)
    requires forall j :: 0 <= j < |list| ==> list[j].name != status.name
    ensures Remembered(list + [status], status.name) == status.config
    ensures forall other :: other != status.name ==> Remembered(list + [status], other) == Remembered(list, other)
  {
    if list == [] {
      assert (list + [status])[1..] == [];
    } else {
      Appended(list[1..], status);
      assert (list + [status])[1..] == list[1..] + [status];
    }
  }

  lemma ListedInBoth(rows: seq<Source>, again: seq<Source>, table: Table, i: nat)
    requires Lists(rows, table) && Lists(again, table) && i < |again|
    ensures again[i] in rows
  {
    var k := (again[i].host, again[i].port);
    assert Remains(rows, 0, k);
    var j :| 0 <= j < |rows| && (rows[j].host, rows[j].port) == k;
    assert rows[j] == again[i];
  }

  /** Rows read twice from one table are the same sources. */
  lemma SameTableSameSources(wanted: seq<Source>, rows: seq<Source>, again: seq<Source>, table: Table)
    requires Lists(rows, table) && Lists(again, table) && SameSources(wanted, rows)
    ensures SameSources(wanted, again)
  {
    forall i | 0 <= i < |again| ensures again[i] in rows {
      ListedInBoth(rows, again, table, i);
    }
    forall i, j | 0 <= i < j < |again| ensures again[i].host != again[j].host {
      assert again[i] in rows && again[j] in rows;
      var p :| 0 <= p < |rows| && rows[p] == again[i];
      var q :| 0 <= q < |rows| && rows[q] == again[j];
    }
    ContainedIsPermutation(again, rows);
  }

  /** Selecting a table gives its rows in some order. */
  type Select = Table -> seq<Source>

  /** One pass over one channel: look up what is remembered, manage, and remember. */
  method Pass(channel: Channel, name: string, wanted: seq<Source>, config: Config,
              remembered: Option<seq<ChannelStatus>>, select: Select, fails: Failures)
    returns (r: Outcome, after: Option<seq<ChannelStatus>>)
    requires Lists(select(channel.table), channel.table)
    modifies channel
    ensures var current := Remembered(if remembered.Some? then remembered.value else [], name);
      Quiet(wanted, select(old(channel.table)), old(channel.status), config, current) ==>
        && r.Ok? && channel.table == old(channel.table) && channel.status == old(channel.status)
        && channel.statements == old(channel.statements)
    ensures var current := Remembered(if remembered.Some? then remembered.value else [], name);
      !Quiet(wanted, select(old(channel.table)), old(channel.status), config, current) ==>
        && (r.Ok? ==> wanted != [] && channel.table == TableOf(wanted) && channel.status == Active)
        && (old(channel.status).Active? ==> channel.statements > old(channel.statements))
    ensures r.Ok? ==> after.Some? && Remembered(after.value, name) == config
    ensures !r.Ok? ==> after == remembered
  {
    var current := CurrentReplicaConfig(name, remembered);
    r := channel.Manage(wanted, config, current, select(channel.table), fails);
    after := remembered;
    if r.Ok? {
      var list := SetReplicationChannelStatus(remembered, name, config);
      after := Some(list);
    }
  }

  /** Two passes with nothing changed in between. When the first succeeds, the second, whatever order
      it reads the rows in, issues no statement exactly when the wanted hosts are distinct. */
  method TwoPasses(channel: Channel, name: string, wanted: seq<Source>, config: Config,
                   remembered: Option<seq<ChannelStatus>>, select: Select, again: Select, fails: Failures)
    returns (first: Outcome, second: Outcome, ghost between: nat)
    requires Lists(select(channel.table), channel.table)
    requires forall t :: Lists(again(t), t)
    modifies channel
    ensures first.Ok? ==> (channel.statements == between <==> HostsDistinct(wanted))
    ensures first.Ok? && HostsDistinct(wanted) ==> second.Ok?
  {
    ghost var rows, table := select(channel.table), channel.table;
    var after;
    first, after := Pass(channel, name, wanted, config, remembered, select, fails);
    between, second := channel.statements, first;
    if !first.Ok? { return; }
    ghost var reread := again(channel.table);
    assert Lists(reread, channel.table);
    if channel.table == table && SameSources(wanted, rows) {
      SameTableSameSources(wanted, rows, reread, table);
      DistinctPermutes(wanted, rows);
    }
    if channel.table == TableOf(wanted) {
      ConvergesExactlyWhen(wanted, reread);
    }
    second, after := Pass(channel, name, wanted, config, after, again, fails);
  }
}
