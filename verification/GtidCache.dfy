/** The collector's cache of GTID sets: host by host, binlog by binlog, kept in the bucket so that
    a run asks the server only about binlogs it has not seen. */
module GtidCache {
  import opened Options
  import opened Gtid
  import opened Collector

  type Host = nat
  type Entry = map<string, GtidSet>
  type Cache = map<Host, Entry>

  /** What the server has for a binlog file. Reading a Corrupt one reports error 3200; a Purged one has
      expired and is no longer listed, but its name is not used again. */
  datatype File = Closed(gtidSet: GtidSet) | Corrupt | Purged

  type Database = map<Host, map<string, File>>

  datatype Reply = Value(gtidSet: GtidSet) | Invalid3200 | OtherError

  /** A direct read: empty for a corrupt file, and for one that no longer exists. */
  function Direct(db: Database, host: Host, name: string): GtidSet {
    if host in db && name in db[host] && db[host][name].Closed? then db[host][name].gtidSet else {}
  }

  predicate There(db: Database, host: Host, name: string) {
    host in db && name in db[host] && !db[host][name].Purged?
  }

  predicate IsCorrupt(db: Database, host: Host, name: string) {
    host in db && name in db[host] && db[host][name].Corrupt?
  }

  /** GetGTIDSet; failing are the files whose read goes wrong in some other way during this run. */
  function Read(db: Database, host: Host, name: string, failing: set<string>): (r: Reply)
    ensures r.Value? ==> r.gtidSet == Direct(db, host, name)
    ensures r.OtherError? <==> name in failing
  {
    if name in failing then OtherError
    else if IsCorrupt(db, host, name) then Invalid3200
    else Value(Direct(db, host, name))
  }

  /** Every cached set of a file that still exists is what a direct read would give. */
  ghost predicate Faithful(cache: Cache, db: Database) {
    forall h :: h in cache ==> EntryFaithful(cache[h], db, h)
  }

  ghost predicate EntryFaithful(entry: Entry, db: Database, host: Host) {
    forall n :: n in entry && There(db, host, n) ==> entry[n] == Direct(db, host, n)
  }

  /** The host's entry after the cached branch went over the names. A failed read is cached as empty. */
  function Extended(entry: Entry, db: Database, host: Host, names: seq<string>, failing: set<string>): Entry
    decreases |names|
  {
    if names == [] then entry
    else Learned(Extended(entry, db, host, names[..|names| - 1], failing), db, host, names[|names| - 1], failing)
  }

  function Learned(entry: Entry, db: Database, host: Host, name: string, failing: set<string>): Entry {
    if name in entry || Read(db, host, name, failing).Invalid3200? then entry
    else entry[name := if name in failing then {} else Direct(db, host, name)]
  }

  /** Exactly the listed names that can be read are added, each with what was read. */
  lemma {:induction false} ExtendedFacts(
    entry: Entry, db: Database, host: Host, names: seq<string>, failing: set<string>)
    ensures var r := Extended(entry, db, host, names, failing);
      && (forall n :: n in entry ==> n in r && r[n] == entry[n])
      && (forall n :: n in r && n !in entry ==>
           n in names && n !in entry && r[n] == Assigned(entry, db, host, n, failing))
      && (forall n :: n in names && n !in r ==> n !in failing && IsCorrupt(db, host, n))
    decreases |names|
  {
    if names != [] {
      ExtendedFacts(entry, db, host, names[..|names| - 1], failing);
    }
  }

  lemma ExtendedNext(entry: Entry, db: Database, host: Host, names: seq<string>, i: nat, failing: set<string>)
    requires i < |names|
    ensures var before := Extended(entry, db, host, names[..i], failing);
      && Extended(entry, db, host, names[..i + 1], failing) == Learned(before, db, host, names[i], failing)
      && (names[i] in before ==> before[names[i]] == Assigned(entry, db, host, names[i], failing))
      && (names[i] !in before ==> names[i] !in entry)
  {
    assert names[..i + 1][..i] == names[..i];
    ExtendedFacts(entry, db, host, names[..i], failing);
  }

  function NamesOf(logs: seq<Binlog>): (r: seq<string>)
    ensures |r| == |logs| && forall i :: 0 <= i < |logs| ==> r[i] == logs[i].name
  {
    seq(|logs|, i requires 0 <= i < |logs| => logs[i].name)
  }

  /** What the cached branch assigns to one binlog. */
  function Assigned(entry: Entry, db: Database, host: Host, name: string, failing: set<string>): GtidSet {
    if name in entry then entry[name]
    else if name in failing then {} else Direct(db, host, name)
  }

  /** The outcome of addGTIDSets: whether it succeeds and what the bucket then holds. */
  function Outcome(cache: Cache, db: Database, host: Host, names: seq<string>, failing: set<string>, saves: bool)
    : (bool, Cache)
  {
    if host in cache then
      var entry := Extended(cache[host], db, host, names, failing);
      if entry == cache[host] then (true, cache)
      else if saves then (true, cache[host := entry]) else (false, cache)
    else if (exists n :: n in names && n in failing) || !saves then (false, cache)
    else (true, cache[host := Extended(map[], db, host, names, {})])
  }

  class Process {
    var saved: Cache  // the cache object in the bucket

    constructor ()
      ensures saved == map[]
    {
      saved := map[];
    }

    /** The branch for a host that has an entry. */
    method FillFromCache(entry: Entry, db: Database, host: Host, binlogs: array<Binlog>, failing: set<string>)
      returns (hostCache: Entry, needsUpdate: bool)
      requires forall i :: 0 <= i < binlogs.Length ==> binlogs[i].gtidSet == {}
      modifies binlogs
      ensures hostCache == Extended(entry, db, host, NamesOf(old(binlogs[..])), failing)
      ensures needsUpdate <==> hostCache != entry
      ensures forall i :: 0 <= i < binlogs.Length ==>
        binlogs[i] == old(binlogs[i]).(gtidSet := Assigned(entry, db, host, old(binlogs[i]).name, failing))
    {
      hostCache, needsUpdate := entry, false;
      ghost var names := NamesOf(binlogs[..]);
      for i := 0 to binlogs.Length
        invariant hostCache == Extended(entry, db, host, names[..i], failing)
        invariant needsUpdate <==> hostCache != entry
        invariant forall j :: i <= j < binlogs.Length ==> binlogs[j] == old(binlogs[j])
        invariant forall j :: 0 <= j < i ==>
          binlogs[j] == old(binlogs[j]).(gtidSet := Assigned(entry, db, host, old(binlogs[j]).name, failing))
      {
        var name := binlogs[i].name;
        ExtendedNext(entry, db, host, names, i, failing);
        if name in hostCache {
          binlogs[i] := binlogs[i].(gtidSet := hostCache[name]);
        } else {
          var reply := Read(db, host, name, failing);
          if reply.Invalid3200? { continue; }
          var gtidSet := if reply.Value? then reply.gtidSet else {};  // other errors are not looked at
          hostCache := hostCache[name := gtidSet];
          needsUpdate := true;
          binlogs[i] := binlogs[i].(gtidSet := gtidSet);
        }
      }
      assert names[..binlogs.Length] == names;
    }

    /** The branch for a host seen for the first time. */
    method FillDirectly(db: Database, host: Host, binlogs: array<Binlog>, failing: set<string>)
      returns (ok: bool, hostCache: Entry)
      requires forall i :: 0 <= i < binlogs.Length ==> binlogs[i].gtidSet == {}
      modifies binlogs
      ensures ok <==> forall i :: 0 <= i < binlogs.Length ==> old(binlogs[i]).name !in failing
      ensures ok ==> hostCache == Extended(map[], db, host, NamesOf(old(binlogs[..])), {})
      ensures ok ==> forall i :: 0 <= i < binlogs.Length ==>
        binlogs[i] == old(binlogs[i]).(gtidSet := Direct(db, host, old(binlogs[i]).name))
    {
      hostCache := map[];
      ghost var names := NamesOf(binlogs[..]);
      for i := 0 to binlogs.Length
        invariant hostCache == Extended(map[], db, host, names[..i], {})
        invariant forall j :: 0 <= j < i ==> old(binlogs[j]).name !in failing
        invariant forall j :: i <= j < binlogs.Length ==> binlogs[j] == old(binlogs[j])
        invariant forall j :: 0 <= j < i ==>
          binlogs[j] == old(binlogs[j]).(gtidSet := Direct(db, host, old(binlogs[j]).name))
      {
        var name := binlogs[i].name;
        ExtendedNext(map[], db, host, names, i, {});
        var reply := Read(db, host, name, failing);
        if reply.Invalid3200? { continue; }
        if reply.OtherError? { return false, hostCache; }
        binlogs[i] := binlogs[i].(gtidSet := reply.gtidSet);
        hostCache := hostCache[name := reply.gtidSet];
      }
      assert names[..binlogs.Length] == names;
      ok := true;
    }

    /** Loads the cache, assigns a GTID set to every listed binlog and saves what it learned. */
    method AddGTIDSets(db: Database, host: Host, binlogs: array<Binlog>, failing: set<string>, saves: bool)
      returns (ok: bool)
      requires forall i :: 0 <= i < binlogs.Length ==> binlogs[i].gtidSet == {}
      modifies this, binlogs
      ensures (ok, saved) == Outcome(old(saved), db, host, NamesOf(old(binlogs[..])), failing, saves)
      ensures ok ==> forall i :: 0 <= i < binlogs.Length ==>
        binlogs[i] == old(binlogs[i]).(gtidSet :=
          if host in old(saved) then Assigned(old(saved)[host], db, host, old(binlogs[i]).name, failing)
          else Direct(db, host, old(binlogs[i]).name))
    {
      ghost var names := NamesOf(binlogs[..]);
      if host in saved {
        var hostCache, needsUpdate := FillFromCache(saved[host], db, host, binlogs, failing);
        if needsUpdate {
          if !saves { return false; }
          saved := saved[host := hostCache];
        }
        return true;
      }
      var read, hostCache := FillDirectly(db, host, binlogs, failing);
      assert read <==> !exists n :: n in names && n in failing;
      if !read || !saves { return false; }
      saved := saved[host := hostCache];
      return true;
    }

    /** InvalidateCache: drops one host's entry, an error if there is none. */
    method Invalidate(host: Host, saves: bool) returns (ok: bool)
      modifies this
      ensures ok <==> host in old(saved) && saves
      ensures saved == if ok then old(saved) - {host} else old(saved)
    {
      if host !in saved { return false; }
      if !saves { return false; }
      saved := saved - {host};
      return true;
    }
  }

  /** Some binlog whose set is not empty would be cached as empty. */
  ghost predicate Swallows(cache: Cache, db: Database, host: Host, names: seq<string>, failing: set<string>) {
    host in cache && exists n :: n in names && n in failing && n !in cache[host] && Direct(db, host, n) != {}
  }

  /** A file that is gone is listed all the same, and its set is still cached. */
  ghost predicate ListsGone(cache: Cache, db: Database, host: Host, names: seq<string>) {
    host in cache && exists n :: n in names && n in cache[host] && !There(db, host, n) && cache[host][n] != {}
  }

  /** What a run assigns equals a direct read for every listed binlog exactly when no failing read of an
      uncached, non-empty binlog is swallowed and no file purged since it was cached is listed. */
  lemma AssignsDirectExactlyWhen(cache: Cache, db: Database, host: Host, names: seq<string>, failing: set<string>)
    requires Faithful(cache, db) && host in cache
    ensures (forall n :: n in names ==> Assigned(cache[host], db, host, n, failing) == Direct(db, host, n))
            <==> !Swallows(cache, db, host, names, failing) && !ListsGone(cache, db, host, names)
  {
    assert EntryFaithful(cache[host], db, host);
  }

  /** A run whose save succeeds leaves a faithful cache exactly under the same condition. */
  lemma StaysFaithfulExactlyWhen(cache: Cache, db: Database, host: Host, names: seq<string>, failing: set<string>)
    requires Faithful(cache, db)
    ensures Faithful(Outcome(cache, db, host, names, failing, true).1, db)
       <==> !Swallows(cache, db, host, names, failing)
  {
    var after := Outcome(cache, db, host, names, failing, true).1;
    if host in cache {
      assert EntryFaithful(cache[host], db, host);
      var entry := Extended(cache[host], db, host, names, failing);
      ExtendedFacts(cache[host], db, host, names, failing);
      if n :| n in names && n in failing && n !in cache[host] && Direct(db, host, n) != {} {
        assert n in entry && entry[n] == {};
        assert !EntryFaithful(after[host], db, host);
      }
    }
    ExtendedFacts(map[], db, host, names, {});
    if !Swallows(cache, db, host, names, failing) {
      forall h | h in after ensures EntryFaithful(after[h], db, h) {
        if h in cache { assert EntryFaithful(cache[h], db, h); }
      }
    }
  }

  lemma UnsavedStaysFaithful(cache: Cache, db: Database, host: Host, names: seq<string>, failing: set<string>)
    ensures Outcome(cache, db, host, names, failing, false).1 == cache
  {
  }

  /** After a successful run every listed binlog is cached, except files that report 3200: the next
      run asks the server about nothing else. */
  lemma RunRemembers(
    cache: Cache, db: Database, host: Host, names: seq<string>, failing: set<string>, saves: bool, n: string)
    requires n in names && Outcome(cache, db, host, names, failing, saves).0
    ensures var after := Outcome(cache, db, host, names, failing, saves).1;
      host in after && (n in after[host] || IsCorrupt(db, host, n))
  {
    if host in cache {
      ExtendedFacts(cache[host], db, host, names, failing);
    } else {
      ExtendedFacts(map[], db, host, names, {});
    }
  }

  // Histories

  function FilesOf(db: Database, host: Host): map<string, File> {
    if host in db then db[host] else map[]
  }

  /** Runs against any hosts that list files these have, invalidations, servers that go on to a new
      binlog or purge an expired one, and servers whose binlogs start over. */
  datatype Op =
    | Run(host: Host, names: seq<string>, failing: set<string>, saves: bool)
    | Drop(host: Host, saves: bool)
    | Rotate(host: Host, name: string, file: File)
    | Purge(host: Host, name: string)
    | StartOver(host: Host, files: map<string, File>)

  datatype World = World(cache: Cache, db: Database)

  const START := World(map[], map[])

  /** What SHOW BINARY LOGS may list: at least one file, and only files that exist. */
  predicate Exist(db: Database, host: Host, names: seq<string>) {
    names != [] && forall i :: 0 <= i < |names| ==> There(db, host, names[i])
  }

  function Apply(w: World, op: Op): World {
    match op
    case Run(host, names, failing, saves) =>
      if Exist(w.db, host, names) then w.(cache := Outcome(w.cache, w.db, host, names, failing, saves).1) else w
    case Drop(host, saves) => if saves then w.(cache := w.cache - {host}) else w
    case Rotate(host, name, file) =>
      // a server does not use a name twice
      if name in FilesOf(w.db, host) then w else w.(db := w.db[host := FilesOf(w.db, host)[name := file]])
    case Purge(host, name) =>
      if name in FilesOf(w.db, host) then w.(db := w.db[host := FilesOf(w.db, host)[name := Purged]]) else w
    case StartOver(host, files) => w.(db := w.db[host := files])
  }

  function Continue(w: World, ops: seq<Op>): World {
    if ops == [] then w else Apply(Continue(w, ops[..|ops| - 1]), ops[|ops| - 1])
  }

  ghost predicate FaithfulWorld(w: World) {
    Faithful(w.cache, w.db)
  }

  /** What an operation must not do: swallow a failing read and save, or change the files of a cached
      host under the names that are cached. */
  ghost predicate Sound(w: World, op: Op) {
    match op
    case Run(host, names, failing, saves) =>
      !saves || !Exist(w.db, host, names) || !Swallows(w.cache, w.db, host, names, failing)
    case Drop(_, _) => true
    case Rotate(host, name, file) =>
      host in w.cache && name in w.cache[host] && name !in FilesOf(w.db, host) && !file.Purged? ==>
        w.cache[host][name] == Direct(map[host := map[name := file]], host, name)
    case Purge(_, _) => true
    case StartOver(host, files) =>
      host in w.cache ==> EntryFaithful(w.cache[host], map[host := files], host)
  }

  lemma OthersUntouched(w: World, host: Host, files: map<string, File>, h: Host)
    requires h != host && h in w.cache
    ensures EntryFaithful(w.cache[h], w.db[host := files], h) <==> EntryFaithful(w.cache[h], w.db, h)
  {
    assert forall n :: Direct(w.db[host := files], h, n) == Direct(w.db, h, n);
    assert forall n :: There(w.db[host := files], h, n) == There(w.db, h, n);
  }

  /** One operation keeps the cache faithful exactly when it is sound. */
  lemma StepFaithfulExactlyWhen(w: World, op: Op)
    requires FaithfulWorld(w)
    ensures FaithfulWorld(Apply(w, op)) <==> Sound(w, op)
  {
    match op {
      case Run(host, names, failing, saves) =>
        StaysFaithfulExactlyWhen(w.cache, w.db, host, names, failing);
        UnsavedStaysFaithful(w.cache, w.db, host, names, failing);
      case Drop(_, _) =>
      case Rotate(host, name, file) =>
        if name !in FilesOf(w.db, host) {
          RotateFaithfulExactlyWhen(w, host, name, file);
        }
      case Purge(host, name) =>
        if name in FilesOf(w.db, host) {
          PurgeKeepsFaithful(w, host, name);
        }
      case StartOver(host, files) =>
        var db := w.db[host := files];
        forall h | h in w.cache && h != host ensures EntryFaithful(w.cache[h], db, h) {
          OthersUntouched(w, host, files, h);
        }
        assert forall n :: Direct(db, host, n) == Direct(map[host := files], host, n);
        assert forall n :: There(db, host, n) == There(map[host := files], host, n);
        if host in w.cache {
          assert EntryFaithful(w.cache[host], db, host) <==> EntryFaithful(w.cache[host], map[host := files], host);
        }
    }
  }

  lemma RotateFaithfulExactlyWhen(w: World, host: Host, name: string, file: File)
    requires FaithfulWorld(w) && name !in FilesOf(w.db, host)
    ensures FaithfulWorld(Apply(w, Rotate(host, name, file))) <==> Sound(w, Rotate(host, name, file))
  {
    var files := FilesOf(w.db, host)[name := file];
    var db := w.db[host := files];
    forall h | h in w.cache && h != host ensures EntryFaithful(w.cache[h], db, h) {
      OthersUntouched(w, host, files, h);
    }
    assert Direct(db, host, name) == Direct(map[host := map[name := file]], host, name);
    assert forall n :: n != name ==> Direct(db, host, n) == Direct(w.db, host, n);
    assert forall n :: n != name ==> There(db, host, n) == There(w.db, host, n);
    if host in w.cache {
      assert EntryFaithful(w.cache[host], w.db, host);
    }
  }

  lemma PurgeKeepsFaithful(w: World, host: Host, name: string)
    requires FaithfulWorld(w) && name in FilesOf(w.db, host)
    ensures FaithfulWorld(Apply(w, Purge(host, name)))
  {
    var files := FilesOf(w.db, host)[name := Purged];
    var db := w.db[host := files];
    forall h | h in w.cache ensures EntryFaithful(w.cache[h], db, h) {
      if h != host {
        OthersUntouched(w, host, files, h);
      } else {
        assert EntryFaithful(w.cache[host], w.db, host);
        assert forall n :: n != name ==> Direct(db, host, n) == Direct(w.db, host, n);
        assert forall n :: n != name ==> There(db, host, n) == There(w.db, host, n);
      }
    }
  }

  /** What the collector and the operator do when reads succeed or report 3200 and a host is
      invalidated before its binlogs start over. */
  ghost predicate Orderly(w: World, ops: seq<Op>) {
    if ops == [] then true
    else
      var front, op := ops[..|ops| - 1], ops[|ops| - 1];
      && Orderly(w, front)
      && (op.Run? ==> op.failing == {})
      && (op.StartOver? ==> op.host !in Continue(w, front).cache)
  }

  /** Only names that the host has are cached. */
  ghost predicate Known(w: World) {
    forall h, n :: h in w.cache && n in w.cache[h] ==> n in FilesOf(w.db, h)
  }

  lemma RunKeepsKnown(w: World, host: Host, names: seq<string>, failing: set<string>, saves: bool)
    requires Known(w) && Exist(w.db, host, names)
    ensures Known(Apply(w, Run(host, names, failing, saves)))
  {
    var w' := Apply(w, Run(host, names, failing, saves));
    if host in w.cache { ExtendedFacts(w.cache[host], w.db, host, names, failing); }
    ExtendedFacts(map[], w.db, host, names, {});
    forall h, n | h in w'.cache && n in w'.cache[h] ensures n in FilesOf(w'.db, h) {
      if h in w.cache && n in w.cache[h] {
      } else {
        assert h == host && n in names;
        var i :| 0 <= i < |names| && names[i] == n;
      }
    }
  }

  /** Over every such history, with binlogs added and purged at any time, every cached set of a file that
      exists is what a direct read gives. */
  lemma {:induction false} HistoryFaithful(ops: seq<Op>)
    requires Orderly(START, ops)
    ensures FaithfulWorld(Continue(START, ops)) && Known(Continue(START, ops))
    decreases |ops|
  {
    if ops != [] {
      var front, op := ops[..|ops| - 1], ops[|ops| - 1];
      HistoryFaithful(front);
      var w := Continue(START, front);
      StepFaithfulExactlyWhen(w, op);
      if op.Run? && Exist(w.db, op.host, op.names) {
        RunKeepsKnown(w, op.host, op.names, op.failing, op.saves);
      }
      assert Sound(w, op);
    }
  }

  /** So after every such history both branches assign what a direct read gives. */
  lemma EveryRunAssignsDirect(ops: seq<Op>, host: Host, names: seq<string>, n: string)
    requires Orderly(START, ops) && host in Continue(START, ops).cache
    requires n in names && Exist(Continue(START, ops).db, host, names)
    ensures var w := Continue(START, ops); Assigned(w.cache[host], w.db, host, n, {}) == Direct(w.db, host, n)
  {
    HistoryFaithful(ops);
    var w := Continue(START, ops);
    AssignsDirectExactlyWhen(w.cache, w.db, host, names, {});
  }

  // A wrong entry

  predicate Drops(ops: seq<Op>, host: Host) {
    exists i :: 0 <= i < |ops| && ops[i] == Drop(host, true)
  }

  ghost predicate Caches(w: World, host: Host, name: string, gtids: GtidSet) {
    host in w.cache && name in w.cache[host] && w.cache[host][name] == gtids
  }

  /** A cached set changes under no operation but an invalidation of its host. */
  lemma {:induction false} EntriesStay(w: World, ops: seq<Op>, host: Host, name: string, gtids: GtidSet)
    requires Caches(w, host, name, gtids) && !Drops(ops, host)
    ensures Caches(Continue(w, ops), host, name, gtids)
    decreases |ops|
  {
    if ops != [] {
      var front, op := ops[..|ops| - 1], ops[|ops| - 1];
      assert forall i :: 0 <= i < |front| ==> front[i] == ops[i];
      EntriesStay(w, front, host, name, gtids);
      var v := Continue(w, front);
      if op.Run? {
        ExtendedFacts(v.cache[host], v.db, host, op.names, op.failing);
      }
    }
  }

  lemma ContinueAppend(w: World, ops: seq<Op>, op: Op)
    ensures Continue(w, ops + [op]) == Apply(Continue(w, ops), op)
  {
    assert (ops + [op])[..|ops|] == ops;
  }

  /** For any host, files and non-empty set: the host, whose first file is empty, gets an entry, goes on
      to the other file, and the read of that fails. From then on it is cached as empty while the server
      has the set, through every later run, until the host is invalidated. */
  lemma SwallowedErrorStays(host: Host, first: string, name: string, gtids: GtidSet) returns (ops: seq<Op>)
    requires gtids != {} && first != name
    ensures var w := Continue(START, ops);
      && Caches(w, host, name, {}) && Direct(w.db, host, name) == gtids
      && (forall later :: !Drops(later, host) ==> Caches(Continue(w, later), host, name, {}))
  {
    var w1 := FirstEntry(host, first);
    var begun := [Rotate(host, first, Closed({})), Run(host, [first], {}, true)];
    var b, c := Rotate(host, name, Closed(gtids)), Run(host, [first, name], {name}, true);
    ops := begun + [b] + [c];
    ContinueAppend(START, begun, b);
    ContinueAppend(START, begun + [b], c);
    var w2 := World(map[host := map[first := {}]], map[host := map[first := Closed({}), name := Closed(gtids)]]);
    assert Continue(START, begun + [b]) == w2;
    ExtendedFacts(w2.cache[host], w2.db, host, [first, name], {name});
    assert name in [first, name] && Exist(w2.db, host, [first, name]);
    var w := Continue(START, ops);
    assert Caches(w, host, name, {});
    forall later | !Drops(later, host) ensures Caches(Continue(w, later), host, name, {}) {
      EntriesStay(w, later, host, name, {});
    }
  }

  lemma FirstEntry(host: Host, first: string) returns (w: World)
    ensures w == Continue(START, [Rotate(host, first, Closed({})), Run(host, [first], {}, true)])
    ensures w == World(map[host := map[first := {}]], map[host := map[first := Closed({})]])
  {
    var a, b := Rotate(host, first, Closed({})), Run(host, [first], {}, true);
    assert [] + [a] + [b] == [a, b];
    ContinueAppend(START, [], a);
    ContinueAppend(START, [] + [a], b);
    var w0 := World(map[], map[host := map[first := Closed({})]]);
    assert Continue(START, [] + [a]) == w0;
    assert [first][..0] == [];
    assert Extended(map[], w0.db, host, [first], {}) == Learned(map[], w0.db, host, first, {});
    w := Continue(START, [a, b]);
  }
}
