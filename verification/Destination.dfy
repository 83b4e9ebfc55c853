/** Backup destinations: what the setters print and what the accessors read back. */
module Destination {
  import opened GoStrings

  const AZURE_PREFIX := "azure://"
  const S3_PREFIX := "s3://"
  const PVC_PREFIX := "pvc/"

  function CleanOne(p: string, rooted: bool, done: seq<string>): seq<string> {
    if p == "" || p == "." then done
    else if p != ".." then done + [p]
    else if done != [] && done[|done| - 1] != ".." then done[..|done| - 1]
    else if rooted then done
    else done + [p]
  }

  /** The loop of path.Clean over slash-separated components. */
  function CleanComponents(parts: seq<string>, rooted: bool, done: seq<string>): seq<string> {
    if parts == [] then done else CleanComponents(parts[1..], rooted, CleanOne(parts[0], rooted, done))
  }

  /** path.Clean */
  function Clean(p: string): string {
    if p == "" then "."
    else
      var rooted := p[0] == '/';
      var body := Join(CleanComponents(Split(p, '/'), rooted, []), '/');
      if rooted then "/" + body else if body == "" then "." else body
  }

  /** path.Join */
  function PathJoin(elems: seq<string>): string {
    if elems == [] then ""
    else if elems[0] == "" then PathJoin(elems[1..])
    else Clean(Join(elems, '/'))
  }

  function StorageTypePrefix(dest: string): string {
    if HasPrefix(dest, S3_PREFIX) then S3_PREFIX
    else if HasPrefix(dest, AZURE_PREFIX) then AZURE_PREFIX
    else if HasPrefix(dest, PVC_PREFIX) then PVC_PREFIX
    else ""
  }

  function BucketAndPrefix(dest: string): (string, string) {
    var (bucket, left) := Cut(TrimPrefix(dest, StorageTypePrefix(dest)), '/');
    (bucket, PrefixFrom(Split(left, '/')))
  }

  function PrefixFrom(spl: seq<string>): string {
    if |spl| > 1 then TrimSuffix(PathJoin(spl[..|spl| - 1]), "/") + "/" else ""
  }

  function BackupName(dest: string): string {
    var prefix := StorageTypePrefix(dest);
    if prefix == PVC_PREFIX then TrimPrefix(dest, prefix)
    else
      var (bucket, path) := BucketAndPrefix(dest);
      TrimPrefix(TrimPrefix(dest, prefix + PathJoin([bucket, path])), "/")
  }

  function PathWithoutBucket(dest: string): string {
    PathJoin([BucketAndPrefix(dest).1, BackupName(dest)])
  }

  /** How a storage spec splits its own bucket or container path. */
  function SpecBucketAndPrefix(path: string): (string, string) {
    var (bucket, prefix) := Cut(path, '/');
    (bucket, if prefix != "" then TrimSuffix(prefix, "/") + "/" else prefix)
  }

  class Field {
    var value: string

    method SetPVCDestination(backupName: string)
      modifies this
      ensures StorageTypePrefix(value) == PVC_PREFIX && BackupName(value) == backupName
    {
      value := PVC_PREFIX + backupName;
      assert value[0] == 'p' && S3_PREFIX[0] == 's' && AZURE_PREFIX[0] == 'a';
    }

    /** For every path of clean components and every slash-free name the destination reads back. */
    method SetS3Destination(bucket: string, backupName: string)
      modifies this
      ensures value == S3_PREFIX + bucket + "/" + backupName
      ensures Lacks(backupName, '/') && CleanPath(Split(bucket, '/')) ==>
        ReadsBack(value, S3_PREFIX, Split(bucket, '/'), backupName)
    {
      value := S3_PREFIX + bucket + "/" + backupName;
      if Lacks(backupName, '/') && CleanPath(Split(bucket, '/')) {
        JoinSplit(bucket, '/');
        DestinationRoundTrip(S3_PREFIX, Split(bucket, '/'), backupName);
      }
    }

    method SetAzureDestination(container: string, backupName: string)
      modifies this
      ensures value == AZURE_PREFIX + container + "/" + backupName
      ensures Lacks(backupName, '/') && CleanPath(Split(container, '/')) ==>
        ReadsBack(value, AZURE_PREFIX, Split(container, '/'), backupName)
    {
      value := AZURE_PREFIX + container + "/" + backupName;
      if Lacks(backupName, '/') && CleanPath(Split(container, '/')) {
        JoinSplit(container, '/');
        DestinationRoundTrip(AZURE_PREFIX, Split(container, '/'), backupName);
      }
    }
  }

  predicate CleanName(c: string) {
    c != "" && c != "." && c != ".." && Lacks(c, '/')
  }

  predicate CleanPath(comps: seq<string>) {
    comps != [] && forall i :: 0 <= i < |comps| ==> CleanName(comps[i])
  }

  function PrefixOf(comps: seq<string>): string
    requires comps != []
  {
    if |comps| == 1 then "" else Join(comps[1..], '/') + "/"
  }

  predicate ReadsBack(dest: string, kind: string, comps: seq<string>, name: string)
    requires comps != []
  {
    && StorageTypePrefix(dest) == kind
    && BucketAndPrefix(dest) == (comps[0], PrefixOf(comps))
    && BackupName(dest) == name
    && SpecBucketAndPrefix(Join(comps, '/')) == BucketAndPrefix(dest)
    && (PathWithoutBucket(dest) == PrefixOf(comps) + name <==> |comps| == 1 || CleanName(name))
  }

  lemma {:induction false} JoinSplit(s: string, sep: char)
    ensures Join(Split(s, sep), sep) == s
  {
    if s != "" {
      JoinSplit(s[1..], sep);
      var rest := Split(s[1..], sep);
      if s[0] == sep {
        assert ([""] + rest)[1..] == rest;
        assert "" + [sep] + s[1..] == s;
      } else {
        var first := [s[0]] + rest[0];
        assert ([first] + rest[1..])[1..] == rest[1..];
        assert [s[0]] + s[1..] == s;
      }
    }
  }

  lemma {:induction false} CleanKeeps(comps: seq<string>, rooted: bool, done: seq<string>)
    requires forall i :: 0 <= i < |comps| ==> CleanName(comps[i])
    ensures CleanComponents(comps, rooted, done) == done + comps
    ensures CleanComponents(comps + [""], rooted, done) == done + comps
    decreases |comps|
  {
    if comps != [] {
      CleanKeeps(comps[1..], rooted, done + [comps[0]]);
      assert done + [comps[0]] + comps[1..] == done + comps;
      assert (comps + [""])[1..] == comps[1..] + [""];
    } else {
      assert comps + [""] == [""] && [""][1..] == [];
      assert CleanComponents([], rooted, done) == done;
    }
  }

  lemma {:induction false} JoinEnds(comps: seq<string>)
    requires CleanPath(comps)
    ensures var s := Join(comps, '/'); s != "" && s[0] != '/' && s[|s| - 1] != '/'
    decreases |comps|
  {
    assert CleanName(comps[0]);
    if |comps| > 1 {
      JoinEnds(comps[1..]);
    }
  }

  /** A clean path is left alone by path.Clean, and a trailing slash is dropped. */
  lemma CleanJoined(comps: seq<string>)
    requires CleanPath(comps)
    ensures Clean(Join(comps, '/')) == Join(comps, '/')
    ensures Clean(Join(comps, '/') + "/") == Join(comps, '/')
  {
    JoinEnds(comps);
    SplitJoin(comps, '/');
    CleanKeeps(comps, false, []);
    assert [] + comps == comps;
    JoinAppend(comps, [""], '/');
    assert Join(comps, '/') + "/" == Join(comps + [""], '/');
    SplitJoin(comps + [""], '/');
    assert (Join(comps, '/') + "/")[0] != '/';
  }

  lemma PathJoinClean(comps: seq<string>)
    requires CleanPath(comps)
    ensures PathJoin(comps) == Join(comps, '/')
    ensures PathJoin([comps[0], PrefixOf(comps)]) == Join(comps, '/')
  {
    CleanJoined(comps);
    assert CleanName(comps[0]);
    var pair := [comps[0], PrefixOf(comps)];
    assert pair[1..] == [PrefixOf(comps)];
    if |comps| == 1 {
      assert Join(pair, '/') == Join(comps, '/') + "/";
    } else {
      assert Join(pair, '/') == comps[0] + ['/'] + (Join(comps[1..], '/') + "/");
      assert Join(pair, '/') == Join(comps, '/') + "/";
    }
  }

  lemma TrimSuffixAbsent(s: string)
    requires s != "" && s[|s| - 1] != '/'
    ensures TrimSuffix(s, "/") == s
  {
    assert s[|s| - 1..][0] != '/';
  }

  lemma JoinHead(comps: seq<string>, tail: seq<string>)
    requires comps != [] && tail != []
    ensures Join(comps, '/') + ['/'] + Join(tail, '/') == comps[0] + ['/'] + Join(comps[1..] + tail, '/')
  {
    JoinAppend(comps, tail, '/');
    assert (comps + tail)[1..] == comps[1..] + tail;
  }

  /** A path of clean components followed by further parts, cut at its first slash. */
  lemma CutParts(comps: seq<string>, tail: seq<string>)
    requires CleanPath(comps) && tail != [] && forall i :: 0 <= i < |tail| ==> Lacks(tail[i], '/')
    ensures Cut(Join(comps, '/') + ['/'] + Join(tail, '/'), '/') == (comps[0], Join(comps[1..] + tail, '/'))
    ensures Split(Join(comps[1..] + tail, '/'), '/') == comps[1..] + tail
  {
    assert CleanName(comps[0]);
    var parts := comps[1..] + tail;
    forall i | 0 <= i < |parts| ensures Lacks(parts[i], '/') {
      if i < |comps| - 1 {
        assert CleanName(comps[i + 1]);
      }
    }
    JoinHead(comps, tail);
    CutFirst(comps[0], '/', Join(parts, '/'));
    SplitJoin(parts, '/');
  }

  lemma SpecSplit(comps: seq<string>)
    requires CleanPath(comps)
    ensures SpecBucketAndPrefix(Join(comps, '/')) == (comps[0], PrefixOf(comps))
  {
    assert CleanName(comps[0]);
    if |comps| == 1 {
      CutFirst(comps[0], '/', "");
    } else {
      CutFirst(comps[0], '/', Join(comps[1..], '/'));
      JoinEnds(comps[1..]);
      TrimSuffixAbsent(Join(comps[1..], '/'));
    }
  }

  /** dest is a kind prefix followed by a path. */
  ghost predicate Kinded(dest: string, kind: string, path: string) {
    StorageTypePrefix(dest) == kind && kind != PVC_PREFIX && dest == kind + path && TrimPrefix(dest, kind) == path
  }

  lemma KindOf(kind: string, rest: string)
    requires kind == S3_PREFIX || kind == AZURE_PREFIX
    ensures Kinded(kind + rest, kind, rest)
  {
    assert PVC_PREFIX[0] != S3_PREFIX[0] && PVC_PREFIX[0] != AZURE_PREFIX[0];
    assert AZURE_PREFIX[0] != S3_PREFIX[0];
    assert (kind + rest)[0] == kind[0];
  }

  lemma PathIsPrefixAndName(comps: seq<string>, name: string)
    requires CleanPath(comps) && Lacks(name, '/')
    ensures PathJoin([PrefixOf(comps), name]) == PrefixOf(comps) + name <==> |comps| == 1 || CleanName(name)
  {
    if |comps| == 1 {
      BareName(name);
      assert ["", name][1..] == [name];
    } else {
      var rest := comps[1..];
      var joined := Join(rest, '/');
      JoinEnds(rest);
      var pair := [joined + "/", name];
      assert pair[1..] == [name];
      assert Join(pair, '/') == joined + ['/'] + ("" + ['/'] + name);
      JoinAppend(rest, ["", name], '/');
      assert ["", name][1..] == [name];
      assert Join(pair, '/') == Join(rest + ["", name], '/');
      SplitJoin(rest + ["", name], '/');
      CleanTail(rest, name);
      if CleanName(name) {
        JoinAppend(rest, [name], '/');
        JoinEnds(rest + [name]);
      } else if name == ".." {
        UpOne(rest);
      }
    }
  }

  lemma BareName(name: string)
    requires Lacks(name, '/')
    ensures PathJoin([name]) == name
  {
    SplitPlain(name, '/');
    assert [name][1..] == [];
    if name != "" {
      assert name[0] != '/';
      assert CleanComponents([name], false, []) == CleanOne(name, false, []);
    } else {
      assert PathJoin([]) == "";
    }
  }

  /** path.Clean's loop at the last component of a clean prefix. */
  lemma CleanTail(rest: seq<string>, name: string)
    requires CleanPath(rest) && Lacks(name, '/')
    ensures CleanComponents(rest + ["", name], false, [])
         == if CleanName(name) then rest + [name] else if name == ".." then rest[..|rest| - 1] else rest
  {
    CleanAppend(rest, ["", name], []);
    assert [] + rest == rest;
    assert CleanName(rest[|rest| - 1]);
    assert ["", name][1..] == [name] && [name][1..] == [];
    assert CleanComponents(["", name], false, rest) == CleanComponents([name], false, rest);
    assert CleanComponents([name], false, rest) == CleanOne(name, false, rest);
  }

  lemma {:induction false} CleanAppend(comps: seq<string>, tail: seq<string>, done: seq<string>)
    requires forall i :: 0 <= i < |comps| ==> CleanName(comps[i])
    ensures CleanComponents(comps + tail, false, done) == CleanComponents(tail, false, done + comps)
    decreases |comps|
  {
    if comps == [] {
      assert comps + tail == tail && done + comps == done;
    } else {
      assert (comps + tail)[1..] == comps[1..] + tail;
      CleanAppend(comps[1..], tail, done + [comps[0]]);
      assert done + [comps[0]] + comps[1..] == done + comps;
    }
  }

  lemma UpOne(rest: seq<string>)
    requires CleanPath(rest)
    ensures |Join(rest[..|rest| - 1], '/')| <= |Join(rest, '/')|
  {
    var n := |rest| - 1;
    if n > 0 {
      JoinAppend(rest[..n], rest[n..], '/');
      assert rest[..n] + rest[n..] == rest;
    }
  }

  /** What the accessor makes of a path cut at its first slash and split at the others. */
  lemma BucketFrom(dest: string, kind: string, path: string, bucket: string, left: string, spl: seq<string>)
    requires Kinded(dest, kind, path) && Cut(path, '/') == (bucket, left) && Split(left, '/') == spl
    ensures BucketAndPrefix(dest) == (bucket, PrefixFrom(spl))
  {
  }

  lemma CleanSplit(comps: seq<string>, name: string)
    requires CleanPath(comps) && Lacks(name, '/')
    ensures var spl := comps[1..] + [name];
      && Cut(Join(comps, '/') + ['/'] + name, '/') == (comps[0], Join(spl, '/'))
      && Split(Join(spl, '/'), '/') == spl && PrefixFrom(spl) == PrefixOf(comps)
  {
    CutParts(comps, [name]);
    assert Join([name], '/') == name;
    var spl := comps[1..] + [name];
    assert spl[..|spl| - 1] == comps[1..];
    if |comps| > 1 {
      PathJoinClean(comps[1..]);
      JoinEnds(comps[1..]);
      TrimSuffixAbsent(Join(comps[1..], '/'));
    }
  }

  lemma ParsesBucket(dest: string, kind: string, comps: seq<string>, name: string)
    requires CleanPath(comps) && Lacks(name, '/') && Kinded(dest, kind, Join(comps, '/') + ['/'] + name)
    ensures BucketAndPrefix(dest) == (comps[0], PrefixOf(comps))
  {
    CleanSplit(comps, name);
    var spl := comps[1..] + [name];
    BucketFrom(dest, kind, Join(comps, '/') + ['/'] + name, comps[0], Join(spl, '/'), spl);
  }

  /** The backup name is what follows the bucket, the prefix and one slash. */
  lemma NameFollows(dest: string, kind: string, head: string, rest: string, bucket: string, prefix: string)
    requires Kinded(dest, kind, head + ['/'] + rest) && BucketAndPrefix(dest) == (bucket, prefix)
    requires PathJoin([bucket, prefix]) == head
    ensures BackupName(dest) == rest
  {
    assert kind + (head + ['/'] + rest) == kind + head + ("/" + rest);
    TrimHead(kind + head, rest);
  }

  lemma ParsesName(dest: string, kind: string, comps: seq<string>, name: string)
    requires CleanPath(comps) && Lacks(name, '/') && Kinded(dest, kind, Join(comps, '/') + ['/'] + name)
    ensures BackupName(dest) == name
  {
    ParsesBucket(dest, kind, comps, name);
    PathJoinClean(comps);
    NameFollows(dest, kind, Join(comps, '/'), name, comps[0], PrefixOf(comps));
  }

  lemma Regroup(a: string, b: string, c: string)
    ensures a + b + "/" + c == a + (b + ['/'] + c)
  {
  }

  lemma Assemble(dest: string, kind: string, comps: seq<string>, name: string)
    requires CleanPath(comps) && Lacks(name, '/') && Kinded(dest, kind, Join(comps, '/') + ['/'] + name)
    ensures ReadsBack(dest, kind, comps, name)
  {
    var b, n := BucketAndPrefix(dest), BackupName(dest);
    assert b == (comps[0], PrefixOf(comps)) by { ParsesBucket(dest, kind, comps, name); }
    assert n == name by { ParsesName(dest, kind, comps, name); }
    assert SpecBucketAndPrefix(Join(comps, '/')) == b by { SpecSplit(comps); }
    assert PathWithoutBucket(dest) == PrefixOf(comps) + name <==> |comps| == 1 || CleanName(name) by {
      PathIsPrefixAndName(comps, name);
    }
  }

  /** Printing and parsing a destination are inverse, and agree with the storage spec's own split. */
  lemma DestinationRoundTrip(kind: string, comps: seq<string>, name: string)
    requires kind == S3_PREFIX || kind == AZURE_PREFIX
    requires CleanPath(comps) && Lacks(name, '/')
    ensures ReadsBack(kind + Join(comps, '/') + "/" + name, kind, comps, name)
  {
    var dest := kind + Join(comps, '/') + "/" + name;
    Regroup(kind, Join(comps, '/'), name);
    KindOf(kind, Join(comps, '/') + ['/'] + name);
    Assemble(dest, kind, comps, name);
  }

  lemma PathJoinTrailing(rest: seq<string>)
    requires CleanPath(rest)
    ensures TrimSuffix(PathJoin(rest + [""]), "/") == Join(rest, '/')
  {
    JoinEnds(rest);
    CleanJoined(rest);
    JoinAppend(rest, [""], '/');
    assert Join(rest + [""], '/') == Join(rest, '/') + "/";
    assert CleanName((rest + [""])[0]);
    TrimSuffixAbsent(Join(rest, '/'));
  }

  /** The bucket and prefix read back from a path that was given with a trailing slash. */
  lemma TrailingSlashBucket(dest: string, kind: string, comps: seq<string>, name: string)
    requires CleanPath(comps) && Lacks(name, '/') && Kinded(dest, kind, Join(comps, '/') + ['/'] + ("/" + name))
    ensures BucketAndPrefix(dest) == (comps[0], if |comps| == 1 then "/" else PrefixOf(comps))
  {
    var spl := comps[1..] + ["", name];
    TrailingSplit(comps, name);
    TrailingPrefix(comps, name);
    BucketFrom(dest, kind, Join(comps, '/') + ['/'] + ("/" + name), comps[0], Join(spl, '/'), spl);
  }

  lemma TrailingSplit(comps: seq<string>, name: string)
    requires CleanPath(comps) && Lacks(name, '/')
    ensures var spl := comps[1..] + ["", name];
      && Cut(Join(comps, '/') + ['/'] + ("/" + name), '/') == (comps[0], Join(spl, '/'))
      && Split(Join(spl, '/'), '/') == spl
  {
    var tail := ["", name];
    assert tail[1..] == [name] && Join(tail, '/') == "/" + name;
    CutParts(comps, tail);
  }

  lemma TrailingPrefix(comps: seq<string>, name: string)
    requires CleanPath(comps)
    ensures PrefixFrom(comps[1..] + ["", name]) == if |comps| == 1 then "/" else PrefixOf(comps)
  {
    var spl := comps[1..] + ["", name];
    assert spl[..|spl| - 1] == comps[1..] + [""];
    if |comps| == 1 {
      assert comps[1..] + [""] == [""] && [""][1..] == [];
      assert PathJoin([""]) == PathJoin([]) == "";
    } else {
      PathJoinTrailing(comps[1..]);
    }
  }

  lemma TrailingHead(comps: seq<string>)
    requires CleanPath(comps)
    ensures PathJoin([comps[0], if |comps| == 1 then "/" else PrefixOf(comps)]) == Join(comps, '/')
  {
    PathJoinClean(comps);
    if |comps| == 1 {
      DoubleSlash(comps[0]);
    }
  }

  /** A bucket path with a trailing slash, which the storage spec's split tolerates, does not read
      back: the slash ends up in the backup name. */
  lemma TrailingSlashEntersName(kind: string, comps: seq<string>, name: string)
    requires kind == S3_PREFIX || kind == AZURE_PREFIX
    requires CleanPath(comps) && Lacks(name, '/')
    ensures BackupName(kind + (Join(comps, '/') + ['/'] + ("/" + name))) == "/" + name
  {
    var path := Join(comps, '/') + ['/'] + ("/" + name);
    var prefix := if |comps| == 1 then "/" else PrefixOf(comps);
    KindOf(kind, path);
    TrailingSlashBucket(kind + path, kind, comps, name);
    TrailingHead(comps);
    NameFollows(kind + path, kind, Join(comps, '/'), "/" + name, comps[0], prefix);
  }

  lemma TrimHead(head: string, rest: string)
    ensures TrimPrefix(TrimPrefix(head + ("/" + rest), head), "/") == rest
  {
    assert (head + ("/" + rest))[|head|..] == "/" + rest;
  }

  lemma DoubleSlash(bucket: string)
    requires CleanName(bucket)
    ensures PathJoin([bucket, "/"]) == bucket
  {
    assert [bucket, "/"][1..] == ["/"];
    var s := Join([bucket, "/"], '/');
    assert Join(["/"], '/') == "/";
    assert s == bucket + ['/'] + "/";
    SplitFirst("", '/', "");
    SplitPlain("", '/');
    assert "" + ['/'] + "" == "/";
    SplitFirst(bucket, '/', "/");
    assert Split(s, '/') == [bucket] + ["", ""];
    CleanAppend([bucket], ["", ""], []);
    assert [] + [bucket] == [bucket];
    assert ["", ""][1..] == [""] && [""][1..] == [];
    assert CleanComponents(["", ""], false, [bucket]) == CleanComponents([""], false, [bucket]);
    assert CleanComponents([""], false, [bucket]) == CleanComponents([], false, [bucket]);
    assert s[0] == bucket[0];
  }

  // Which paths read back

  ghost predicate Parts(comps: seq<string>) {
    forall i :: 0 <= i < |comps| ==> Lacks(comps[i], '/')
  }

  predicate AllEmpty(comps: seq<string>) {
    forall i :: 0 <= i < |comps| ==> comps[i] == ""
  }

  /** What path.Clean makes of relative components. */
  function Cleaned(comps: seq<string>): seq<string> {
    CleanComponents(comps, false, [])
  }

  function Body(cleaned: seq<string>): string {
    if cleaned == [] then "." else Join(cleaned, '/')
  }

  ghost predicate Solid(comps: seq<string>) {
    forall i :: 0 <= i < |comps| ==> comps[i] != "" && Lacks(comps[i], '/')
  }

  lemma {:induction false} CleanIsSolid(comps: seq<string>, done: seq<string>)
    requires Parts(comps) && Solid(done)
    ensures Solid(CleanComponents(comps, false, done))
    decreases |comps|
  {
    if comps != [] {
      CleanIsSolid(comps[1..], CleanOne(comps[0], false, done));
    }
  }

  lemma {:induction false} CleanConcat(a: seq<string>, b: seq<string>, done: seq<string>)
    ensures CleanComponents(a + b, false, done) == CleanComponents(b, false, CleanComponents(a, false, done))
    decreases |a|
  {
    if a == [] {
      assert a + b == b;
    } else {
      assert (a + b)[1..] == a[1..] + b;
      CleanConcat(a[1..], b, CleanOne(a[0], false, done));
    }
  }

  lemma CleanLast(a: seq<string>, p: string, done: seq<string>)
    ensures CleanComponents(a + [p], false, done) == CleanOne(p, false, CleanComponents(a, false, done))
  {
    CleanConcat(a, [p], done);
    assert [p][1..] == [];
  }

  lemma UpDropsLast(r: seq<string>, done: seq<string>)
    requires r != [] && r[|r| - 1] != ".." && NoDots(r)
    ensures CleanOne("..", false, CleanComponents(r, false, done)) == CleanComponents(r[..|r| - 1], false, done)
  {
    var rest, last := r[..|r| - 1], r[|r| - 1];
    assert r == rest + [last];
    CleanLast(rest, last, done);
    var before := CleanComponents(rest, false, done);
    assert (before + [last])[..|before|] == before;
  }

  /** Cleaning the components first and then appending them to others makes no difference. */
  lemma {:induction false} CleanTwice(comps: seq<string>, done: seq<string>)
    ensures CleanComponents(Cleaned(comps), false, done) == CleanComponents(comps, false, done)
    decreases |comps|
  {
    if comps != [] {
      var front, p := comps[..|comps| - 1], comps[|comps| - 1];
      assert comps == front + [p];
      CleanTwice(front, done);
      CleanLast(front, p, done);
      CleanLast(front, p, []);
      var r := Cleaned(front);
      if p == ".." && r != [] && r[|r| - 1] != ".." {
        CleanHasNoDots(front, []);
        UpDropsLast(r, done);
      } else if p != "" && p != "." {
        CleanLast(r, p, done);
      }
    }
  }

  ghost predicate NoDots(comps: seq<string>) {
    forall i :: 0 <= i < |comps| ==> comps[i] != "" && comps[i] != "."
  }

  lemma {:induction false} CleanHasNoDots(comps: seq<string>, done: seq<string>)
    requires NoDots(done)
    ensures NoDots(CleanComponents(comps, false, done))
    decreases |comps|
  {
    if comps != [] {
      CleanHasNoDots(comps[1..], CleanOne(comps[0], false, done));
    }
  }

  lemma {:induction false} EmptyCleansAway(comps: seq<string>, done: seq<string>)
    requires AllEmpty(comps)
    ensures CleanComponents(comps, false, done) == done
    decreases |comps|
  {
    if comps != [] {
      EmptyCleansAway(comps[1..], done);
    }
  }

  lemma {:induction false} SolidEnds(comps: seq<string>)
    requires Solid(comps) && comps != []
    ensures var s := Join(comps, '/'); s != "" && s[0] != '/' && s[|s| - 1] != '/'
    decreases |comps|
  {
    assert Lacks(comps[0], '/') && comps[0][0] in comps[0] && comps[0][|comps[0]| - 1] in comps[0];
    if |comps| > 1 {
      SolidEnds(comps[1..]);
    }
  }

  lemma BodyEnds(cleaned: seq<string>)
    requires Solid(cleaned)
    ensures var s := Body(cleaned); s != "" && s[0] != '/' && s[|s| - 1] != '/'
  {
    if cleaned != [] { SolidEnds(cleaned); }
  }

  lemma {:induction false} JoinHeadChar(comps: seq<string>)
    requires comps != [] && Parts(comps) && comps[0] != ""
    ensures Join(comps, '/') != "" && Join(comps, '/')[0] != '/'
  {
    assert Lacks(comps[0], '/') && comps[0][0] in comps[0];
  }

  /** path.Clean of a relative path, by its components. */
  lemma CleanIs(comps: seq<string>)
    requires comps != [] && Parts(comps) && comps[0] != ""
    ensures Clean(Join(comps, '/')) == Body(Cleaned(comps))
  {
    JoinHeadChar(comps);
    SplitJoin(comps, '/');
    CleanIsSolid(comps, []);
    if Cleaned(comps) != [] { SolidEnds(Cleaned(comps)); }
  }

  lemma {:induction false} PathJoinIs(comps: seq<string>)
    requires Parts(comps)
    ensures PathJoin(comps) == if AllEmpty(comps) then "" else Body(Cleaned(comps))
    decreases |comps|
  {
    if comps != [] {
      if comps[0] == "" {
        PathJoinIs(comps[1..]);
        assert AllEmpty(comps) <==> AllEmpty(comps[1..]) by {
          assert forall i :: 1 <= i < |comps| ==> comps[i] == comps[1..][i - 1];
        }
      } else {
        CleanIs(comps);
      }
    }
  }

  /** The prefix that is read back for a path whose first component has been cut off. */
  lemma PrefixIs(rest: seq<string>, name: string)
    requires Parts(rest) && rest != []
    ensures PrefixFrom(rest + [name]) == (if AllEmpty(rest) then "" else Body(Cleaned(rest))) + "/"
  {
    var spl := rest + [name];
    assert spl[..|spl| - 1] == rest;
    PathJoinIs(rest);
    if !AllEmpty(rest) {
      CleanIsSolid(rest, []);
      BodyEnds(Cleaned(rest));
      TrimSuffixAbsent(Body(Cleaned(rest)));
    }
  }

  /** Splitting a cleaned text gives back components that clean to the same. */
  lemma SplitBody(cleaned: seq<string>, done: seq<string>)
    requires Solid(cleaned)
    ensures Parts(Split(Body(cleaned), '/')) && Join(Split(Body(cleaned), '/'), '/') == Body(cleaned)
    ensures CleanComponents(Split(Body(cleaned), '/'), false, done) == CleanComponents(cleaned, false, done)
  {
    JoinSplit(Body(cleaned), '/');
    if cleaned == [] {
      SplitPlain(".", '/');
      assert ["."][1..] == [];
      assert CleanComponents(["."], false, done) == CleanComponents([], false, done);
    } else {
      SplitJoin(cleaned, '/');
    }
  }

  /** Bucket, slash, cleaned rest, slash: cleaning that is cleaning the whole path. */
  lemma HeadOfMany(bucket: string, rest: seq<string>)
    requires bucket != "" && Lacks(bucket, '/') && Parts(rest) && rest != [] && !AllEmpty(rest)
    ensures PathJoin([bucket, Body(Cleaned(rest)) + "/"]) == Body(Cleaned([bucket] + rest))
  {
    var x, d := Body(Cleaned(rest)), CleanOne(bucket, false, []);
    CleanIsSolid(rest, []);
    SplitBody(Cleaned(rest), d);
    var comps := [bucket] + (Split(x, '/') + [""]);
    assert PathJoin([bucket, x + "/"]) == Clean(Join(comps, '/')) by {
      assert [bucket, x + "/"][1..] == [x + "/"];
      assert Join([bucket, x + "/"], '/') == bucket + ['/'] + (x + "/");
      JoinAppend(Split(x, '/'), [""], '/');
      assert comps[1..] == Split(x, '/') + [""];
      assert Join(comps, '/') == bucket + ['/'] + (x + "/");
    }
    assert Parts(comps);
    CleanIs(comps);
    assert [bucket][1..] == [];
    CleanConcat([bucket], Split(x, '/') + [""], []);
    CleanLast(Split(x, '/'), "", d);
    CleanTwice(rest, d);
    CleanConcat([bucket], rest, []);
  }

  /** Bucket and slashes only. */
  lemma HeadOfOne(bucket: string, slashes: string, rest: seq<string>)
    requires bucket != "" && Lacks(bucket, '/') && Parts(rest) && AllEmpty(rest) && (slashes == "" || slashes == "/")
    ensures PathJoin([bucket, slashes]) == Body(Cleaned([bucket] + rest))
  {
    var comps := if slashes == "" then [bucket, ""] else [bucket, "", ""];
    assert [bucket, slashes][1..] == [slashes];
    assert Join([bucket, slashes], '/') == bucket + ['/'] + slashes;
    assert comps[1..] == (if slashes == "" then [""] else ["", ""]) && ["", ""][1..] == [""];
    assert Join(comps, '/') == bucket + ['/'] + slashes by {
      assert Join([""], '/') == "";
      assert Join(["", ""], '/') == "" + ['/'] + Join([""], '/');
    }
    CleanIs(comps);
    var empties := comps[1..];
    assert comps == [bucket] + empties && AllEmpty(empties);
    CleanConcat([bucket], empties, []);
    CleanConcat([bucket], rest, []);
    EmptyCleansAway(empties, CleanComponents([bucket], false, []));
    EmptyCleansAway(rest, CleanComponents([bucket], false, []));
  }

  /** What is taken off the front of the destination, for a path given by its components. */
  function HeadOf(comps: seq<string>, name: string): string
    requires comps != []
  {
    PathJoin([comps[0], PrefixFrom(comps[1..] + [name])])
  }

  /** For a relative path it is the cleaned path. */
  lemma HeadIsClean(comps: seq<string>, name: string)
    requires comps != [] && Parts(comps) && comps[0] != ""
    ensures HeadOf(comps, name) == Clean(Join(comps, '/'))
  {
    var bucket, rest := comps[0], comps[1..];
    assert comps == [bucket] + rest;
    CleanIs(comps);
    if rest == [] {
      assert rest + [name] == [name];
      HeadOfOne(bucket, "", rest);
    } else {
      PrefixIs(rest, name);
      if AllEmpty(rest) {
        assert "" + "/" == "/";
        HeadOfOne(bucket, "/", rest);
      } else {
        HeadOfMany(bucket, rest);
      }
    }
  }

  /** For an absolute path it is a slash, if the path is only slashes, and otherwise begins with none. */
  lemma HeadOfRooted(comps: seq<string>, name: string)
    requires |comps| > 1 && Parts(comps) && comps[0] == ""
    ensures AllEmpty(comps) ==> HeadOf(comps, name) == "/"
    ensures !AllEmpty(comps) ==> HeadOf(comps, name) != "" && HeadOf(comps, name)[0] != '/'
  {
    var rest := comps[1..];
    assert AllEmpty(comps) <==> AllEmpty(rest) by {
      assert forall i :: 1 <= i < |comps| ==> comps[i] == rest[i - 1];
    }
    PrefixIs(rest, name);
    var prefix := PrefixFrom(rest + [name]);
    assert ["", prefix][1..] == [prefix];
    assert prefix != "" && PathJoin([prefix]) == Clean(prefix) == HeadOf(comps, name);
    if AllEmpty(rest) {
      assert prefix == "/";
      CleanSlash();
    } else {
      CleanSlashed(rest);
    }
  }

  lemma CleanSlash()
    ensures Clean("/") == "/"
  {
    SplitFirst("", '/', "");
    SplitPlain("", '/');
    assert "" + ['/'] + "" == "/" && Split("/", '/') == ["", ""];
    assert ["", ""][1..] == [""] && [""][1..] == [];
    assert CleanComponents(["", ""], true, []) == CleanComponents([""], true, []) == [];
  }

  lemma CleanSlashed(rest: seq<string>)
    requires Parts(rest)
    ensures var s := Clean(Body(Cleaned(rest)) + "/"); s != "" && s[0] != '/'
  {
    var x := Body(Cleaned(rest));
    CleanIsSolid(rest, []);
    BodyEnds(Cleaned(rest));
    SplitBody(Cleaned(rest), []);
    SplitHeadSolid(x);
    var parts := Split(x, '/') + [""];
    JoinAppend(Split(x, '/'), [""], '/');
    assert Join(parts, '/') == x + "/";
    CleanIs(parts);
    CleanIsSolid(parts, []);
    BodyEnds(Cleaned(parts));
  }

  lemma SplitHeadSolid(x: string)
    requires x != "" && x[0] != '/'
    ensures Split(x, '/')[0] != ""
  {
  }

  /** The name is read back when what is taken off is the path, with or without a slash. */
  lemma NameReads(dest: string, kind: string, path: string, name: string, head: string, bucket: string, prefix: string)
    requires Kinded(dest, kind, path + ['/'] + name) && BucketAndPrefix(dest) == (bucket, prefix) && Lacks(name, '/')
    requires PathJoin([bucket, prefix]) == head && kind != "" && kind[0] != '/'
    ensures BackupName(dest) == name <==> head == path || head == path + "/"
  {
    var p := path + ['/'] + name;
    if head <= p {
      assert (kind + p)[|kind + head|..] == p[|head|..] && kind + head <= dest;
      RestIsName(path, name, head);
    } else {
      PrefixCancels(kind, head, p);
      assert dest[|kind| + |path|] == '/' && dest[|kind| + |path|] in dest;
      assert path <= p && path + "/" <= p;
    }
  }

  lemma PrefixCancels(k: string, a: string, b: string)
    ensures k + a <= k + b <==> a <= b
  {
    assert (k + a)[|k|..] == a && (k + b)[|k|..] == b;
    if k + a <= k + b {
      assert forall i :: 0 <= i < |a| ==> a[i] == (k + a)[|k| + i] && (k + b)[|k| + i] == b[i];
    }
  }

  lemma RestIsName(path: string, name: string, head: string)
    requires Lacks(name, '/') && head <= path + ['/'] + name
    ensures TrimPrefix((path + ['/'] + name)[|head|..], "/") == name <==> head == path || head == path + "/"
  {
    var p := path + ['/'] + name;
    var rest := p[|head|..];
    if |head| == |path| {
      assert head == p[..|path|] == path && rest == "/" + name;
    } else if |head| == |path| + 1 {
      assert head == p[..|path| + 1] == path + "/" && rest == name;
      assert name == "" || name[0] in name;
    } else if |head| < |path| {
      assert |rest| > |name| + 1;
    } else {
      assert |rest| < |name|;
    }
  }

  /** The paths from which the name reads back. */
  predicate Readable(path: string) {
    path == "" || path == "/" || (path[0] != '/' && Clean(path) == path)
  }

  lemma JoinEmpty(comps: seq<string>)
    requires |comps| > 1 && comps[0] == ""
    ensures Join(comps, '/') != "" && Join(comps, '/')[0] == '/'
    ensures Join(comps, '/') == "/" ==> AllEmpty(comps)
    ensures AllEmpty(comps) && Join(comps, '/') != "/" ==> |Join(comps, '/')| > 1
  {
    assert Join(comps, '/') == "" + ['/'] + Join(comps[1..], '/');
    if Join(comps, '/') == "/" {
      assert Join(comps[1..], '/') == "";
      JoinOfNothing(comps[1..]);
      assert forall i :: 1 <= i < |comps| ==> comps[i] == comps[1..][i - 1];
    }
  }

  lemma JoinOfNothing(comps: seq<string>)
    requires comps != [] && Join(comps, '/') == ""
    ensures comps == [""]
  {
  }

  /** The exact condition, for every path and every slash-free name: a destination gives its name back
      when the path is relative and clean, or empty, or a single slash. */
  lemma NameReadsBackExactlyWhen(kind: string, path: string, name: string)
    requires (kind == S3_PREFIX || kind == AZURE_PREFIX) && Lacks(name, '/')
    ensures BackupName(kind + (path + ['/'] + name)) == name <==> Readable(path)
  {
    var comps := Split(path, '/');
    JoinSplit(path, '/');
    var dest := kind + (path + ['/'] + name);
    KindOf(kind, path + ['/'] + name);
    KindsBegin(kind);
    CutAny(comps, name);
    var spl := comps[1..] + [name];
    BucketFrom(dest, kind, path + ['/'] + name, comps[0], Join(spl, '/'), spl);
    NameReads(dest, kind, path, name, HeadOf(comps, name), comps[0], PrefixFrom(spl));
    HeadDecides(comps, path, name);
  }

  lemma KindsBegin(kind: string)
    requires kind == S3_PREFIX || kind == AZURE_PREFIX
    ensures kind != "" && kind[0] != '/'
  {
  }

  lemma CutAny(comps: seq<string>, name: string)
    requires comps != [] && Parts(comps) && Lacks(name, '/')
    ensures var spl := comps[1..] + [name];
      && Cut(Join(comps, '/') + ['/'] + name, '/') == (comps[0], Join(spl, '/'))
      && Split(Join(spl, '/'), '/') == spl
  {
    var spl := comps[1..] + [name];
    assert Join([name], '/') == name;
    JoinHead(comps, [name]);
    CutFirst(comps[0], '/', Join(spl, '/'));
    SplitJoin(spl, '/');
  }

  lemma HeadDecides(comps: seq<string>, path: string, name: string)
    requires comps != [] && Parts(comps) && Join(comps, '/') == path
    ensures HeadOf(comps, name) == path || HeadOf(comps, name) == path + "/" <==> Readable(path)
  {
    if comps[0] != "" {
      JoinHeadChar(comps);
      HeadIsClean(comps, name);
      CleanIs(comps);
      CleanIsSolid(comps, []);
      BodyEnds(Cleaned(comps));
      assert (path + "/")[|path|] == '/';
    } else if |comps| == 1 {
      assert comps == [""] && comps[1..] + [name] == [name];
      assert ["", ""][1..] == [""] && [""][1..] == [];
      assert PathJoin(["", ""]) == PathJoin([""]) == PathJoin([]) == "";
    } else {
      JoinEmpty(comps);
      HeadOfRooted(comps, name);
      assert (path + "/")[0] == path[0];
    }
  }
}
