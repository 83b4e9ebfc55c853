/** The recoverer's choice of binlogs: it walks the stored objects newest to oldest, builds the
    set of transactions to exclude, and stops at the first binlog that overlaps the backup. */
module Recoverer {
  import opened Options
  import opened Gtid
  import opened Collector

  /** A GTID set as the server prints it for one source: intervals with both ends included. */
  datatype Span = Span(first: nat, last: nat)
  type GtidText = seq<Span>

  function Denote(g: GtidText): GtidSet {
    if g == [] then {} else Interval(g[0].first, g[0].last + 1) + Denote(g[1..])
  }

  function DenoteExclude(e: Option<Span>): GtidSet {
    if e.None? then {} else Interval(e.value.first, e.value.last + 1)
  }

  datatype Listed = BinlogObject(name: ObjectName) | GtidSetObject(name: ObjectName)
  datatype RecoverType = Latest | Date | Transaction | Skip
  datatype Request = Request(kind: RecoverType, start: GtidSet, target: nat)
  datatype Selection = Selection(names: seq<ObjectName>, exclude: Option<Span>)

  /** GTID-set contents that can be read, by the name of their binlog. */
  type GtidObjects = map<ObjectName, GtidText>

  /** getExtendGTIDSet: of a one-interval set, the target and everything after it. */
  function Extend(g: GtidText, target: nat): (r: Span)
    requires target in Denote(g)
    ensures |g| == 1 ==> forall x: nat :: x in DenoteExclude(Some(r)) <==> x in Denote(g) && x >= target
  {
    assert |g| == 1 ==> Denote(g[1..]) == {};
    Span(target, g[0].last)
  }

  predicate Usable(st: GtidObjects, o: Listed) {
    o.BinlogObject? && o.name in st
  }

  function UsableNames(st: GtidObjects, list: seq<Listed>): (r: seq<ObjectName>)
    ensures forall n :: n in r ==> n in st
  {
    if list == [] then []
    else
      var o := list[|list| - 1];
      UsableNames(st, list[..|list| - 1]) + if Usable(st, o) then [o.name] else []
  }

  /** What the walk over names, oldest first, keeps when it starts from their end. */
  function Select(st: GtidObjects, req: Request, names: seq<ObjectName>, exclude: Option<Span>): (r: Selection)
    requires forall n :: n in names ==> n in st
    ensures forall n :: n in r.names ==> n in names
  {
    if names == [] then Selection([], exclude)
    else
      var k := |names| - 1;
      var g := Denote(st[names[k]]);
      var ex := if req.kind.Transaction? && req.target in g then Some(Extend(st[names[k]], req.target)) else exclude;
      if req.kind.Transaction? && ex.None? then Select(st, req, names[..k], ex)
      else if req.start !! g then
        var s := Select(st, req, names[..k], ex);
        Selection(s.names + [names[k]], s.exclude)
      else Selection([names[k]], ex)
  }

  function SelectListed(st: GtidObjects, req: Request, list: seq<Listed>, exclude: Option<Span>): Selection {
    Select(st, req, UsableNames(st, list), exclude)
  }

  /** One step of the walk, at the newest object of a listing. */
  lemma SelectLast(st: GtidObjects, req: Request, list: seq<Listed>, item: Listed, exclude: Option<Span>)
    ensures var sel := SelectListed(st, req, list + [item], exclude);
      if !Usable(st, item) then sel == SelectListed(st, req, list, exclude)
      else
        var g := Denote(st[item.name]);
        var ex := if req.kind.Transaction? && req.target in g then Some(Extend(st[item.name], req.target)) else exclude;
        if req.kind.Transaction? && ex.None? then sel == SelectListed(st, req, list, ex)
        else if req.start !! g then
          var older := SelectListed(st, req, list, ex);
          sel == Selection(older.names + [item.name], older.exclude)
        else sel == Selection([item.name], ex)
  {
    assert (list + [item])[..|list|] == list;
    var names := UsableNames(st, list + [item]);
    if Usable(st, item) {
      assert names[..|names| - 1] == UsableNames(st, list);
    } else {
      assert names == UsableNames(st, list);
    }
  }

  function Reversed<T>(s: seq<T>): seq<T> {
    seq(|s|, i requires 0 <= i < |s| => s[|s| - 1 - i])
  }

  lemma ReversedAppend<T>(s: seq<T>, x: T)
    ensures Reversed(s + [x]) == [x] + Reversed(s)
    ensures forall older: seq<T> :: (older + [x]) + Reversed(s) == older + Reversed(s + [x])
  {
    assert Reversed(s + [x]) == [x] + Reversed(s);
    forall older: seq<T> ensures (older + [x]) + Reversed(s) == older + Reversed(s + [x]) {
      assert (older + [x]) + Reversed(s) == older + ([x] + Reversed(s));
    }
  }

  /** What is still to be walked, followed by what was found, makes up the selection. */
  ghost predicate WalkInv(
    st: GtidObjects, req: Request, left: seq<Listed>, ex: Option<Span>, found: seq<ObjectName>, sel: Selection)
  {
    var tail := SelectListed(st, req, left, ex);
    sel == Selection(tail.names + Reversed(found), tail.exclude)
  }

  /** The exclude set after looking at a usable object. */
  function NextExclude(st: GtidObjects, req: Request, name: ObjectName, ex: Option<Span>): Option<Span>
    requires name in st
  {
    if req.kind.Transaction? && req.target in Denote(st[name]) then Some(Extend(st[name], req.target)) else ex
  }

  /** An object is passed over: it cannot be used, or the target has not been found yet. */
  lemma WalkSkips(st: GtidObjects, req: Request, left: seq<Listed>, item: Listed, ex: Option<Span>,
                  found: seq<ObjectName>, sel: Selection)
    requires WalkInv(st, req, left + [item], ex, found, sel)
    requires !Usable(st, item) || (req.kind.Transaction? && NextExclude(st, req, item.name, ex).None?)
    ensures WalkInv(st, req, left, ex, found, sel)
  {
    SelectLast(st, req, left, item, ex);
  }

  /** An object is taken, and the walk goes on or stops at it. */
  lemma WalkTakes(st: GtidObjects, req: Request, left: seq<Listed>, item: Listed, ex: Option<Span>,
                  found: seq<ObjectName>, sel: Selection)
    requires WalkInv(st, req, left + [item], ex, found, sel) && Usable(st, item)
    requires !req.kind.Transaction? || NextExclude(st, req, item.name, ex).Some?
    ensures var ex' := NextExclude(st, req, item.name, ex);
      if req.start !! Denote(st[item.name]) then WalkInv(st, req, left, ex', found + [item.name], sel)
      else sel == Selection(Reversed(found + [item.name]), ex')
  {
    SelectLast(st, req, left, item, ex);
    ReversedAppend(found, item.name);
  }

  lemma ReversedPrefix<T>(s: seq<T>, i: nat)
    requires i < |s|
    ensures |Reversed(s)| == |s| && Reversed(s)[..|s| - i] == Reversed(s)[..|s| - (i + 1)] + [s[i]]
  {
  }

  /** Swaps elements from the middle outwards. */
  method Reverse<T>(list: array<T>)
    modifies list
    ensures list[..] == Reversed(old(list[..]))
  {
    var i := list.Length / 2 - 1;
    while i >= 0
      invariant -1 <= i <= list.Length / 2 - 1
      invariant forall k :: i < k < list.Length - 1 - i ==> list[k] == old(list[list.Length - 1 - k])
      invariant forall k :: 0 <= k <= i ==> list[k] == old(list[k])
      invariant forall k :: list.Length - 1 - i <= k < list.Length ==> list[k] == old(list[k])
    {
      var opp := list.Length - 1 - i;
      list[i], list[opp] := list[opp], list[i];
      i := i - 1;
    }
  }

  class Process {
    const request: Request
    var binlogs: seq<ObjectName>
    var gtidSet: Option<Span>

    constructor (req: Request)
      ensures request == req && binlogs == [] && gtidSet.None?
    {
      request, binlogs, gtidSet := req, [], None;
    }

    /** The loop of setBinlogs over the reversed listing; found is newest first. */
    method Walk(list: seq<Listed>, st: GtidObjects) returns (found: seq<ObjectName>)
      modifies this`gtidSet
      ensures SelectListed(st, request, Reversed(list), old(gtidSet)) == Selection(Reversed(found), gtidSet)
    {
      ghost var oldest := Reversed(list);
      ghost var sel := SelectListed(st, request, oldest, gtidSet);
      ghost var n := |list|;
      found := [];
      assert oldest[..n] == oldest;
      for i := 0 to |list|
        invariant WalkInv(st, request, oldest[..n - i], gtidSet, found, sel)
      {
        var item := list[i];
        ghost var left, ex := oldest[..n - (i + 1)], gtidSet;
        ReversedPrefix(list, i);
        if item.GtidSetObject? || item.name !in st {
          WalkSkips(st, request, left, item, ex, found, sel);
          continue;
        }
        var binlogGTIDSet := Denote(st[item.name]);
        if request.kind.Transaction? {
          if request.target in binlogGTIDSet {
            gtidSet := Some(Extend(st[item.name], request.target));
          }
          if gtidSet.None? {
            WalkSkips(st, request, left, item, ex, found, sel);
            continue;
          }
        }
        WalkTakes(st, request, left, item, ex, found, sel);
        found := found + [item.name];
        if request.start - binlogGTIDSet != request.start {
          return;
        }
      }
    }

    /** list is what the storage lists under binlog_, oldest first; it fails when nothing is chosen. */
    method SetBinlogs(list: array<Listed>, st: GtidObjects) returns (ok: bool)
      requires gtidSet.None?
      modifies this, list
      ensures var sel := SelectListed(st, request, old(list[..]), None);
        && gtidSet == sel.exclude
        && (ok <==> sel.names != [])
        && binlogs == if ok then sel.names else old(binlogs)
    {
      ghost var oldest := list[..];
      Reverse(list);
      assert Reversed(list[..]) == oldest;
      var found := Walk(list[..], st);
      if found == [] {
        return false;
      }
      var chosen := new ObjectName[|found|](k requires 0 <= k < |found| => found[k]);
      assert chosen[..] == found;
      Reverse(chosen);
      binlogs := chosen[..];
      return true;
    }
  }
}
