/** Retention of scheduled backups: the oldest succeeded ones beyond the number to keep, taken from
    a binary min-heap over creation times. */
module Retention {

  datatype Backup = Backup(name: string, succeeded: bool, created: int)

  function Parent(k: nat): nat
    requires k > 0
  {
    (k - 1) / 2
  }

  ghost predicate InOrder(s: seq<Backup>, k: nat)
    requires 0 < k < |s|
  {
    s[Parent(k)].created <= s[k].created
  }

  ghost predicate IsHeap(s: seq<Backup>) {
    forall k :: 0 < k < |s| ==> InOrder(s, k)
  }

  /** A heap but for the element at j, which may be older than its parent. */
  ghost predicate HeapButUp(s: seq<Backup>, j: nat) {
    && j < |s|
    && (forall k :: 0 < k < |s| && k != j ==> InOrder(s, k))
    && (j > 0 ==> forall k :: 0 < k < |s| && Parent(k) == j ==> s[Parent(j)].created <= s[k].created)
  }

  /** The first n are a heap but for the element at i, which may be newer than its children. */
  ghost predicate HeapButDown(s: seq<Backup>, i: nat, n: nat) {
    && n <= |s|
    && (forall k :: 0 < k < n && Parent(k) != i ==> InOrder(s, k))
    && (i > 0 && i < n ==> forall k :: 0 < k < n && Parent(k) == i ==> s[Parent(i)].created <= s[k].created)
  }

  lemma {:induction false} RootIsOldest(s: seq<Backup>, k: nat)
    requires IsHeap(s) && k < |s|
    ensures s[0].created <= s[k].created
  {
    if k > 0 {
      assert InOrder(s, k);
      RootIsOldest(s, Parent(k));
    }
  }

  function Swapped(s: seq<Backup>, i: nat, j: nat): (r: seq<Backup>)
    requires i < |s| && j < |s|
  {
    s[i := s[j]][j := s[i]]
  }

  lemma SwapKeeps(s: seq<Backup>, i: nat, j: nat)
    requires i < |s| && j < |s|
    ensures multiset(Swapped(s, i, j)) == multiset(s)
  {
  }

  lemma UpStep(s: seq<Backup>, j: nat)
    requires HeapButUp(s, j) && j > 0 && s[j].created < s[Parent(j)].created
    ensures HeapButUp(Swapped(s, Parent(j), j), Parent(j))
  {
    var i := Parent(j);
    var t := Swapped(s, i, j);
    forall k | 0 < k < |t| && k != i ensures InOrder(t, k) {
      if k != j { assert InOrder(s, k); }
    }
    if i > 0 {
      assert InOrder(s, i);
      forall k | 0 < k < |t| && Parent(k) == i ensures t[Parent(i)].created <= t[k].created {
        if k != j { assert InOrder(s, k); }
      }
    }
  }

  lemma DownStep(s: seq<Backup>, i: nat, j: nat, n: nat)
    requires HeapButDown(s, i, n) && 0 < j < n && Parent(j) == i && s[j].created < s[i].created
    requires forall k :: 0 < k < n && Parent(k) == i ==> s[j].created <= s[k].created
    ensures HeapButDown(Swapped(s, i, j), j, n)
  {
    var t := Swapped(s, i, j);
    forall k | 0 < k < n && Parent(k) != j ensures InOrder(t, k) {
      if k != i && Parent(k) != i { assert InOrder(s, k); }
    }
    forall k | 0 < k < n && Parent(k) == j ensures t[Parent(j)].created <= t[k].created {
      assert InOrder(s, k);
    }
  }

  lemma OldestChild(s: seq<Backup>, i: nat, j: nat, n: nat)
    requires n <= |s| && (j == 2 * i + 1 || j == 2 * i + 2) && j < n
    requires j == 2 * i + 1 && j + 1 < n ==> s[j].created <= s[j + 1].created
    requires j == 2 * i + 2 ==> s[j].created <= s[j - 1].created
    ensures forall k :: 0 < k < n && Parent(k) == i ==> s[j].created <= s[k].created
  {
    forall k | 0 < k < n && Parent(k) == i ensures k == 2 * i + 1 || k == 2 * i + 2 {
    }
  }

  lemma DownDone(s: seq<Backup>, i: nat, n: nat)
    requires HeapButDown(s, i, n)
    requires forall k :: 0 < k < n && Parent(k) == i ==> InOrder(s, k)
    ensures IsHeap(s[..n])
  {
    forall k | 0 < k < n ensures InOrder(s[..n], k) {
      assert InOrder(s, k);
    }
  }

  /** The slice behind container/heap, with that package's push and pop. */
  class MinHeap {
    var items: seq<Backup>

    constructor ()
      ensures items == [] && IsHeap(items)
    {
      items := [];
    }

    method Swap(i: nat, j: nat)
      requires i < |items| && j < |items|
      modifies this
      ensures items == Swapped(old(items), i, j) && multiset(items) == multiset(old(items))
    {
      SwapKeeps(items, i, j);
      items := items[i := items[j]][j := items[i]];
    }

    method Up(start: nat)
      requires HeapButUp(items, start)
      modifies this
      ensures IsHeap(items) && multiset(items) == multiset(old(items))
    {
      var j := start;
      while j > 0 && items[j].created < items[Parent(j)].created
        invariant HeapButUp(items, j) && multiset(items) == multiset(old(items))
        decreases j
      {
        UpStep(items, j);
        Swap(Parent(j), j);
        j := Parent(j);
      }
    }

    method OlderChild(i: nat, n: nat) returns (j: nat)
      requires 2 * i + 1 < n <= |items|
      ensures 0 < j < n && Parent(j) == i
      ensures forall k :: 0 < k < n && Parent(k) == i ==> items[j].created <= items[k].created
    {
      j := 2 * i + 1;
      if j + 1 < n && items[j + 1].created < items[j].created {
        j := j + 1;
      }
      OldestChild(items, i, j, n);
    }

    method SinkOne(i: nat, j: nat, n: nat)
      requires HeapButDown(items, i, n) && 0 < j < n && Parent(j) == i && items[j].created < items[i].created
      requires forall k :: 0 < k < n && Parent(k) == i ==> items[j].created <= items[k].created
      modifies this
      ensures HeapButDown(items, j, n) && multiset(items) == multiset(old(items))
      ensures |items| == |old(items)| && forall k :: n <= k < |items| ==> items[k] == old(items)[k]
    {
      DownStep(items, i, j, n);
      Swap(i, j);
    }

    /** Sifts the root of the first n down. */
    method Down(n: nat)
      requires HeapButDown(items, 0, n)
      modifies this
      ensures |items| == |old(items)| && n <= |items| && forall k :: n <= k < |items| ==> items[k] == old(items)[k]
      ensures IsHeap(items[..n]) && multiset(items) == multiset(old(items))
    {
      var i := 0;
      while 2 * i + 1 < n
        invariant HeapButDown(items, i, n) && multiset(items) == multiset(old(items))
        invariant |items| == |old(items)| && forall k :: n <= k < |items| ==> items[k] == old(items)[k]
        decreases n - i
      {
        var j := OlderChild(i, n);
        if items[j].created >= items[i].created {
          DownDone(items, i, n);
          return;
        }
        SinkOne(i, j, n);
        i := j;
      }
      DownDone(items, i, n);
    }

    method Push(x: Backup)
      requires IsHeap(items)
      modifies this
      ensures IsHeap(items) && multiset(items) == multiset(old(items)) + multiset{x}
    {
      ghost var before := items;
      items := items + [x];
      forall k | 0 < k < |before| ensures InOrder(items, k) {
        assert InOrder(before, k);
      }
      Up(|items| - 1);
    }

    method Pop() returns (x: Backup)
      requires IsHeap(items) && items != []
      modifies this
      ensures IsHeap(items) && multiset(items) + multiset{x} == multiset(old(items))
      ensures forall y :: y in old(items) ==> x.created <= y.created
      ensures |items| == |old(items)| - 1
    {
      ghost var before := items;
      forall k | 0 <= k < |items| ensures items[0].created <= items[k].created {
        RootIsOldest(items, k);
      }
      var n := |items| - 1;
      Swap(0, n);
      forall k | 0 < k < n && Parent(k) != 0 ensures InOrder(items, k) {
        assert InOrder(before, k);
      }
      Down(n);
      x := items[n];
      assert items[n..] == [x] && items == items[..n] + [x];
      items := items[..n];
    }
  }

  function Succeeded(list: seq<Backup>): (r: seq<Backup>)
    ensures forall b :: b in r ==> b.succeeded
  {
    if list == [] then []
    else Succeeded(list[..|list| - 1]) + if list[|list| - 1].succeeded then [list[|list| - 1]] else []
  }

  function Times(list: seq<Backup>): (r: seq<int>)
    ensures |r| == |list| && forall i :: 0 <= i < |list| ==> r[i] == list[i].created
  {
    seq(|list|, i requires 0 <= i < |list| => list[i].created)
  }

  ghost predicate IsSorted(s: seq<int>) {
    forall i, j :: 0 <= i < j < |s| ==> s[i] <= s[j]
  }

  /** The reference: insertion sort. */
  function Insert(x: int, s: seq<int>): seq<int> {
    if s == [] || x <= s[0] then [x] + s else [s[0]] + Insert(x, s[1..])
  }

  lemma ConsSorted(x: int, s: seq<int>)
    requires IsSorted(s) && forall y :: y in s ==> x <= y
    ensures IsSorted([x] + s)
  {
    var r := [x] + s;
    forall i, j | 0 <= i < j < |r| ensures r[i] <= r[j] {
      assert r[j] == s[j - 1] && s[j - 1] in s;
      if i > 0 { assert r[i] == s[i - 1]; }
    }
  }

  lemma InsertedBound(x: int, s: seq<int>, rest: seq<int>, low: int)
    requires multiset(rest) == multiset(s) + multiset{x} && low <= x && forall y :: y in s ==> low <= y
    ensures forall y :: y in rest ==> low <= y
  {
    forall y | y in rest ensures low <= y {
      assert y in multiset(rest);
      if y != x { assert y in s; }
    }
  }

  lemma {:induction false} InsertFacts(x: int, s: seq<int>)
    requires IsSorted(s)
    ensures IsSorted(Insert(x, s)) && multiset(Insert(x, s)) == multiset(s) + multiset{x} && |Insert(x, s)| == |s| + 1
  {
    InsertCounts(x, s);
    if s == [] {
      assert Insert(x, s) == [x];
    } else if x <= s[0] {
      assert forall y :: y in s ==> s[0] <= y;
      ConsSorted(x, s);
    } else {
      InsertFacts(x, s[1..]);
      InsertedBound(x, s[1..], Insert(x, s[1..]), s[0]);
      ConsSorted(s[0], Insert(x, s[1..]));
    }
  }

  lemma {:induction false} InsertCounts(x: int, s: seq<int>)
    ensures multiset(Insert(x, s)) == multiset(s) + multiset{x} && |Insert(x, s)| == |s| + 1
  {
    if s != [] && s[0] < x {
      InsertCounts(x, s[1..]);
      assert s == [s[0]] + s[1..];
    }
  }

  function Sort(s: seq<int>): (r: seq<int>)
    ensures IsSorted(r) && multiset(r) == multiset(s) && |r| == |s|
  {
    if s == [] then [] else
      assert s == [s[0]] + s[1..];
      InsertFacts(s[0], Sort(s[1..]));
      Insert(s[0], Sort(s[1..]))
  }

  lemma SortedHead(s: seq<int>, x: int)
    requires IsSorted(s) && x in s
    ensures s[0] <= x
  {
  }

  lemma SameHead(a: seq<int>, rest: seq<int>, c: seq<int>)
    requires a != [] && IsSorted(a) && IsSorted(c) && multiset(a) + multiset(rest) == multiset(c)
    requires forall x, y :: x in a && y in rest ==> x <= y
    ensures c != [] && a[0] == c[0]
  {
    assert a[0] in a && a[0] in multiset(c);
    SortedHead(c, a[0]);
    assert c[0] in multiset(a) + multiset(rest);
    assert c[0] in a || c[0] in rest;
    if c[0] in a { SortedHead(a, c[0]); }
  }

  lemma TailTakesOne(s: seq<int>)
    requires s != []
    ensures multiset(s[1..]) == multiset(s) - multiset{s[0]} && (IsSorted(s) ==> IsSorted(s[1..]))
    ensures forall x :: x in s[1..] ==> x in s
  {
    assert s == [s[0]] + s[1..];
  }

  lemma TakeOneOfSum(a: multiset<int>, b: multiset<int>, x: int)
    requires x in a
    ensures (a - multiset{x}) + b == (a + b) - multiset{x}
  {
  }

  /** A sorted sequence none of whose elements exceeds the rest is the front of the sorted whole. */
  lemma {:induction false} SortedFront(a: seq<int>, rest: seq<int>, c: seq<int>)
    requires IsSorted(a) && IsSorted(c) && multiset(a) + multiset(rest) == multiset(c)
    requires forall x, y :: x in a && y in rest ==> x <= y
    ensures |a| <= |c| && a == c[..|a|]
    decreases |a|
  {
    if a != [] {
      SameHead(a, rest, c);
      TailTakesOne(a);
      TailTakesOne(c);
      TakeOneOfSum(multiset(a), multiset(rest), a[0]);
      SortedFront(a[1..], rest, c[1..]);
      assert c[..|a|] == [c[0]] + c[1..][..|a| - 1];
    }
  }

  function Without(t: seq<Backup>, j: nat): seq<Backup>
    requires j < |t|
  {
    t[..j] + t[j + 1..]
  }

  lemma WithoutTakesOne(t: seq<Backup>, j: nat)
    requires j < |t|
    ensures multiset(Without(t, j)) == multiset(t) - multiset{t[j]}
  {
    assert t == t[..j] + [t[j]] + t[j + 1..];
  }

  lemma WithoutTakesTime(t: seq<Backup>, j: nat)
    requires j < |t|
    ensures multiset(Times(t)) == multiset(Times(Without(t, j))) + multiset{t[j].created}
  {
    var a, b := Times(t[..j]), Times(t[j + 1..]);
    assert Times(t) == a + [t[j].created] + b;
    assert Times(Without(t, j)) == a + b;
  }

  lemma {:induction false} TimesPermute(s: seq<Backup>, t: seq<Backup>)
    requires multiset(s) == multiset(t)
    ensures multiset(Times(s)) == multiset(Times(t))
    decreases |s|
  {
    if s == [] {
      assert |multiset(t)| == 0;
    } else {
      assert s[0] in multiset(t);
      var j :| 0 <= j < |t| && t[j] == s[0];
      WithoutTakesOne(s, 0);
      WithoutTakesOne(t, j);
      TimesPermute(Without(s, 0), Without(t, j));
      WithoutTakesTime(s, 0);
      WithoutTakesTime(t, j);
    }
  }

  /** Popping the oldest again and again gives what sorting and taking would. */
  lemma PoppedAreSortedFront(popped: seq<Backup>, kept: seq<Backup>, all: seq<Backup>)
    requires multiset(popped) + multiset(kept) == multiset(all) && IsSorted(Times(popped))
    requires forall x, y :: x in popped && y in kept ==> x.created <= y.created
    ensures |popped| <= |all| && Times(popped) == Sort(Times(all))[..|popped|]
  {
    assert multiset(popped + kept) == multiset(all);
    TimesPermute(popped + kept, all);
    assert Times(popped + kept) == Times(popped) + Times(kept);
    forall x, y | x in Times(popped) && y in Times(kept) ensures x <= y {
      var i :| 0 <= i < |popped| && Times(popped)[i] == x;
      var j :| 0 <= j < |kept| && Times(kept)[j] == y;
      assert popped[i] in popped && kept[j] in kept;
    }
    SortedFront(Times(popped), Times(kept), Sort(Times(all)));
    assert |multiset(all)| == |popped| + |kept|;
  }

  method HeapOfSucceeded(list: seq<Backup>) returns (h: MinHeap)
    ensures fresh(h) && IsHeap(h.items)
    ensures multiset(h.items) == multiset(Succeeded(list)) && |h.items| == |Succeeded(list)|
  {
    h := new MinHeap();
    for i := 0 to |list|
      invariant IsHeap(h.items) && multiset(h.items) == multiset(Succeeded(list[..i])) && fresh(h)
    {
      assert list[..i + 1][..i] == list[..i];
      if list[i].succeeded { h.Push(list[i]); }
    }
    assert list[..|list|] == list;
    assert |multiset(h.items)| == |Succeeded(list)|;
  }

  lemma PopKeepsFront(ret: seq<Backup>, before: seq<Backup>, o: Backup, after: seq<Backup>)
    requires IsSorted(Times(ret)) && forall x, y :: x in ret && y in before ==> x.created <= y.created
    requires multiset(after) + multiset{o} == multiset(before) && forall y :: y in before ==> o.created <= y.created
    ensures IsSorted(Times(ret + [o])) && forall x, y :: x in ret + [o] && y in after ==> x.created <= y.created
  {
    forall y | y in after ensures y in before {
      assert y in multiset(after) + multiset{o};
    }
    assert o in multiset(before);
  }

  /** The oldest elements of a heap, in order, and what is left. */
  method PopOldest(h: MinHeap, count: nat) returns (ret: seq<Backup>)
    requires IsHeap(h.items) && count <= |h.items|
    modifies h
    ensures IsHeap(h.items) && |ret| == count && IsSorted(Times(ret))
    ensures multiset(ret) + multiset(h.items) == multiset(old(h.items))
    ensures forall x, y :: x in ret && y in h.items ==> x.created <= y.created
  {
    ret := [];
    var i := count;
    while i > 0
      invariant IsHeap(h.items) && 0 <= i <= |h.items| && |ret| + i == count && IsSorted(Times(ret))
      invariant multiset(ret) + multiset(h.items) == multiset(old(h.items))
      invariant forall x, y :: x in ret && y in h.items ==> x.created <= y.created
      decreases i
    {
      ghost var before := h.items;
      var o := h.Pop();
      PopKeepsFront(ret, before, o, h.items);
      ret := ret + [o];
      i := i - 1;
    }
  }

  /** oldScheduledBackups on the listed backups. kept are the succeeded ones that stay. */
  method OldScheduledBackups(list: seq<Backup>, keep: nat) returns (ret: seq<Backup>, ghost kept: seq<Backup>)
    ensures |ret| == if |Succeeded(list)| > keep then |Succeeded(list)| - keep else 0
    ensures Times(ret) == Sort(Times(Succeeded(list)))[..|ret|]
    ensures multiset(ret) + multiset(kept) == multiset(Succeeded(list))
    ensures forall x :: x in ret ==> x.succeeded && forall y :: y in kept ==> x.created <= y.created
  {
    ret, kept := [], Succeeded(list);
    SucceededFewer(list);
    if |list| <= keep { return; }
    var h := HeapOfSucceeded(list);
    kept := h.items;
    if |h.items| <= keep { return; }
    ret := PopOldest(h, |h.items| - keep);
    kept := h.items;
    PoppedAreSortedFront(ret, kept, Succeeded(list));
    forall x | x in ret ensures x in Succeeded(list) {
      assert x in multiset(ret) + multiset(kept);
    }
  }

  lemma {:induction false} SucceededFewer(list: seq<Backup>)
    ensures |Succeeded(list)| <= |list|
  {
    if list != [] { SucceededFewer(list[..|list| - 1]); }
  }
}
