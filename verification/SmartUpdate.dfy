/** The smart update: it deletes the outdated pods of the PXC StatefulSet one at a time, waits for
    each to come back, and leaves the primary for last. */
module SmartUpdate {
  import opened Options
  import opened GoStrings

  datatype Container = Container(name: string, ready: bool, waiting: Option<string>)

  /** A pod condition; age is the time in seconds since its last transition. */
  datatype Condition = Condition(kind: string, status: string, age: int)

  /** What the API server says about a pod. */
  datatype View = View(revision: string, phase: string, containers: seq<Container>, conditions: seq<Condition>)

  /** A listed pod. Its name is the StatefulSet's name, a dash and its ordinal. */
  datatype Pod = Pod(ordinal: nat, ip: string, view: View)

  /** What a poll's get and status update answer. */
  datatype Reply = FetchError | StatusError | NotFound | Found(view: View)

  /** What is answered while one pod has its turn. */
  datatype Answers = Answers(deleted: bool, replies: seq<Reply>, synced: bool, inHostgroup: bool, online: bool)

  /** What happened, in order. Seen is the view a poll judged. */
  datatype Event = Deleted(ordinal: nat) | Seen(ordinal: nat, view: View) | Synced(ordinal: nat) | Failed

  function PodName(sts: string, ordinal: nat): string {
    sts + "-" + Decimal(ordinal)
  }

  function PodFqdn(name: string, sts: string, namespace: string): string {
    name + "." + sts + "." + namespace
  }

  /** getPodOrderInSts. */
  function PodOrder(sts: string, name: string): Parsed
    requires |name| > |sts|
  {
    ParseInt(name[|sts| + 1..])
  }

  lemma PodOrderReadsOrdinal(sts: string, ordinal: nat)
    ensures PodOrder(sts, PodName(sts, ordinal)) == if ordinal <= MAX_INT64 then Number(ordinal) else Invalid
  {
    assert PodName(sts, ordinal)[|sts| + 1..] == Decimal(ordinal);
    ValueOfDecimal(ordinal);
    assert IsDigit(Decimal(ordinal)[0]);
  }

  /** At most one pod of a StatefulSet matches the primary's address. */
  lemma OnePrimary(primary: string, sts: string, namespace: string, m: nat, n: nat)
    requires HasPrefix(primary, PodFqdn(PodName(sts, m), sts, namespace))
    requires HasPrefix(primary, PodFqdn(PodName(sts, n), sts, namespace))
    ensures m == n
  {
    SameDigits(primary, sts, namespace, m, n);
    ValueOfDecimal(m);
    ValueOfDecimal(n);
  }

  lemma SameDigits(primary: string, sts: string, namespace: string, m: nat, n: nat)
    requires PodFqdn(PodName(sts, m), sts, namespace) <= primary && PodFqdn(PodName(sts, n), sts, namespace) <= primary
    ensures Decimal(m) == Decimal(n)
  {
    var a, b := Decimal(m), Decimal(n);
    DigitsAt(primary, sts, namespace, m);
    DigitsAt(primary, sts, namespace, n);
    assert |a| == |b| && a == primary[|sts| + 1..|sts| + 1 + |a|];
  }

  lemma DigitsAt(primary: string, sts: string, namespace: string, m: nat)
    requires PodFqdn(PodName(sts, m), sts, namespace) <= primary
    ensures var a := Decimal(m); var at := |sts| + 1;
      && at + |a| < |primary| && primary[at..at + |a|] == a && primary[at + |a|] == '.'
      && forall i :: at <= i < at + |a| ==> primary[i] != '.'
  {
    var a, at := Decimal(m), |sts| + 1;
    var fqdn := PodFqdn(PodName(sts, m), sts, namespace);
    assert fqdn == (sts + "-") + (a + ("." + sts + "." + namespace));
    assert fqdn[at..at + |a|] == a && fqdn[at + |a|] == '.';
    assert primary[..|fqdn|] == fqdn;
    forall i | at <= i < at + |a| ensures primary[i] != '.' {
      assert primary[i] == a[i - at] && IsDigit(a[i - at]);
    }
  }

  predicate BadReason(c: Container) {
    c.name == "pxc" && c.waiting.Some?
    && (c.waiting.value == "ImagePullBackOff" || c.waiting.value == "ErrImagePull"
        || c.waiting.value == "CrashLoopBackOff")
  }

  predicate Unscheduled(c: Condition) {
    c.kind == "PodScheduled" && c.status == "False" && c.age > 120
  }

  predicate Fatal(v: View) {
    || (exists i :: 0 <= i < |v.containers| && BadReason(v.containers[i]))
    || (exists i :: 0 <= i < |v.conditions| && Unscheduled(v.conditions[i]))
    || v.phase == "Failed"
  }

  /** Container names are unique in a pod; if they were not, the last pxc container would decide. */
  predicate PxcReady(cs: seq<Container>) {
    exists i :: (0 <= i < |cs| && cs[i].name == "pxc" && cs[i].ready
      && forall j :: i < j < |cs| ==> cs[j].name != "pxc")
  }

  predicate UpToDate(v: View, revision: string) {
    !Fatal(v) && v.phase == "Running" && v.revision == revision && PxcReady(v.containers)
  }

  /** One poll's verdict on a view. */
  method Judge(v: View, revision: string) returns (done: bool, failed: bool)
    ensures failed <==> Fatal(v)
    ensures done <==> UpToDate(v, revision)
  {
    var ready := false;
    for i := 0 to |v.containers|
      invariant ready <==> PxcReady(v.containers[..i])
      invariant forall j :: 0 <= j < i ==> !BadReason(v.containers[j])
    {
      var c := v.containers[i];
      assert v.containers[..i + 1] == v.containers[..i] + [c];
      if c.name == "pxc" {
        ready := c.ready;
        if BadReason(c) { return false, true; }
        assert PxcReady(v.containers[..i + 1]) <==> v.containers[..i + 1][i].ready;
      } else {
        ReadySkips(v.containers[..i], c);
      }
    }
    assert v.containers[..|v.containers|] == v.containers;
    for i := 0 to |v.conditions|
      invariant forall j :: 0 <= j < i ==> !Unscheduled(v.conditions[j])
    {
      if v.conditions[i].kind != "PodScheduled" || v.conditions[i].status != "False" { continue; }
      if v.conditions[i].age > 120 { return false, true; }
    }
    if v.phase == "Failed" { return false, true; }
    if v.phase != "Running" || v.revision != revision { return false, false; }
    return ready, false;
  }

  /** The first poll that decides says yes. A pod that is not found keeps the view it had. */
  predicate Restarts(view: View, replies: seq<Reply>, revision: string)
    decreases |replies|
  {
    if replies == [] || replies[0].FetchError? || replies[0].StatusError? then false
    else
      var seen := if replies[0].Found? then replies[0].view else view;
      !Fatal(seen) && (UpToDate(seen, revision) || Restarts(seen, replies[1..], revision))
  }

  lemma ReadySkips(cs: seq<Container>, c: Container)
    requires c.name != "pxc"
    ensures PxcReady(cs + [c]) <==> PxcReady(cs)
  {
    var more := cs + [c];
    if PxcReady(cs) {
      var i :| 0 <= i < |cs| && cs[i].name == "pxc" && cs[i].ready && forall j :: i < j < |cs| ==> cs[j].name != "pxc";
      assert more[i] == cs[i];
    }
    if PxcReady(more) {
      var i :| (0 <= i < |more| && more[i].name == "pxc" && more[i].ready
        && forall j :: i < j < |more| ==> more[j].name != "pxc");
      assert more[i] == cs[i] && forall j :: i < j < |cs| ==> cs[j] == more[j];
    }
  }

  /** Strictly between i and j the pod was seen up to date and then Synced. */
  ghost predicate Confirmed(trace: seq<Event>, i: int, j: int, ordinal: nat, revision: string) {
    exists k, l :: (i < k < l < j && 0 <= k && l < |trace|
      && trace[k].Seen? && trace[k].ordinal == ordinal && UpToDate(trace[k].view, revision)
      && trace[l] == Synced(ordinal))
  }

  lemma ConfirmedGrows(trace: seq<Event>, more: seq<Event>, i: int, j: int, m: int, ordinal: nat, revision: string)
    requires trace <= more && j <= m && Confirmed(trace, i, j, ordinal, revision)
    ensures Confirmed(more, i, m, ordinal, revision)
  {
    var k, l :| i < k < l < j && 0 <= k && l < |trace|
      && trace[k].Seen? && trace[k].ordinal == ordinal && UpToDate(trace[k].view, revision)
      && trace[l] == Synced(ordinal);
    assert more[k] == trace[k] && more[l] == trace[l];
  }

  /** Between a deletion of a pod that comes back and the next deletion, the pod is confirmed. */
  ghost predicate OneAtATime(trace: seq<Event>, replicas: int, revision: string) {
    forall i, j :: (0 <= i < j < |trace| && trace[i].Deleted? && trace[j].Deleted? && trace[i].ordinal < replicas) ==>
      Confirmed(trace, i, j, trace[i].ordinal, revision)
  }

  /** Every pod deleted so far that comes back is confirmed. */
  ghost predicate NonePending(trace: seq<Event>, replicas: int, revision: string) {
    forall i :: (0 <= i < |trace| && trace[i].Deleted? && trace[i].ordinal < replicas) ==>
      Confirmed(trace, i, |trace|, trace[i].ordinal, revision)
  }

  /** Before j every one of these pods that comes back is confirmed, after its deletion if it had one. */
  ghost predicate OthersConfirmed(
    trace: seq<Event>, j: int, pods: seq<Pod>, primary: nat, replicas: int, revision: string)
  {
    forall p :: (p in pods && p.ordinal != primary && p.ordinal < replicas) ==>
      Confirmed(trace, -1, j, p.ordinal, revision)
  }

  ghost predicate PrimaryLast(trace: seq<Event>, pods: seq<Pod>, primary: nat, replicas: int, revision: string) {
    forall j :: 0 <= j < |trace| && trace[j] == Deleted(primary) ==>
      OthersConfirmed(trace, j, pods, primary, replicas, revision)
  }

  /** Only outdated listed pods are deleted. */
  ghost predicate OnlyOutdated(trace: seq<Event>, pods: seq<Pod>, revision: string) {
    forall j :: 0 <= j < |trace| && trace[j].Deleted? ==>
      exists p :: p in pods && p.ordinal == trace[j].ordinal && p.view.revision != revision
  }

  /** Events after position n are about one pod, and a deletion can only be the first. */
  ghost predicate About(trace: seq<Event>, n: nat, pod: Pod, revision: string) {
    && (forall j :: n <= j < |trace| ==> !trace[j].Failed? && trace[j].ordinal == pod.ordinal)
    && (forall j :: n <= j < |trace| && trace[j].Deleted? ==> j == n && pod.view.revision != revision)
  }

  lemma AboutKeepsSafe(before: seq<Event>, after: seq<Event>, pod: Pod, pods: seq<Pod>, replicas: int, revision: string)
    requires before <= after && About(after, |before|, pod, revision) && pod in pods
    requires OneAtATime(before, replicas, revision) && NonePending(before, replicas, revision)
    requires OnlyOutdated(before, pods, revision)
    ensures OneAtATime(after, replicas, revision) && OnlyOutdated(after, pods, revision)
  {
    forall i, j | 0 <= i < j < |after| && after[i].Deleted? && after[j].Deleted? && after[i].ordinal < replicas
      ensures Confirmed(after, i, j, after[i].ordinal, revision)
    {
      if j < |before| {
        assert before[i] == after[i] && before[j] == after[j];
        assert Confirmed(before, i, j, before[i].ordinal, revision);
        ConfirmedGrows(before, after, i, j, j, after[i].ordinal, revision);
      } else {
        assert j == |before| && before[i] == after[i];
        ConfirmedGrows(before, after, i, |before|, j, after[i].ordinal, revision);
      }
    }
    forall j | 0 <= j < |after| && after[j].Deleted?
      ensures exists p :: p in pods && p.ordinal == after[j].ordinal && p.view.revision != revision
    {
      if j < |before| { assert before[j] == after[j]; }
    }
  }

  lemma AboutKeepsNonePending(before: seq<Event>, after: seq<Event>, pod: Pod, replicas: int, revision: string)
    requires before <= after && About(after, |before|, pod, revision)
    requires NonePending(before, replicas, revision)
    requires pod.ordinal < replicas ==> Confirmed(after, |before| - 1, |after|, pod.ordinal, revision)
    requires pod.ordinal < replicas && |before| < |after| && after[|before|].Deleted? ==>
      Confirmed(after, |before|, |after|, pod.ordinal, revision)
    ensures NonePending(after, replicas, revision)
  {
    forall i | 0 <= i < |after| && after[i].Deleted? && after[i].ordinal < replicas
      ensures Confirmed(after, i, |after|, after[i].ordinal, revision)
    {
      if i < |before| {
        assert before[i] == after[i];
        ConfirmedGrows(before, after, i, |before|, |after|, after[i].ordinal, revision);
      }
    }
  }

  /** The event says what was answered while the pod had its turn. */
  ghost predicate TrueOf(e: Event, pod: Pod, a: Answers) {
    match e
    case Deleted(_) => a.deleted
    case Seen(_, view) => view == pod.view || Found(view) in a.replies
    case Synced(_) => a.synced
    case Failed => true
  }

  /** Every event but a failure is true of a listed pod and of what was answered for it. */
  ghost predicate Truthful(t: seq<Event>, pods: seq<Pod>, answers: nat -> Answers) {
    forall i :: 0 <= i < |t| && !t[i].Failed? ==>
      exists p :: p in pods && p.ordinal == t[i].ordinal && TrueOf(t[i], p, answers(p.ordinal))
  }

  lemma TurnIsTruthful(
    before: seq<Event>, after: seq<Event>, pods: seq<Pod>, pod: Pod, answers: nat -> Answers, revision: string)
    requires Truthful(before, pods, answers) && before <= after && pod in pods
    requires About(after, |before|, pod, revision)
    requires forall j :: |before| <= j < |after| ==> TrueOf(after[j], pod, answers(pod.ordinal))
    ensures Truthful(after, pods, answers)
  {
    forall i | 0 <= i < |after| && !after[i].Failed?
      ensures exists p :: p in pods && p.ordinal == after[i].ordinal && TrueOf(after[i], p, answers(p.ordinal))
    {
      if i < |before| {
        assert after[i] == before[i];
      } else {
        assert pod.ordinal == after[i].ordinal;
      }
    }
  }

  class Rollout {
    const sts: string
    const namespace: string
    const revision: string  // the StatefulSet's update revision
    const replicas: int
    const proxysql: bool
    var trace: seq<Event>

    constructor (sts: string, namespace: string, revision: string, replicas: int, proxysql: bool)
      ensures trace == [] && this.sts == sts && this.namespace == namespace && this.revision == revision
      ensures this.replicas == replicas && this.proxysql == proxysql
    {
      this.sts, this.namespace, this.revision := sts, namespace, revision;
      this.replicas, this.proxysql := replicas, proxysql;
      trace := [];
    }

    /** Polls until the pod is up to date, a poll fails or the replies (the time) run out. */
    method WaitPodRestart(pod: Pod, replies: seq<Reply>) returns (ok: bool)
      modifies this`trace
      ensures ok <==> Restarts(pod.view, replies, revision)
      ensures old(trace) <= trace
      ensures forall j :: |old(trace)| <= j < |trace| ==> trace[j].Seen? && trace[j].ordinal == pod.ordinal
      ensures forall j :: |old(trace)| <= j < |trace| ==> trace[j].view == pod.view || Found(trace[j].view) in replies
      ensures ok ==> |old(trace)| < |trace| && UpToDate(trace[|trace| - 1].view, revision)
    {
      var view := pod.view;
      for i := 0 to |replies|
        invariant Restarts(view, replies[i..], revision) == Restarts(pod.view, replies, revision)
        invariant old(trace) <= trace
        invariant forall j :: |old(trace)| <= j < |trace| ==> trace[j].Seen? && trace[j].ordinal == pod.ordinal
        invariant forall j :: |old(trace)| <= j < |trace| ==>
          trace[j].view == pod.view || Found(trace[j].view) in replies
        invariant view == pod.view || Found(view) in replies
      {
        assert replies[i..][1..] == replies[i + 1..] && replies[i] in replies;
        match replies[i] {
          case FetchError => return false;
          case StatusError => return false;
          case NotFound =>
          case Found(v) => view := v;
        }
        trace := trace + [Seen(pod.ordinal, view)];
        var done, failed := Judge(view, revision);
        if failed { return false; }
        if done { return true; }
      }
      return false;
    }

    /** Exactly what makes a pod's turn succeed. */
    predicate Goes(pod: Pod, a: Answers) {
      && (pod.view.revision != revision ==> a.deleted)
      && pod.ordinal <= MAX_INT64
      && (pod.ordinal < replicas ==>
           Restarts(pod.view, a.replies, revision) && a.synced && (proxysql ==> a.inHostgroup && a.online))
    }

    /** applyNWait: delete if outdated, then wait unless the pod is being scaled away. */
    method ApplyNWait(pod: Pod, a: Answers) returns (ok: bool)
      modifies this`trace
      ensures ok <==> Goes(pod, a)
      ensures old(trace) <= trace && About(trace, |old(trace)|, pod, revision)
      ensures forall j :: |old(trace)| <= j < |trace| ==> TrueOf(trace[j], pod, a)
      ensures ok && pod.view.revision != revision ==>
        |old(trace)| < |trace| && trace[|old(trace)|] == Deleted(pod.ordinal)
      ensures ok && pod.ordinal < replicas ==>
        Confirmed(trace, if pod.view.revision != revision then |old(trace)| else |old(trace)| - 1, |trace|,
                  pod.ordinal, revision)
    {
      var name := PodName(sts, pod.ordinal);
      if pod.view.revision != revision {
        if !a.deleted { return false; }
        trace := trace + [Deleted(pod.ordinal)];
      }
      ghost var n := |trace|;
      PodOrderReadsOrdinal(sts, pod.ordinal);
      var order := PodOrder(sts, name);
      if order.Invalid? { return false; }
      if order.value >= replicas { return true; }
      var restarted := WaitPodRestart(pod, a.replies);
      if !restarted { return false; }
      if !a.synced { return false; }
      trace := trace + [Synced(pod.ordinal)];
      if proxysql {
        if !a.inHostgroup || !a.online { return false; }
      }
      ok := true;
      assert n <= |trace| - 2 && trace[|trace| - 2].Seen? && trace[|trace| - 1] == Synced(pod.ordinal);
    }

    /** The pod has the IP or the name that was found for the primary. */
    predicate Named(pod: Pod, given: string) {
      pod.ip == given || PodName(sts, pod.ordinal) == given
    }

    /** Pod i is the first one named. */
    ghost predicate FirstNamed(pods: seq<Pod>, given: string, i: int) {
      0 <= i < |pods| && Named(pods[i], given) && forall j :: 0 <= j < i ==> !Named(pods[j], given)
    }

    /** The primary's address: that of the first listed pod with the IP or name found, else as found. */
    method ResolvePrimary(pods: seq<Pod>, given: string) returns (primary: string)
      ensures forall i :: FirstNamed(pods, given, i) ==>
        primary == PodFqdn(PodName(sts, pods[i].ordinal), sts, namespace)
      ensures (forall p :: p in pods ==> !Named(p, given)) ==> primary == given
    {
      for i := 0 to |pods|
        invariant forall j :: 0 <= j < i ==> !Named(pods[j], given)
      {
        var name := PodName(sts, pods[i].ordinal);
        if pods[i].ip == given || name == given {
          assert pods[i] in pods;
          return PodFqdn(name, sts, namespace);
        }
      }
      return given;
    }

    /** The pod meant by what was found for the primary: the first one with that IP or name or, when
        there is none, the one at whose address the finding begins. */
    ghost predicate ThePrimary(pods: seq<Pod>, given: string, pod: Pod) {
      || (exists i :: FirstNamed(pods, given, i) && pods[i] == pod)
      || (pod in pods && (forall p :: p in pods ==> !Named(p, given)) && IsPrimary(given, pod))
    }

    lemma SomeFirstNamed(pods: seq<Pod>, given: string, p: Pod) returns (i: nat)
      requires p in pods && Named(p, given)
      ensures FirstNamed(pods, given, i)
    {
      i := 0;
      while !Named(pods[i], given)
        invariant i < |pods| && forall j :: 0 <= j < i ==> !Named(pods[j], given)
        decreases |pods| - i
      {
        var k :| 0 <= k < |pods| && pods[k] == p;
        assert k > i;
        i := i + 1;
      }
    }

    /** Resolving the address and comparing addresses singles out that pod. */
    lemma ResolvedIsThePrimary(pods: seq<Pod>, given: string, primary: string, p: Pod)
      requires forall i, j :: 0 <= i < j < |pods| ==> pods[i].ordinal != pods[j].ordinal
      requires forall i :: FirstNamed(pods, given, i) ==>
        primary == PodFqdn(PodName(sts, pods[i].ordinal), sts, namespace)
      requires (forall q :: q in pods ==> !Named(q, given)) ==> primary == given
      requires p in pods
      ensures IsPrimary(primary, p) <==> ThePrimary(pods, given, p)
    {
      if q :| q in pods && Named(q, given) {
        var i := SomeFirstNamed(pods, given, q);
        assert IsPrimary(primary, pods[i]);
        if IsPrimary(primary, p) {
          OnePrimary(primary, sts, namespace, p.ordinal, pods[i].ordinal);
          var k :| 0 <= k < |pods| && pods[k] == p;
        }
      }
    }

    predicate IsPrimary(primary: string, pod: Pod) {
      HasPrefix(primary, PodFqdn(PodName(sts, pod.ordinal), sts, namespace))
    }

    /** The secondaries among these pods are done. */
    ghost predicate Updated(t: seq<Event>, pods: seq<Pod>, primary: string) {
      forall p :: p in pods && !IsPrimary(primary, p) ==>
        && (p.ordinal < replicas ==> Confirmed(t, -1, |t|, p.ordinal, revision))
        && (p.view.revision != revision ==> Deleted(p.ordinal) in t)
    }

    /** What holds of the trace until the primary's turn. */
    ghost predicate Safe(t: seq<Event>, pods: seq<Pod>, primary: string) {
      && OneAtATime(t, replicas, revision) && OnlyOutdated(t, pods, revision)
      && Failed !in t
      && forall p :: p in pods && IsPrimary(primary, p) ==> Deleted(p.ordinal) !in t
    }

    lemma SafeStep(before: seq<Event>, after: seq<Event>, pods: seq<Pod>, pod: Pod, primary: string)
      requires Safe(before, pods, primary) && NonePending(before, replicas, revision)
      requires before <= after && About(after, |before|, pod, revision) && pod in pods && !IsPrimary(primary, pod)
      ensures Safe(after, pods, primary)
    {
      AboutKeepsSafe(before, after, pod, pods, replicas, revision);
      forall j | 0 <= j < |after|
        ensures !after[j].Failed?
        ensures forall p :: p in pods && IsPrimary(primary, p) ==> after[j] != Deleted(p.ordinal)
      {
        if j < |before| { assert after[j] == before[j] && before[j] in before; }
      }
    }

    lemma UpdatedStep(before: seq<Event>, after: seq<Event>, done: seq<Pod>, pod: Pod, primary: string)
      requires before <= after && Updated(before, done, primary)
      requires pod.view.revision != revision ==> |before| < |after| && after[|before|] == Deleted(pod.ordinal)
      requires pod.ordinal < replicas ==>
        Confirmed(after, if pod.view.revision != revision then |before| else |before| - 1, |after|,
                  pod.ordinal, revision)
      ensures Updated(after, done + [pod], primary)
    {
      forall p | p in done + [pod] && !IsPrimary(primary, p)
        ensures p.ordinal < replicas ==> Confirmed(after, -1, |after|, p.ordinal, revision)
        ensures p.view.revision != revision ==> Deleted(p.ordinal) in after
      {
        if p in done {
          if p.ordinal < replicas { ConfirmedGrows(before, after, -1, |before|, |after|, p.ordinal, revision); }
          assert forall e :: e in before ==> e in after;
        } else if p.ordinal < replicas {
          ConfirmedWiden(after, |before|, |after|, p);
        }
      }
    }

    lemma ConfirmedWiden(t: seq<Event>, n: nat, j: int, pod: Pod)
      requires Confirmed(t, n, j, pod.ordinal, revision) || Confirmed(t, n - 1, j, pod.ordinal, revision)
      ensures Confirmed(t, -1, j, pod.ordinal, revision)
    {
    }

    /** The run so far and, when it succeeded, the primary among the pods if it is listed. */
    method Secondaries(pods: seq<Pod>, primary: string, answers: nat -> Answers)
      returns (ok: bool, primaryPod: Option<Pod>)
      requires trace == []
      modifies this`trace
      ensures ok <==> forall p :: p in pods && !IsPrimary(primary, p) ==> Goes(p, answers(p.ordinal))
      ensures Safe(trace, pods, primary) && Truthful(trace, pods, answers)
      ensures ok ==> NonePending(trace, replicas, revision) && Updated(trace, pods, primary)
      ensures ok ==> if primaryPod.Some? then primaryPod.value in pods && IsPrimary(primary, primaryPod.value)
                     else forall p :: p in pods ==> !IsPrimary(primary, p)
    {
      primaryPod := None;
      for i := 0 to |pods|
        invariant Safe(trace, pods, primary) && NonePending(trace, replicas, revision)
        invariant Truthful(trace, pods, answers)
        invariant Updated(trace, pods[..i], primary)
        invariant forall p :: p in pods[..i] && !IsPrimary(primary, p) ==> Goes(p, answers(p.ordinal))
        invariant if primaryPod.Some? then primaryPod.value in pods && IsPrimary(primary, primaryPod.value)
                  else forall p :: p in pods[..i] ==> !IsPrimary(primary, p)
      {
        var pod := pods[i];
        assert pods[..i + 1] == pods[..i] + [pod];
        if IsPrimary(primary, pod) {
          primaryPod := Some(pod);
        } else {
          ghost var before := trace;
          ok := ApplyNWait(pod, answers(pod.ordinal));
          SafeStep(before, trace, pods, pod, primary);
          TurnIsTruthful(before, trace, pods, pod, answers, revision);
          if !ok { return; }
          UpdatedStep(before, trace, pods[..i], pod, primary);
          AboutKeepsNonePending(before, trace, pod, replicas, revision);
        }
      }
      assert pods[..|pods|] == pods;
      ok := true;
    }

    lemma PrimaryStep(before: seq<Event>, after: seq<Event>, pods: seq<Pod>, pod: Pod, primary: string)
      requires Safe(before, pods, primary) && Updated(before, pods, primary)
      requires before <= after && About(after, |before|, pod, revision) && pod in pods && IsPrimary(primary, pod)
      ensures PrimaryLast(after, pods, pod.ordinal, replicas, revision)
    {
      forall k | 0 <= k < |before| ensures before[k] != Deleted(pod.ordinal) {
        assert before[k] in before;
      }
      forall j | 0 <= j < |after| && after[j] == Deleted(pod.ordinal)
        ensures OthersConfirmed(after, j, pods, pod.ordinal, replicas, revision)
      {
        forall p | p in pods && p.ordinal != pod.ordinal && p.ordinal < replicas
          ensures Confirmed(after, -1, j, p.ordinal, revision)
        {
          if IsPrimary(primary, p) { OnePrimary(primary, sts, namespace, p.ordinal, pod.ordinal); }
          ConfirmedGrows(before, after, -1, |before|, j, p.ordinal, revision);
        }
      }
    }

    /** What one run promises, whatever the API server and the database answer. */
    ghost predicate RunSafe(t: seq<Event>, pods: seq<Pod>, primary: string, ok: bool) {
      && OneAtATime(t, replicas, revision) && OnlyOutdated(t, pods, revision)
      && (forall p :: p in pods && IsPrimary(primary, p) ==> PrimaryLast(t, pods, p.ordinal, replicas, revision))
      && (forall j :: 0 <= j < |t| && t[j].Failed? ==> j == |t| - 1)
      && (ok <==> Failed !in t)
    }

    lemma FailureIsLast(t: seq<Event>, pods: seq<Pod>, primary: string)
      requires RunSafe(t, pods, primary, true)
      ensures RunSafe(t + [Failed], pods, primary, false)
    {
      var t' := t + [Failed];
      forall i, j | 0 <= i < j < |t'| && t'[i].Deleted? && t'[j].Deleted? && t'[i].ordinal < replicas
        ensures Confirmed(t', i, j, t'[i].ordinal, revision)
      {
        ConfirmedGrows(t, t', i, j, j, t[i].ordinal, revision);
      }
      forall p, j | p in pods && IsPrimary(primary, p) && 0 <= j < |t'| && t'[j] == Deleted(p.ordinal)
        ensures OthersConfirmed(t', j, pods, p.ordinal, replicas, revision)
      {
        assert OthersConfirmed(t, j, pods, p.ordinal, replicas, revision);
        forall q | q in pods && q.ordinal != p.ordinal && q.ordinal < replicas
          ensures Confirmed(t', -1, j, q.ordinal, revision)
        {
          ConfirmedGrows(t, t', -1, j, j, q.ordinal, revision);
        }
      }
      assert t'[|t|] in t';
    }

    method Fail(ghost pods: seq<Pod>, ghost primary: string) returns (ok: bool)
      requires RunSafe(trace, pods, primary, true)
      modifies this`trace
      ensures !ok && RunSafe(trace, pods, primary, false) && trace == old(trace) + [Failed]
    {
      FailureIsLast(trace, pods, primary);
      trace := trace + [Failed];
      ok := false;
    }

    lemma SafeIsRunSafe(t: seq<Event>, pods: seq<Pod>, primary: string)
      requires Safe(t, pods, primary)
      ensures RunSafe(t, pods, primary, true)
    {
      forall j | 0 <= j < |t| ensures t[j] in t {
      }
    }

    /** What one run promises of the pod that was found to be the primary. */
    ghost predicate UpdateSafe(t: seq<Event>, pods: seq<Pod>, given: string, ok: bool) {
      && OneAtATime(t, replicas, revision) && OnlyOutdated(t, pods, revision)
      && (forall p :: ThePrimary(pods, given, p) ==> PrimaryLast(t, pods, p.ordinal, replicas, revision))
      && (forall j :: 0 <= j < |t| && t[j].Failed? ==> j == |t| - 1)
      && (ok <==> Failed !in t)
    }

    lemma RunIsUpdateSafe(t: seq<Event>, pods: seq<Pod>, given: string, primary: string, ok: bool)
      requires RunSafe(t, pods, primary, ok)
      requires forall p :: p in pods ==> (IsPrimary(primary, p) <==> ThePrimary(pods, given, p))
      ensures UpdateSafe(t, pods, given, ok)
    {
      forall p | ThePrimary(pods, given, p) ensures PrimaryLast(t, pods, p.ordinal, replicas, revision) {
        assert p in pods;
      }
    }

    /** A whole smart update of the listed pods, given what was found for the primary: its IP, its name
        or its address. It succeeds exactly when the primary is among the pods and every pod's turn
        goes well; then every pod that stays is confirmed and every outdated one was deleted. */
    method Update(pods: seq<Pod>, given: string, backupRunning: bool, answers: nat -> Answers) returns (ok: bool)
      requires trace == []
      requires forall i, j :: 0 <= i < j < |pods| ==> pods[i].ordinal != pods[j].ordinal
      modifies this`trace
      ensures UpdateSafe(trace, pods, given, ok) && Truthful(trace, pods, answers)
      ensures var due := !backupRunning && exists p :: p in pods && p.view.revision != revision;
        if due then
          && (ok <==> && (exists p :: p in pods && ThePrimary(pods, given, p))
                      && (forall p :: p in pods ==> Goes(p, answers(p.ordinal))))
          && (ok ==> NonePending(trace, replicas, revision)
                     && forall p :: p in pods && p.view.revision != revision ==> Deleted(p.ordinal) in trace)
        else trace == []
    {
      ok := true;
      var changed := false;
      for i := 0 to |pods|
        invariant trace == [] && !changed && forall j :: 0 <= j < i ==> pods[j].view.revision == revision
      {
        if pods[i].view.revision != revision { changed := true; break; }
      }
      if !changed || backupRunning { return; }
      var primary := ResolvePrimary(pods, given);
      forall p | p in pods ensures IsPrimary(primary, p) <==> ThePrimary(pods, given, p) {
        ResolvedIsThePrimary(pods, given, primary, p);
      }
      ok := UpdateFrom(pods, primary, answers);
      RunIsUpdateSafe(trace, pods, given, primary, ok);
    }

    /** The update proper, with the primary's address resolved. */
    method UpdateFrom(pods: seq<Pod>, primary: string, answers: nat -> Answers) returns (ok: bool)
      requires trace == []
      requires forall i, j :: 0 <= i < j < |pods| ==> pods[i].ordinal != pods[j].ordinal
      modifies this`trace
      ensures RunSafe(trace, pods, primary, ok) && Truthful(trace, pods, answers)
      ensures ok <==> && (exists p :: p in pods && IsPrimary(primary, p))
                      && (forall p :: p in pods ==> Goes(p, answers(p.ordinal)))
      ensures ok ==> NonePending(trace, replicas, revision)
      ensures ok ==> forall p :: p in pods && p.view.revision != revision ==> Deleted(p.ordinal) in trace
    {
      var primaryPod: Option<Pod>;
      ok, primaryPod := Secondaries(pods, primary, answers);
      SafeIsRunSafe(trace, pods, primary);
      // without a listed primary the last step deletes a pod without a name, which is refused
      if !ok || primaryPod.None? {
        ok := Fail(pods, primary);
        return;
      }
      ghost var before := trace;
      ok := ApplyNWait(primaryPod.value, answers(primaryPod.value.ordinal));
      forall p | p in pods && IsPrimary(primary, p) ensures p == primaryPod.value {
        OnePrimary(primary, sts, namespace, p.ordinal, primaryPod.value.ordinal);
      }
      AboutKeepsSafe(before, trace, primaryPod.value, pods, replicas, revision);
      PrimaryEnds(before, trace, pods, primaryPod.value, primary);
      TurnIsTruthful(before, trace, pods, primaryPod.value, answers, revision);
      if !ok {
        ok := Fail(pods, primary);
        return;
      }
      AboutKeepsNonePending(before, trace, primaryPod.value, replicas, revision);
      UpdatedStep(before, trace, pods, primaryPod.value, primary);
    }

    lemma PrimaryEnds(before: seq<Event>, after: seq<Event>, pods: seq<Pod>, pod: Pod, primary: string)
      requires Safe(before, pods, primary) && Updated(before, pods, primary)
      requires before <= after && About(after, |before|, pod, revision) && pod in pods && IsPrimary(primary, pod)
      requires OneAtATime(after, replicas, revision) && OnlyOutdated(after, pods, revision)
      ensures RunSafe(after, pods, primary, true)
    {
      PrimaryStep(before, after, pods, pod, primary);
      forall p | p in pods && IsPrimary(primary, p) ensures PrimaryLast(after, pods, p.ordinal, replicas, revision) {
        OnePrimary(primary, sts, namespace, p.ordinal, pod.ordinal);
      }
      forall j | 0 <= j < |after| ensures !after[j].Failed? {
        if j < |before| { assert after[j] == before[j] && before[j] in before; }
      }
    }
  }
}
