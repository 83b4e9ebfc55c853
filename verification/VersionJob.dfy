/** The handshake between a cluster's reconcile loop and the cron job that looks for new versions:
    a mutex and an atomic flag per cluster, shared by any number of threads. */
module VersionJob {
  import opened Options

  type Id = nat
  type Cluster = string

  datatype Flag = UpdateDone | UpdateWait
  datatype Lock = Lock(holder: Option<Id>, updateSync: Flag)

  datatype Kind = Reconcile | Job

  /** Every call of Reconcile and every firing of the job is a thread of its own. */
  datatype Phase = Called | Waiting | Locked | Body | Stored | Leaving | Finished

  datatype Thread = Thread(cluster: Cluster, kind: Kind, phase: Phase)

  datatype What = ReconcileStart | ReconcileEnd | BodyStart | BodyEnd
  datatype Event = Event(cluster: Cluster, id: Id, what: What)

  datatype System = System(locks: map<Cluster, Lock>, threads: map<Id, Thread>, trace: seq<Event>)

  const INITIAL := System(map[], map[], [])

  datatype Step =
    | Call(id: Id, kind: Kind, cluster: Cluster)
    | LoadOrCreate(id: Id)
    | Acquire(id: Id)
    | Store(id: Id)           // the reconcile's deferred store of updateDone
    | CompareAndSwap(id: Id)  // the job's guard
    | EndBody(id: Id)
    | Release(id: Id)

  function Goto(s: System, id: Id, phase: Phase): System
    requires id in s.threads
  {
    s.(threads := s.threads[id := s.threads[id].(phase := phase)])
  }

  function SetLock(s: System, c: Cluster, l: Lock): System {
    s.(locks := s.locks[c := l])
  }

  function Log(s: System, e: Event): System {
    s.(trace := s.trace + [e])
  }

  function Apply(s: System, step: Step): System {
    var id := step.id;
    if step.Call? then
      if id in s.threads then s else s.(threads := s.threads[id := Thread(step.cluster, step.kind, Called)])
    else if id !in s.threads then s
    else
      var t := s.threads[id];
      var c := t.cluster;
      if step.LoadOrCreate? then
        if !t.phase.Called? then s
        else if c in s.locks then Goto(s, id, Waiting)
        else Goto(SetLock(s, c, Lock(None, UpdateDone)), id, Waiting)
      else if c !in s.locks then s
      else
        var l := s.locks[c];
        match step
        case Call(_, _, _) => s
        case LoadOrCreate(_) => s
        case Acquire(_) =>
          if !t.phase.Waiting? || l.holder.Some? then s
          else
            var taken := Goto(SetLock(s, c, l.(holder := Some(id))), id, Locked);
            if t.kind.Reconcile? then Log(taken, Event(c, id, ReconcileStart)) else taken
        case Store(_) =>
          if t.kind.Reconcile? && t.phase.Locked? then
            Goto(SetLock(s, c, l.(updateSync := UpdateDone)), id, Stored)
          else s
        case CompareAndSwap(_) =>
          if !t.kind.Job? || !t.phase.Locked? then s
          else if l.updateSync.UpdateWait? then Goto(s, id, Leaving)
          else Log(Goto(SetLock(s, c, l.(updateSync := UpdateWait)), id, Body), Event(c, id, BodyStart))
        case EndBody(_) => if t.phase.Body? then Log(Goto(s, id, Leaving), Event(c, id, BodyEnd)) else s
        case Release(_) =>
          if !t.phase.Stored? && !t.phase.Leaving? then s
          else
            var freed := Goto(SetLock(s, c, l.(holder := None)), id, Finished);
            if t.kind.Reconcile? then Log(freed, Event(c, id, ReconcileEnd)) else freed
  }

  function Execute(steps: seq<Step>): System {
    if steps == [] then INITIAL else Apply(Execute(steps[..|steps| - 1]), steps[|steps| - 1])
  }

  predicate IsBody(trace: seq<Event>, i: int, c: Cluster) {
    0 <= i < |trace| && trace[i].cluster == c && trace[i].what.BodyStart?
  }

  /** The body begun at i has ended before the event at j. */
  ghost predicate Ended(trace: seq<Event>, i: nat, j: nat)
    requires i < j <= |trace|
  {
    exists k :: i < k < j && trace[k] == Event(trace[i].cluster, trace[i].id, BodyEnd)
  }

  /** It ended, and after that reconcile r started, before the event at j. */
  ghost predicate Started(trace: seq<Event>, i: nat, r: Id, j: nat)
    requires i < j <= |trace|
  {
    exists a :: i < a < j && trace[a] == Event(trace[i].cluster, r, ReconcileStart) && Ended(trace, i, a)
  }

  /** And some reconcile that started after it also completed, before the event at j. */
  ghost predicate Reconciled(trace: seq<Event>, i: nat, j: nat)
    requires i < j <= |trace|
  {
    exists b, r :: i < b < j && trace[b] == Event(trace[i].cluster, r, ReconcileEnd) && Started(trace, i, r, b)
  }

  /** Between any two bodies of one cluster the first ends and a whole reconcile runs. */
  ghost predicate Alternates(trace: seq<Event>) {
    forall c, i, j :: 0 <= i < j && IsBody(trace, i, c) && IsBody(trace, j, c) ==> Reconciled(trace, i, j)
  }

  predicate Inside(t: Thread) {
    t.phase.Locked? || t.phase.Body? || t.phase.Stored? || t.phase.Leaving?
  }

  predicate PhaseFits(t: Thread) {
    && (t.phase.Body? || t.phase.Leaving? ==> t.kind.Job?)
    && (t.phase.Stored? ==> t.kind.Reconcile?)
  }

  predicate HoldsLock(s: System, id: Id)
    requires id in s.threads
  {
    s.threads[id].cluster in s.locks && s.locks[s.threads[id].cluster].holder == Some(id)
  }

  predicate HolderInside(s: System, c: Cluster)
    requires c in s.locks && s.locks[c].holder.Some?
  {
    var id := s.locks[c].holder.value;
    id in s.threads && Inside(s.threads[id]) && s.threads[id].cluster == c
  }

  /** The mutex: inside the critical section means holding the lock, and conversely. */
  ghost predicate MutexInv(s: System) {
    && (forall id :: id in s.threads ==> PhaseFits(s.threads[id]) && (Inside(s.threads[id]) ==> HoldsLock(s, id)))
    && (forall c :: c in s.locks && s.locks[c].holder.Some? ==> HolderInside(s, c))
  }

  /** What the holder of a lock may rely on about a body begun at i. */
  ghost predicate Settled(s: System, c: Cluster, i: nat)
    requires c in s.locks && i < |s.trace| && MutexInv(s)
  {
    var l := s.locks[c];
    var n := |s.trace|;
    if l.holder.Some? && s.threads[l.holder.value].kind.Reconcile? then Started(s.trace, i, l.holder.value, n)
    else if l.holder.Some? && s.threads[l.holder.value].phase.Body? then
      l.updateSync.UpdateWait? && (s.trace[i].id == l.holder.value || Ended(s.trace, i, n))
    else Ended(s.trace, i, n) && (l.updateSync.UpdateDone? ==> Reconciled(s.trace, i, n))
  }

  ghost predicate Inv(s: System) {
    && MutexInv(s)
    && (forall c, i :: IsBody(s.trace, i, c) ==> c in s.locks && Settled(s, c, i))
    && Alternates(s.trace)
  }

  lemma StepKeepsMutex(s: System, step: Step)
    requires MutexInv(s)
    ensures MutexInv(Apply(s, step))
  {
    var s' := Apply(s, step);
    forall id | id in s'.threads
      ensures PhaseFits(s'.threads[id]) && (Inside(s'.threads[id]) ==> HoldsLock(s', id))
    {
      ThreadKeepsLock(s, step, id);
    }
    forall c | c in s'.locks && s'.locks[c].holder.Some? ensures HolderInside(s', c) {
      assert c in s.locks && s.locks[c].holder.Some? ==> HolderInside(s, c);
    }
  }

  lemma ThreadKeepsLock(s: System, step: Step, id: Id)
    requires MutexInv(s) && id in Apply(s, step).threads
    ensures var s' := Apply(s, step); PhaseFits(s'.threads[id]) && (Inside(s'.threads[id]) ==> HoldsLock(s', id))
  {
    assert id in s.threads ==> PhaseFits(s.threads[id]) && (Inside(s.threads[id]) ==> HoldsLock(s, id));
  }

  lemma Prefix(trace: seq<Event>, e: Event, i: nat, j: nat)
    requires i < j <= |trace|
    ensures Ended(trace, i, j) ==> Ended(trace + [e], i, j)
    ensures forall r :: Started(trace, i, r, j) ==> Started(trace + [e], i, r, j)
    ensures Reconciled(trace, i, j) ==> Reconciled(trace + [e], i, j)
  {
    var longer := trace + [e];
    assert forall k :: 0 <= k < |trace| ==> longer[k] == trace[k];
    if Ended(trace, i, j) {
      var k :| i < k < j && trace[k] == Event(trace[i].cluster, trace[i].id, BodyEnd);
      assert longer[k] == trace[k];
    }
    forall r, b | i < b <= j && Started(trace, i, r, b) ensures Started(longer, i, r, b) {
      var a :| i < a < b && trace[a] == Event(trace[i].cluster, r, ReconcileStart) && Ended(trace, i, a);
      var k :| i < k < a && trace[k] == Event(trace[i].cluster, trace[i].id, BodyEnd);
      assert longer[k] == trace[k] && longer[a] == trace[a];
      assert Ended(longer, i, a);
    }
    if Reconciled(trace, i, j) {
      var b, r :| i < b < j && trace[b] == Event(trace[i].cluster, r, ReconcileEnd) && Started(trace, i, r, b);
      assert longer[b] == trace[b];
    }
  }

  lemma Later(trace: seq<Event>, i: nat, j: nat, m: nat)
    requires i < j <= m <= |trace|
    ensures Ended(trace, i, j) ==> Ended(trace, i, m)
    ensures forall r :: Started(trace, i, r, j) ==> Started(trace, i, r, m)
    ensures Reconciled(trace, i, j) ==> Reconciled(trace, i, m)
  {
  }

  lemma SilentKeepsSettled(s: System, step: Step, c: Cluster, i: nat)
    requires Inv(s) && IsBody(s.trace, i, c) && MutexInv(Apply(s, step)) && Apply(s, step).trace == s.trace
    ensures c in Apply(s, step).locks && Settled(Apply(s, step), c, i)
  {
    assert Settled(s, c, i);
  }

  /** The facts about the trace that a logged event carries over. */
  lemma LoggedKeeps(trace: seq<Event>, e: Event, i: nat)
    requires i < |trace|
    ensures Ended(trace, i, |trace|) ==> Ended(trace + [e], i, |trace| + 1)
    ensures forall r :: Started(trace, i, r, |trace|) ==> Started(trace + [e], i, r, |trace| + 1)
    ensures Reconciled(trace, i, |trace|) ==> Reconciled(trace + [e], i, |trace| + 1)
  {
    Prefix(trace, e, i, |trace|);
    Later(trace + [e], i, |trace|, |trace| + 1);
  }

  /** And those it adds. */
  lemma LoggedAdds(trace: seq<Event>, e: Event, i: nat)
    requires i < |trace| && e.cluster == trace[i].cluster
    ensures e.what.BodyEnd? && e.id == trace[i].id ==> Ended(trace + [e], i, |trace| + 1)
    ensures e.what.ReconcileStart? && Ended(trace, i, |trace|) ==> Started(trace + [e], i, e.id, |trace| + 1)
    ensures e.what.ReconcileEnd? && Started(trace, i, e.id, |trace|) ==> Reconciled(trace + [e], i, |trace| + 1)
  {
    Prefix(trace, e, i, |trace|);
    assert (trace + [e])[|trace|] == e;
  }

  lemma LoggedKeepsSettled(s: System, step: Step, c: Cluster, i: nat)
    requires Inv(s) && IsBody(s.trace, i, c) && MutexInv(Apply(s, step)) && Apply(s, step).trace != s.trace
    ensures c in Apply(s, step).locks && Settled(Apply(s, step), c, i)
  {
    assert Settled(s, c, i);
    var s' := Apply(s, step);
    var e := s'.trace[|s.trace|];
    assert s'.trace == s.trace + [e] && e.cluster == s.threads[step.id].cluster;
    LoggedKeeps(s.trace, e, i);
    if e.cluster == c {
      LoggedAdds(s.trace, e, i);
      assert s'.locks[c].holder == s.locks[c].holder || s.locks[c].holder.None? || s'.locks[c].holder.None?;
    } else {
      OtherLockKept(s, step, c);
    }
  }

  lemma OtherLockKept(s: System, step: Step, c: Cluster)
    requires MutexInv(s) && step.id in s.threads && s.threads[step.id].cluster != c && c in s.locks
    ensures var s' := Apply(s, step);
      && c in s'.locks && s'.locks[c] == s.locks[c]
      && (s.locks[c].holder.Some? ==>
           var id := s.locks[c].holder.value; id in s'.threads && s'.threads[id] == s.threads[id])
  {
    if s.locks[c].holder.Some? {
      assert HolderInside(s, c);
    }
  }

  /** Bodies already in the trace stay settled, whatever step is taken. */
  lemma StepKeepsSettled(s: System, step: Step, c: Cluster, i: nat)
    requires Inv(s) && IsBody(s.trace, i, c) && MutexInv(Apply(s, step))
    ensures c in Apply(s, step).locks && Settled(Apply(s, step), c, i)
  {
    if Apply(s, step).trace == s.trace {
      SilentKeepsSettled(s, step, c, i);
    } else {
      LoggedKeepsSettled(s, step, c, i);
    }
  }

  /** A body can begin only after all earlier ones have been reconciled. */
  lemma StepKeepsAlternation(s: System, step: Step)
    requires Inv(s)
    ensures Alternates(Apply(s, step).trace)
  {
    var s' := Apply(s, step);
    if s'.trace != s.trace {
      var n := |s.trace|;
      var e := s'.trace[n];
      forall c, i, j | 0 <= i < j && IsBody(s'.trace, i, c) && IsBody(s'.trace, j, c)
        ensures Reconciled(s'.trace, i, j)
      {
        assert IsBody(s.trace, i, c);
        if j < n {
          assert IsBody(s.trace, j, c);
          Prefix(s.trace, e, i, j);
        } else {
          assert Settled(s, c, i);
          Prefix(s.trace, e, i, n);
        }
      }
    }
  }

  lemma StepKeepsInv(s: System, step: Step)
    requires Inv(s)
    ensures Inv(Apply(s, step))
  {
    StepKeepsMutex(s, step);
    StepKeepsAlternation(s, step);
    var s' := Apply(s, step);
    forall c, i | IsBody(s'.trace, i, c) ensures c in s'.locks && Settled(s', c, i) {
      if i < |s.trace| {
        assert IsBody(s.trace, i, c);
        StepKeepsSettled(s, step, c, i);
      }
    }
  }

  lemma {:induction false} ReachableInv(steps: seq<Step>)
    ensures Inv(Execute(steps))
  {
    if steps != [] {
      ReachableInv(steps[..|steps| - 1]);
      StepKeepsInv(Execute(steps[..|steps| - 1]), steps[|steps| - 1]);
    }
  }

  /** Main theorem, over every interleaving of any number of clusters, reconciles and jobs. */
  lemma JobsAlternateWithReconciles(steps: seq<Step>)
    ensures Alternates(Execute(steps).trace)
    ensures var s := Execute(steps); forall a, b :: (a in s.threads && b in s.threads && Inside(s.threads[a])
      && Inside(s.threads[b]) && s.threads[a].cluster == s.threads[b].cluster) ==> a == b
  {
    ReachableInv(steps);
  }

  lemma ExecuteAppend(steps: seq<Step>, step: Step)
    ensures Execute(steps + [step]) == Apply(Execute(steps), step)
  {
    assert (steps + [step])[..|steps|] == steps;
  }

  /** A new thread that finds its cluster's lock free gets into the critical section. */
  lemma GetsIn(steps: seq<Step>, id: Id, kind: Kind, c: Cluster) returns (more: seq<Step>)
    requires var s := Execute(steps); id !in s.threads && c in s.locks && s.locks[c].holder.None?
    ensures var s := Execute(steps); var s' := Execute(more);
      && s'.threads == s.threads[id := Thread(c, kind, Locked)]
      && c in s'.locks && s'.locks[c] == s.locks[c].(holder := Some(id))
      && s'.trace == s.trace + if kind.Reconcile? then [Event(c, id, ReconcileStart)] else []
  {
    more := steps + [Call(id, kind, c)];
    ExecuteAppend(steps, Call(id, kind, c));
    ExecuteAppend(more, LoadOrCreate(id));
    more := more + [LoadOrCreate(id)];
    ExecuteAppend(more, Acquire(id));
    more := more + [Acquire(id)];
  }

  /** A reconcile lets the next job run its body, whatever went before: the job is never shut out. */
  lemma ReconcileAdmitsJob(steps: seq<Step>, r: Id, j: Id, c: Cluster) returns (more: seq<Step>)
    requires var s := Execute(steps); r !in s.threads && c in s.locks && s.locks[c].holder.None?
    requires j != r && j !in Execute(steps).threads
    ensures Execute(more).trace
         == Execute(steps).trace + [Event(c, r, ReconcileStart)] + [Event(c, r, ReconcileEnd)]
            + [Event(c, j, BodyStart)]
  {
    more := GetsIn(steps, r, Reconcile, c);
    ExecuteAppend(more, Store(r));
    more := more + [Store(r)];
    ExecuteAppend(more, Release(r));
    more := more + [Release(r)];
    more := GetsIn(more, j, Job, c);
    ExecuteAppend(more, CompareAndSwap(j));
    more := more + [CompareAndSwap(j)];
  }
}
