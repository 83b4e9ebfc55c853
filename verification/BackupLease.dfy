/** Mutual exclusion of backups: the reconciles of any number of backups of one cluster, with
    allowParallel off, interleaved at every API call they make. Any status write may be lost. */
module BackupLease {
  import opened Options
  import opened Fresh

  datatype BackupState = New | Starting | Running | Suspended | Failed | Succeeded

  /** Where a backup's reconcile stands; reconciles of one backup are serial. */
  datatype Phase =
    | Idle
    | Fetched      // object read, not terminal; the deferred release is armed
    | Checked      // deadlines and suspend/resume are behind
    | LeaseAbsent  // the lease was not found; it will be created
    | Ready        // cleared to create the job
    | JobMade      // about to copy the job's state into the status
    | Releasing    // returned with a terminal local status; about to read the lease
    | Deleting     // read itself as the holder; about to delete the lease

  /** A backup's job: Paused by its suspend flag, Complete once it has been seen to succeed. */
  datatype Job = NoJob | Live | Paused | Complete

  datatype Backup = Backup(stored: BackupState, local: BackupState, phase: Phase, job: Job)

  type Name = nat
  datatype System = System(backups: map<Name, Backup>, lease: Option<Name>)

  const INITIAL := System(map[], None)

  datatype Verdict = JobStarting | JobRunning | JobFailed | JobSucceeded

  /** Atomic steps. written says whether the status update reached the API server. */
  datatype Step =
    | Create(n: Name)
    | Fetch(n: Name)
    | FailEarly(n: Name, written: bool)
    | Deadline(n: Name, written: bool, cleanUp: bool)
    | Suspend(n: Name, written: bool)
    | Resume(n: Name, written: bool)
    | Proceed(n: Name)
    | NotReady(n: Name)
    | AcquireGet(n: Name)
    | AcquireCreate(n: Name)
    | MakeJob(n: Name)
    | MakeJobFails(n: Name, written: bool)
    | UpdateStatus(n: Name, verdict: Verdict, written: bool)
    | ReleaseGet(n: Name)
    | ReleaseDelete(n: Name)
    | Crash(n: Name)
    | JobGone(n: Name)

  predicate Terminal(s: BackupState) {
    s.Failed? || s.Succeeded?
  }

  predicate Active(s: BackupState) {
    s.Starting? || s.Running? || s.Suspended?
  }

  function StateOf(v: Verdict): BackupState {
    match v
    case JobStarting => Starting
    case JobRunning => Running
    case JobFailed => Failed
    case JobSucceeded => Succeeded
  }

  /** Sets the local status, and the stored one if the write succeeds. */
  function Write(b: Backup, state: BackupState, written: bool): Backup {
    b.(local := state, stored := if written then state else b.stored)
  }

  /** A deadline applies: the starting, the running or the suspended one. */
  predicate MayExpire(b: Backup) {
    b.local.New? || (b.local.Starting? && !b.job.NoJob?) || b.job.Paused?
  }

  /** What a step does to its backup and to the lease; steps that are not enabled change nothing. */
  function Move(b: Backup, n: Name, lease: Option<Name>, step: Step): (Backup, Option<Name>) {
    match step
    case Create(_) => (b, lease)
    case Fetch(_) =>
      if b.phase.Idle? && !Terminal(b.stored) then (b.(local := b.stored, phase := Fetched), lease) else (b, lease)
    case FailEarly(_, written) =>
      // before the release is deferred
      if b.phase.Fetched? then (Write(b, Failed, written).(phase := Idle), lease) else (b, lease)
    case Deadline(_, written, cleanUp) =>
      if b.phase.Fetched? && MayExpire(b) then
        // the starting deadline alone leaves the job
        var job := if cleanUp && (!b.local.New? || b.job.Paused?) then NoJob else b.job;
        (Write(b, Failed, written).(phase := Releasing, job := job), lease)
      else (b, lease)
    case Suspend(_, written) =>
      // the job is changed first
      if b.phase.Fetched? && b.job.Live? then
        (Write(b, Suspended, written).(phase := if written then Checked else Idle, job := Paused), lease)
      else (b, lease)
    case Resume(_, written) =>
      if b.phase.Fetched? && b.job.Paused? then
        (Write(b, Starting, written).(phase := if written then Checked else Idle, job := Live), lease)
      else (b, lease)
    case Proceed(_) => (if b.phase.Fetched? then b.(phase := Checked) else b, lease)
    case NotReady(_) => (if b.phase.Checked? then b.(phase := Idle) else b, lease)
    case AcquireGet(_) =>
      if !b.phase.Checked? then (b, lease)
      else if !b.local.New? || lease == Some(n) then (b.(phase := Ready), lease)
      else (b.(phase := if lease.None? then LeaseAbsent else Idle), lease)
    case AcquireCreate(_) =>
      if !b.phase.LeaseAbsent? then (b, lease)
      else if lease.None? then (b.(phase := Ready), Some(n))
      else (b.(phase := Idle), lease)
    case MakeJob(_) =>
      (if b.phase.Ready? then b.(phase := JobMade, job := if b.job.NoJob? then Live else b.job) else b, lease)
    case MakeJobFails(_, written) =>
      (if b.phase.Ready? then Write(b, Failed, written).(phase := Releasing) else b, lease)
    case UpdateStatus(_, verdict, written) =>
      if !b.phase.JobMade? then (b, lease)
      else if b.job.NoJob? then (b.(phase := Idle), lease)
      else if b.job.Complete? && !verdict.JobSucceeded? then (b, lease)
      else
        var state := StateOf(verdict);
        (Write(b, state, written).(phase := if Terminal(state) then Releasing else Idle,
                                   job := if verdict.JobSucceeded? then Complete else b.job), lease)
    case ReleaseGet(_) =>
      (if b.phase.Releasing? then b.(phase := if lease == Some(n) then Deleting else Idle) else b, lease)
    case ReleaseDelete(_) =>
      // the delete names the lease, not its holder
      if b.phase.Deleting? then (b.(phase := Idle), None) else (b, lease)
    case Crash(_) => (b.(phase := Idle), lease)
    case JobGone(_) => (b.(job := NoJob), lease)
  }

  function Apply(s: System, step: Step): System {
    var n := step.n;
    if n in s.backups then
      var (b, lease) := Move(s.backups[n], n, s.lease, step);
      System(s.backups[n := b], lease)
    else if step.Create? then System(s.backups[n := Backup(New, New, Idle, NoJob)], s.lease)
    else s
  }

  function Continue(s: System, steps: seq<Step>): System {
    if steps == [] then s else Apply(Continue(s, steps[..|steps| - 1]), steps[|steps| - 1])
  }

  ghost predicate HoldersOnly(s: System) {
    forall n :: n in s.backups && Active(s.backups[n].stored) ==> s.lease == Some(n)
  }

  ghost predicate Exclusive(s: System) {
    forall m, n ::
      (m in s.backups && n in s.backups && Active(s.backups[m].stored) && Active(s.backups[n].stored)) ==> m == n
  }

  /** The backup needs the lease: it is live, or has a job that may make it live. */
  predicate NeedsLease(b: Backup) {
    Active(b.stored) || (!Terminal(b.stored) && (b.job.Live? || b.job.Paused?))
  }

  /** A release gives up the lease of a backup that still needs it: its final status was lost. */
  predicate Harmful(s: System, step: Step) {
    && step.ReleaseDelete? && step.n in s.backups && s.backups[step.n].phase.Deleting?
    && NeedsLease(s.backups[step.n])
  }

  /** No such release in a run from s. */
  predicate Harmless(s: System, steps: seq<Step>) {
    if steps == [] then true
    else
      var front := steps[..|steps| - 1];
      Harmless(s, front) && !Harmful(Continue(s, front), steps[|steps| - 1])
  }

  // Safety

  ghost predicate BackupInv(b: Backup, holds: bool) {
    && (NeedsLease(b) ==> holds)
    && (b.phase.Fetched? || b.phase.Checked? || b.phase.LeaseAbsent? ==> !Terminal(b.stored) && b.local == b.stored)
    && (b.phase.LeaseAbsent? ==> b.stored.New?)
    && (b.phase.Ready? || b.phase.JobMade? ==> !Terminal(b.stored) && holds)
    && (b.phase.Deleting? ==> holds)
  }

  ghost predicate Inv(s: System) {
    && (s.lease.Some? ==> s.lease.value in s.backups)
    && forall n :: n in s.backups ==> BackupInv(s.backups[n], s.lease == Some(n))
  }

  /** Every harmless step keeps the invariant; the lease goes only from free to a backup that took it,
      or from its holder's hands to free. */
  lemma StepKeepsInv(s: System, step: Step)
    requires Inv(s) && !Harmful(s, step)
    ensures Inv(Apply(s, step))
    ensures var s' := Apply(s, step); s'.lease != s.lease ==>
      if s.lease.None? then s'.lease == Some(step.n) else s'.lease.None? && step == ReleaseDelete(s.lease.value)
  {
    var s' := Apply(s, step);
    if step.n in s.backups {
      assert BackupInv(s.backups[step.n], s.lease == Some(step.n));
    }
    forall n | n in s'.backups ensures BackupInv(s'.backups[n], s'.lease == Some(n)) {
      if n in s.backups {
        assert BackupInv(s.backups[n], s.lease == Some(n));
      }
    }
  }

  lemma {:induction false} HarmlessKeepsInv(s: System, steps: seq<Step>)
    requires Inv(s) && Harmless(s, steps)
    ensures Inv(Continue(s, steps))
    decreases |steps|
  {
    if steps != [] {
      var front := steps[..|steps| - 1];
      HarmlessKeepsInv(s, front);
      StepKeepsInv(Continue(s, front), steps[|steps| - 1]);
    }
  }

  lemma InvIsExclusive(s: System)
    requires Inv(s)
    ensures HoldersOnly(s) && Exclusive(s)
  {
    forall n | n in s.backups && Active(s.backups[n].stored) ensures s.lease == Some(n) {
      assert BackupInv(s.backups[n], s.lease == Some(n));
    }
  }

  /** Main theorem: in every interleaving, with any status writes lost, as long as no release gives up
      the lease of a backup that needs it, every live backup holds the lease, so there is at most one. */
  lemma BackupsAreExclusive(steps: seq<Step>)
    requires Harmless(INITIAL, steps)
    ensures HoldersOnly(Continue(INITIAL, steps)) && Exclusive(Continue(INITIAL, steps))
  {
    HarmlessKeepsInv(INITIAL, steps);
    InvIsExclusive(Continue(INITIAL, steps));
  }

  /** No release takes another backup's lease. */
  lemma ReleaseIsOwn(steps: seq<Step>, step: Step)
    requires Harmless(INITIAL, steps)
    ensures var s := Continue(INITIAL, steps); var s' := Apply(s, step);
      s.lease.Some? && s'.lease != s.lease ==> s'.lease.None? && step == ReleaseDelete(s.lease.value)
  {
    HarmlessKeepsInv(INITIAL, steps);
    var s := Continue(INITIAL, steps);
    if Harmful(s, step) {
      assert BackupInv(s.backups[step.n], s.lease == Some(step.n));
    } else {
      StepKeepsInv(s, step);
    }
  }

  /** A step leaves a live backup without the lease exactly when it releases a live backup's. */
  lemma BreaksHoldersExactlyWhen(s: System, step: Step)
    requires Inv(s)
    ensures !HoldersOnly(Apply(s, step)) <==> Harmful(s, step) && Active(s.backups[step.n].stored)
  {
    if Harmful(s, step) {
      InvIsExclusive(s);
      var s' := Apply(s, step);
      forall n | n in s'.backups && Active(s'.backups[n].stored) ensures n == step.n {
        assert BackupInv(s.backups[n], s.lease == Some(n));
        assert BackupInv(s.backups[step.n], s.lease == Some(step.n));
      }
      if Active(s.backups[step.n].stored) {
        assert Active(s'.backups[step.n].stored) && s'.lease.None?;
      }
    } else {
      StepKeepsInv(s, step);
      InvIsExclusive(Apply(s, step));
    }
  }

  // Lost writes

  /** Every write of a final status succeeds. Other writes may be lost. */
  predicate FinalWritten(step: Step) {
    match step
    case Deadline(_, written, _) => written
    case MakeJobFails(_, written) => written
    case UpdateStatus(_, verdict, written) => written || !Terminal(StateOf(verdict))
    case _ => true
  }

  ghost predicate ReleasersDone(s: System) {
    forall n :: n in s.backups && (s.backups[n].phase.Releasing? || s.backups[n].phase.Deleting?) ==>
      Terminal(s.backups[n].stored)
  }

  lemma WrittenStep(s: System, step: Step)
    requires ReleasersDone(s) && FinalWritten(step)
    ensures ReleasersDone(Apply(s, step)) && !Harmful(s, step)
  {
  }

  lemma HarmlessSnoc(s: System, steps: seq<Step>, step: Step)
    requires Harmless(s, steps) && !Harmful(Continue(s, steps), step)
    ensures Harmless(s, steps + [step]) && Continue(s, steps + [step]) == Apply(Continue(s, steps), step)
  {
    assert (steps + [step])[..|steps|] == steps;
  }

  /** When final statuses are written, every run is harmless, so backups are exclusive. */
  lemma {:induction false} WrittenRunsAreHarmless(steps: seq<Step>)
    requires forall i :: 0 <= i < |steps| ==> FinalWritten(steps[i])
    ensures Harmless(INITIAL, steps) && ReleasersDone(Continue(INITIAL, steps))
    decreases |steps|
  {
    if steps != [] {
      var front, last := steps[..|steps| - 1], steps[|steps| - 1];
      WrittenRunsAreHarmless(front);
      WrittenStep(Continue(INITIAL, front), last);
      HarmlessSnoc(INITIAL, front, last);
      assert front + [last] == steps;
    }
  }

  /** Some harmless steps lead from one system to the other. */
  ghost predicate Leads(s: System, t: System) {
    exists steps :: Harmless(s, steps) && Continue(s, steps) == t
  }

  lemma LeadsToSelf(s: System)
    ensures Leads(s, s)
  {
    assert Harmless(s, []) && Continue(s, []) == s;
  }

  lemma LeadsNext(s: System, t: System, step: Step)
    requires Leads(s, t) && !Harmful(t, step)
    ensures Leads(s, Apply(t, step))
  {
    var steps :| Harmless(s, steps) && Continue(s, steps) == t;
    HarmlessSnoc(s, steps, step);
  }

  lemma LeadsKeepsInv(s: System, t: System)
    requires Inv(s) && Leads(s, t)
    ensures Inv(t)
  {
    var steps :| Harmless(s, steps) && Continue(s, steps) == t;
    HarmlessKeepsInv(s, steps);
  }

  /** Everything but backup n is as it was. */
  ghost predicate OnlyMoved(t: System, t': System, n: Name) {
    && t'.backups.Keys == t.backups.Keys + {n}
    && forall k :: k in t.backups && k != n ==> t'.backups[k] == t.backups[k]
  }

  /** The next step takes one backup to b and leaves the rest alone. */
  lemma Goes(s: System, t: System, step: Step, n: Name, b: Backup) returns (t': System)
    requires Leads(s, t) && step.n == n && n in t.backups && !step.ReleaseDelete?
    requires Move(t.backups[n], n, t.lease, step) == (b, t.lease)
    ensures Leads(s, t') && OnlyMoved(t, t', n) && t'.backups[n] == b && t'.lease == t.lease
  {
    LeadsNext(s, t, step);
    t' := Apply(t, step);
  }

  lemma Creates(s: System, t: System, n: Name) returns (t': System)
    requires Leads(s, t) && n !in t.backups
    ensures Leads(s, t') && OnlyMoved(t, t', n) && t'.backups[n] == Backup(New, New, Idle, NoJob) && t'.lease == t.lease
  {
    LeadsNext(s, t, Create(n));
    t' := Apply(t, Create(n));
  }

  lemma Acquires(s: System, t: System, n: Name) returns (t': System)
    requires Leads(s, t) && n in t.backups && t.backups[n].phase.LeaseAbsent? && t.lease.None?
    ensures Leads(s, t') && OnlyMoved(t, t', n) && t'.backups[n] == t.backups[n].(phase := Ready) && t'.lease == Some(n)
  {
    LeadsNext(s, t, AcquireCreate(n));
    t' := Apply(t, AcquireCreate(n));
  }

  /** With the lease free, a new backup can take it and run. */
  lemma TakesLease(s: System, t: System, n: Name) returns (t': System)
    requires Leads(s, t) && n !in t.backups && t.lease.None?
    ensures Leads(s, t') && OnlyMoved(t, t', n) && t'.backups[n] == Backup(Running, Running, Idle, Live)
    ensures t'.lease == Some(n)
  {
    t' := FindsNoLease(s, t, n);
    t' := Acquires(s, t', n);
    t' := StartsJob(s, t', n);
  }

  lemma FindsNoLease(s: System, t: System, n: Name) returns (t': System)
    requires Leads(s, t) && n !in t.backups && t.lease.None?
    ensures Leads(s, t') && OnlyMoved(t, t', n) && t'.lease.None?
    ensures t'.backups[n] == Backup(New, New, LeaseAbsent, NoJob)
  {
    t' := Creates(s, t, n);
    t' := Goes(s, t', Fetch(n), n, Backup(New, New, Fetched, NoJob));
    t' := Goes(s, t', Proceed(n), n, Backup(New, New, Checked, NoJob));
    t' := Goes(s, t', AcquireGet(n), n, Backup(New, New, LeaseAbsent, NoJob));
  }

  lemma StartsJob(s: System, t: System, n: Name) returns (t': System)
    requires Leads(s, t) && n in t.backups && t.backups[n] == Backup(New, New, Ready, NoJob)
    ensures Leads(s, t') && OnlyMoved(t, t', n) && t'.backups[n] == Backup(Running, Running, Idle, Live)
    ensures t'.lease == t.lease
  {
    t' := Goes(s, t, MakeJob(n), n, Backup(New, New, JobMade, Live));
    t' := Goes(s, t', UpdateStatus(n, JobRunning, true), n, Backup(Running, Running, Idle, Live));
  }

  lemma TurnsLive(s: System, t: System, n: Name) returns (t': System)
    requires Leads(s, t) && n in t.backups && t.backups[n].phase.Fetched? && !t.backups[n].job.NoJob?
    requires !t.backups[n].job.Complete?
    ensures Leads(s, t') && OnlyMoved(t, t', n) && t'.lease == t.lease && Active(t'.backups[n].stored)
  {
    var b := t.backups[n];
    if b.job.Live? {
      t' := Goes(s, t, Suspend(n, true), n, Backup(Suspended, Suspended, Checked, Paused));
    } else {
      t' := Goes(s, t, Resume(n, true), n, Backup(Starting, Starting, Checked, Live));
    }
  }

  /** A released backup that needed its lease becomes live, if it was not, and another one runs. */
  lemma ClashFollows(s: System, n: Name)
    requires n in s.backups && s.lease.None? && NeedsLease(s.backups[n]) && s.backups[n].phase.Idle?
    ensures exists t :: Leads(s, t) && !Exclusive(t)
  {
    LeadsToSelf(s);
    var t, b := s, s.backups[n];
    if !Active(b.stored) {
      // a job and no final status: suspending or resuming the job makes the backup live
      t := Goes(s, t, Fetch(n), n, b.(local := b.stored, phase := Fetched));
      t := TurnsLive(s, t, n);
    }
    assert t.lease.None? && n in t.backups && Active(t.backups[n].stored);
    var m := FreshName(t.backups.Keys);
    t := TakesLease(s, t, m);
    assert Active(t.backups[m].stored) && Active(t.backups[n].stored);
  }

  /** After a harmless run, a release can be followed by two live backups exactly when it gives up the
      lease of a backup that needs it. A lost write of any other kind does no harm. */
  lemma ReleaseBreaksExactlyWhen(s: System, n: Name)
    requires Inv(s) && n in s.backups && s.backups[n].phase.Deleting?
    ensures (exists t :: Leads(Apply(s, ReleaseDelete(n)), t) && !Exclusive(t)) <==> NeedsLease(s.backups[n])
  {
    var s' := Apply(s, ReleaseDelete(n));
    if NeedsLease(s.backups[n]) {
      ClashFollows(s', n);
    } else {
      StepKeepsInv(s, ReleaseDelete(n));
      forall t | Leads(s', t) ensures Exclusive(t) {
        LeadsKeepsInv(s', t);
        InvIsExclusive(t);
      }
    }
  }

  /** It happens to any running backup: success is set locally, a call that updateJobStatus makes before
      the status write fails, and the deferred release runs. */
  lemma LostSuccessIsReleased(s: System, n: Name)
    requires n in s.backups && s.backups[n] == Backup(Running, Running, Idle, Live) && s.lease == Some(n)
    ensures exists t: System :: Leads(s, t) && Harmful(t, ReleaseDelete(n))
  {
    var t := Refetched(s, n);
    t := Goes(s, t, Proceed(n), n, Backup(Running, Running, Checked, Live));
    t := Goes(s, t, AcquireGet(n), n, Backup(Running, Running, Ready, Live));
    t := ReleasesUnwritten(s, t, n);
  }

  lemma ReleasesUnwritten(s: System, u: System, n: Name) returns (t: System)
    requires Leads(s, u) && n in u.backups && u.lease == Some(n)
    requires u.backups[n] == Backup(Running, Running, Ready, Live)
    ensures Leads(s, t) && Harmful(t, ReleaseDelete(n))
  {
    t := Goes(s, u, MakeJob(n), n, Backup(Running, Running, JobMade, Live));
    t := Goes(s, t, UpdateStatus(n, JobSucceeded, false), n, Backup(Running, Succeeded, Releasing, Complete));
    t := Goes(s, t, ReleaseGet(n), n, Backup(Running, Succeeded, Deleting, Complete));
    assert Harmful(t, ReleaseDelete(n));
  }

  // Leaks

  /** A finished backup holds the lease and no reconcile will release it, short of its deletion. */
  predicate Leaked(s: System, n: Name) {
    s.lease == Some(n) && n in s.backups && Terminal(s.backups[n].stored) && s.backups[n].phase.Idle?
  }

  lemma {:induction false} LeakStays(s: System, steps: seq<Step>, n: Name)
    requires Inv(s) && Leaked(s, n) && Harmless(s, steps)
    ensures Leaked(Continue(s, steps), n)
    decreases |steps|
  {
    if steps != [] {
      var front := steps[..|steps| - 1];
      LeakStays(s, front, n);
      HarmlessKeepsInv(s, front);
      var t := Continue(s, front);
      StepKeepsInv(t, steps[|steps| - 1]);
    }
  }

  /** A finished backup on its way to release does release. */
  lemma ReleasesOwn(s: System, t: System, n: Name) returns (t': System)
    requires Leads(s, t) && t.lease == Some(n) && n in t.backups && Terminal(t.backups[n].stored)
    requires t.backups[n].phase.Releasing? || t.backups[n].phase.Deleting?
    ensures Leads(s, t') && t'.lease.None? && t'.backups.Keys == t.backups.Keys
  {
    var u := t;
    if t.backups[n].phase.Releasing? {
      u := Goes(s, t, ReleaseGet(n), n, t.backups[n].(phase := Deleting));
    }
    t' := Releases(s, u, n);
  }

  lemma Releases(s: System, t: System, n: Name) returns (t': System)
    requires Leads(s, t) && n in t.backups && Terminal(t.backups[n].stored) && t.backups[n].phase.Deleting?
    ensures Leads(s, t') && t'.lease.None? && t'.backups.Keys == t.backups.Keys
  {
    LeadsNext(s, t, ReleaseDelete(n));
    t' := Apply(t, ReleaseDelete(n));
  }

  lemma LeaseComesFree(s: System, n: Name) returns (t: System)
    requires Inv(s) && s.lease == Some(n) && !Leaked(s, n)
    ensures Leads(s, t) && t.lease.None? && t.backups.Keys == s.backups.Keys
  {
    LeadsToSelf(s);
    assert BackupInv(s.backups[n], true);
    t := s;
    if !Terminal(s.backups[n].stored) {
      t := HolderFinishes(s, n);
    }
    t := ReleasesOwn(s, t, n);
  }

  /** A holder that is not finished is finished by its job. */
  lemma HolderFinishes(s: System, n: Name) returns (t: System)
    requires n in s.backups && !Terminal(s.backups[n].stored) && s.lease == Some(n)
    ensures Leads(s, t) && OnlyMoved(s, t, n) && t.lease == s.lease
    ensures Terminal(t.backups[n].stored) && t.backups[n].phase.Releasing?
  {
    var b := s.backups[n];
    t := Refetched(s, n);
    t := Goes(s, t, Proceed(n), n, b.(local := b.stored, phase := Checked));
    t := Goes(s, t, AcquireGet(n), n, b.(local := b.stored, phase := Ready));
    t := JobEnds(s, t, n);
  }

  lemma JobEnds(s: System, u: System, n: Name) returns (t: System)
    requires Leads(s, u) && n in u.backups && u.backups[n].phase.Ready?
    ensures Leads(s, t) && OnlyMoved(u, t, n) && t.lease == u.lease
    ensures Terminal(t.backups[n].stored) && t.backups[n].phase.Releasing?
  {
    var b := u.backups[n];
    var job := if b.job.NoJob? then Live else b.job;
    t := Goes(s, u, MakeJob(n), n, b.(phase := JobMade, job := job));
    if job.Complete? {
      t := Goes(s, t, UpdateStatus(n, JobSucceeded, true), n, Backup(Succeeded, Succeeded, Releasing, Complete));
    } else {
      t := Goes(s, t, UpdateStatus(n, JobFailed, true), n, Backup(Failed, Failed, Releasing, job));
    }
  }

  lemma Refetched(s: System, n: Name) returns (t: System)
    requires n in s.backups && !Terminal(s.backups[n].stored)
    ensures Leads(s, t) && OnlyMoved(s, t, n) && t.lease == s.lease
    ensures t.backups[n] == s.backups[n].(local := s.backups[n].stored, phase := Fetched)
  {
    LeadsToSelf(s);
    var b := s.backups[n];
    t := Goes(s, s, Crash(n), n, b.(phase := Idle));
    t := Goes(s, t, Fetch(n), n, b.(local := b.stored, phase := Fetched));
  }

  /** A new backup can still come to run exactly when the lease is not leaked. */
  lemma HandedOnExactlyWhen(s: System, m: Name)
    requires Inv(s) && m !in s.backups
    ensures (exists t: System :: Leads(s, t) && m in t.backups && Active(t.backups[m].stored))
      <==> s.lease.None? || !Leaked(s, s.lease.value)
  {
    if s.lease.None? || !Leaked(s, s.lease.value) {
      var t := s;
      if s.lease.None? { LeadsToSelf(s); } else { t := LeaseComesFree(s, s.lease.value); }
      t := TakesLease(s, t, m);
      assert Leads(s, t) && m in t.backups && Active(t.backups[m].stored);
    } else {
      var n := s.lease.value;
      forall t: System | Leads(s, t) && m in t.backups ensures !Active(t.backups[m].stored) {
        var steps :| Harmless(s, steps) && Continue(s, steps) == t;
        LeakStays(s, steps, n);
        HarmlessKeepsInv(s, steps);
        assert BackupInv(t.backups[m], t.lease == Some(m));
      }
    }
  }

  /** Any holder that is not finished can leak the lease: by failing before the release is deferred, or
      by a crash between its final status and the release. */
  lemma HolderCanLeak(s: System, n: Name)
    requires Inv(s) && s.lease == Some(n) && !Terminal(s.backups[n].stored)
    ensures exists t: System :: Leads(s, t) && Leaked(t, n) && t.backups[n].stored.Failed?
    ensures exists t: System :: (Leads(s, t) && n in t.backups && t.backups[n].phase.Releasing?
      && Leads(s, Apply(t, Crash(n))) && Leaked(Apply(t, Crash(n)), n))
  {
    var early := FailsEarly(s, n);
    assert Leads(s, early) && Leaked(early, n) && early.backups[n].stored.Failed?;
    var t := HolderFinishes(s, n);
    LeadsNext(s, t, Crash(n));
    assert Leaked(Apply(t, Crash(n)), n) && t.backups[n].phase.Releasing?;
  }

  lemma FailsEarly(s: System, n: Name) returns (t: System)
    requires s.lease == Some(n) && n in s.backups && !Terminal(s.backups[n].stored)
    ensures Leads(s, t) && Leaked(t, n) && t.backups[n].stored.Failed?
  {
    var b := s.backups[n];
    t := Refetched(s, n);
    t := Goes(s, t, FailEarly(n, true), n, b.(stored := Failed, local := Failed, phase := Idle));
  }
}
