/** One restore, reconcile by reconcile, with everything the environment answers left open and a
    crash or a lost status write possible at the end of each. The cluster custom resource is at
    version 1.15.0 or later with allowUnsafeConfigurations off, and nobody else edits it. */
module RestoreMachine {
  import opened Options

  datatype RestoreState =
    | New | Starting | StopCluster | Restoring | PointInTime | PrepareCluster | StartCluster | Succeeded | Failed

  datatype Unsafe = Unsafe(tls: bool, pxcSize: bool, proxySize: bool, backupIfUnhealthy: bool)

  /** The HAProxy or ProxySQL section of the spec. */
  datatype Proxy = Absent | Proxy(enabled: bool, size: int)

  datatype Spec = Spec(pause: bool, pxcSize: int, haproxy: Proxy, proxysql: Proxy, unsafe: Unsafe, tls: bool)

  datatype Status = Status(state: RestoreState, pxcSize: int, haproxySize: int, proxysqlSize: int, unsafe: Unsafe)

  datatype Job = RestoreJob | PitrJob | PrepareJob
  datatype Condition = JobComplete | JobFailed | Other
  type Conditions = seq<(Condition, bool)>

  /** What a reconcile was answered, recorded at the call whether the answer is good or bad. */
  datatype Event =
    | ValidationAnswered(ok: bool)
    | ShutdownAnswered(ok: bool)
    | JobSeen(which: Job, conditions: Conditions)

  datatype Milestone = Validated | Stopped | Done(which: Job)

  predicate Terminal(s: RestoreState) {
    s.Succeeded? || s.Failed?
  }

  function Rank(s: RestoreState): nat {
    match s
    case New => 0
    case Starting => 1
    case StopCluster => 2
    case Restoring => 3
    case PointInTime => 4
    case PrepareCluster => 4
    case StartCluster => 5
    case Succeeded => 6
    case Failed => 6
  }

  function Resized(p: Proxy, size: int): Proxy {
    if p.Absent? then p else p.(size := size)
  }

  /** What CheckNSetDefaults does to the sizes of its copy: a paused cluster reads as size 0. */
  function Defaulted(s: Spec): Spec {
    if !s.pause then s
    else s.(pxcSize := 0,
            haproxy := if s.haproxy.Proxy? && s.haproxy.enabled then s.haproxy.(size := 0) else s.haproxy,
            proxysql := if s.proxysql.Proxy? && s.proxysql.enabled then s.proxysql.(size := 0) else s.proxysql)
  }

  /** checkSafeDefaults, made only for a cluster that is not paused. */
  predicate SafeDefaults(s: Spec) {
    && (s.unsafe.tls || s.tls)
    && (s.unsafe.pxcSize || (3 <= s.pxcSize <= 5 && s.pxcSize % 2 == 1))
    && (s.unsafe.proxySize || !s.proxysql.Proxy? || !s.proxysql.enabled || s.proxysql.size >= 2)
    && (s.unsafe.proxySize || !s.haproxy.Proxy? || !s.haproxy.enabled || s.haproxy.size >= 2)
  }

  /** The temporary one-node cluster that point-in-time recovery runs on. */
  function PitrSpec(s: Spec): Spec {
    s.(pause := false, pxcSize := 1, haproxy := Resized(s.haproxy, 0), proxysql := Resized(s.proxysql, 0),
       unsafe := s.unsafe.(pxcSize := true, proxySize := true))
  }

  /** The saved sizes differ from PITR's temporary 1/0/0, in the sense that starting the cluster
      notices: a saved size of 0 is never compared. */
  predicate NoticesPitrSizes(saved: Spec) {
    || (saved.pxcSize != 0 && saved.pxcSize != 1)
    || (saved.haproxy.Proxy? && saved.haproxy.size != 0)
    || (saved.proxysql.Proxy? && saved.proxysql.size != 0)
  }

  /** What a successful restore leaves. The sizes saved are those of the defaulted copy. */
  function Final(original: Spec, pitr: bool): Spec {
    var saved := Defaulted(original);
    if pitr && !NoticesPitrSizes(saved) then PitrSpec(original) else saved.(pause := false)
  }

  /** The spec of the finished cluster is the original one exactly when the cluster was not paused
      and either no PITR ran, or its sizes differ from PITR's, or it already looked like PITR's. */
  lemma PutBackExactlyWhen(original: Spec, pitr: bool)
    ensures Final(original, pitr) == original <==>
      && !original.pause
      && (pitr ==> || NoticesPitrSizes(original)
                   || (original.pxcSize == 1 && original.unsafe.pxcSize && original.unsafe.proxySize))
    ensures !original.pause && original.pxcSize >= 1 ==>
      Final(original, pitr).(unsafe := original.unsafe) == original
  {
    var p := PitrSpec(original);
    if !original.pause && original.pxcSize == 1 && !NoticesPitrSizes(original) {
      assert p.haproxy == original.haproxy && p.proxysql == original.proxysql;
      assert p.unsafe == original.unsafe.(pxcSize := true, proxySize := true);
    }
  }

  ghost predicate Saved(st: Status, original: Spec) {
    var saved := Defaulted(original);
    && st.pxcSize == saved.pxcSize && st.unsafe == saved.unsafe
    && (saved.haproxy.Proxy? ==> st.haproxySize == saved.haproxy.size)
    && (saved.proxysql.Proxy? ==> st.proxysqlSize == saved.proxysql.size)
  }

  /** How the stored spec relates to the original one in each state. */
  ghost predicate SpecTracks(st: Status, spec: Spec, original: Spec, pitr: bool) {
    var paused := original.(pause := true);
    match st.state
    case New => spec == original
    case Starting => spec == original
    case StopCluster => Saved(st, original) && (spec == original || spec == paused)
    case Restoring => Saved(st, original) && (spec == paused || (pitr && spec == PitrSpec(original)))
    case PointInTime => Saved(st, original) && spec == PitrSpec(original)
    case PrepareCluster => Saved(st, original) && spec == paused
    case StartCluster =>
      Saved(st, original) && (spec == (if pitr then PitrSpec(original) else paused) || spec == Final(original, pitr))
    case Succeeded => spec == Final(original, pitr)
    case Failed => true
  }

  /** Some condition of the wanted kind is true, and none of the other kind before it. */
  ghost predicate FirstDecisive(conditions: Conditions, wanted: Condition, other: Condition) {
    exists i :: (0 <= i < |conditions| && conditions[i] == (wanted, true)
      && forall j :: 0 <= j < i ==> conditions[j] != (other, true))
  }

  ghost predicate Completed(conditions: Conditions) {
    FirstDecisive(conditions, JobComplete, JobFailed)
  }

  /** The first true Complete or Failed condition decides. */
  method IsJobFinished(conditions: Conditions) returns (finished: bool, failed: bool)
    ensures finished <==> Completed(conditions)
    ensures failed <==> FirstDecisive(conditions, JobFailed, JobComplete)
  {
    for i := 0 to |conditions|
      invariant forall j :: 0 <= j < i ==> conditions[j] != (JobComplete, true) && conditions[j] != (JobFailed, true)
    {
      if !conditions[i].1 { continue; }
      if conditions[i].0.JobComplete? { return true, false; }
      if conditions[i].0.JobFailed? { return false, true; }
    }
    return false, false;
  }

  /** An answer that is evidence for a milestone. */
  ghost predicate Shows(e: Event, m: Milestone) {
    match m
    case Validated => e == ValidationAnswered(true)
    case Stopped => e == ShutdownAnswered(true)
    case Done(which) => e.JobSeen? && e.which == which && Completed(e.conditions)
  }

  /** The log holds evidence for all the milestones, in their order. */
  ghost predicate Ordered(log: seq<Event>, ms: seq<Milestone>) {
    || ms == []
    || exists i :: 0 <= i < |log| && Shows(log[i], ms[|ms| - 1]) && Ordered(log[..i], ms[..|ms| - 1])
  }

  lemma {:induction false} OrderedGrows(log: seq<Event>, e: Event, ms: seq<Milestone>)
    requires Ordered(log, ms)
    ensures Ordered(log + [e], ms)
  {
    var more := log + [e];
    if ms != [] {
      var last, front := ms[|ms| - 1], ms[..|ms| - 1];
      var i :| 0 <= i < |log| && Shows(log[i], last) && Ordered(log[..i], front);
      assert more[..i] == log[..i] && Shows(more[i], last) && Ordered(more[..i], front);
    }
  }

  lemma {:induction false} OrderedReaches(log: seq<Event>, e: Event, ms: seq<Milestone>, m: Milestone)
    requires Ordered(log, ms) && Shows(e, m)
    ensures Ordered(log + [e], ms + [m])
  {
    var more, wanted := log + [e], ms + [m];
    assert more[..|log|] == log && wanted[..|wanted| - 1] == ms;
    assert Shows(more[|log|], wanted[|wanted| - 1]) && Ordered(more[..|log|], wanted[..|wanted| - 1]);
  }

  /** What must have been seen, in this order, before a state is stored. */
  function Milestones(s: RestoreState, pitr: bool, from118: bool): seq<Milestone> {
    match s
    case New => []
    case Starting => []
    case Failed => []
    case StopCluster => [Validated]
    case Restoring => [Validated, Stopped]
    case PointInTime => [Validated, Stopped, Done(RestoreJob)]
    case PrepareCluster => [Validated, Stopped, Done(RestoreJob)]
    case StartCluster => AllMilestones(pitr, from118)
    case Succeeded => AllMilestones(pitr, from118)
  }

  /** One milestone takes a state to the next. */
  lemma MilestonesAdd(pitr: bool, from118: bool)
    ensures Milestones(Starting, pitr, from118) + [Validated] == Milestones(StopCluster, pitr, from118)
    ensures Milestones(StopCluster, pitr, from118) + [Stopped] == Milestones(Restoring, pitr, from118)
    ensures var done := Milestones(Restoring, pitr, from118) + [Done(RestoreJob)];
      && done == Milestones(PointInTime, pitr, from118) == Milestones(PrepareCluster, pitr, from118)
      && (!pitr && !from118 ==> done == Milestones(StartCluster, pitr, from118))
    ensures pitr ==> Milestones(PointInTime, pitr, from118) + [Done(PitrJob)] == Milestones(StartCluster, pitr, from118)
    ensures !pitr && from118 ==>
      Milestones(PrepareCluster, pitr, from118) + [Done(PrepareJob)] == Milestones(StartCluster, pitr, from118)
  {
  }

  function AllMilestones(pitr: bool, from118: bool): seq<Milestone> {
    if pitr then [Validated, Stopped, Done(RestoreJob), Done(PitrJob)]
    else if from118 then [Validated, Stopped, Done(RestoreJob), Done(PrepareJob)]
    else [Validated, Stopped, Done(RestoreJob)]
  }

  /** What the API server and the restorer answer during one reconcile. */
  datatype Answers = Answers(
    listed: bool, other: bool, wellFormed: bool,  // the checks before the cluster is read
    got: bool, missing: bool, optionsValid: bool, backupFound: bool, restorer: bool,
    pitrErrors: bool, annotated: bool, checkFailed: bool, pitrReady: bool, waiting: bool, valid: bool,
    patched: bool, shutDown: bool,                // pausing the cluster
    restoreJob: Option<Conditions>, pitrJob: Option<Conditions>, prepareJob: Option<Conditions>,
    waitInit: bool, created: bool,                // the job to create
    updated: bool, ready: bool, finalized: bool,  // the cluster
    written: bool)                                // the deferred status write

  function JobOf(a: Answers, which: Job): Option<Conditions> {
    match which
    case RestoreJob => a.restoreJob
    case PitrJob => a.pitrJob
    case PrepareJob => a.prepareJob
  }

  /** The event says what was answered. */
  ghost predicate Truthful(e: Event, a: Answers) {
    match e
    case ValidationAnswered(ok) => ok == (!a.waiting && a.valid)
    case ShutdownAnswered(ok) => ok == a.shutDown
    case JobSeen(which, conditions) => JobOf(a, which) == Some(conditions)
  }

  ghost predicate Given(e: Event, answers: seq<Answers>) {
    exists i :: 0 <= i < |answers| && Truthful(e, answers[i])
  }

  /** At most one new event, and a truthful one. */
  ghost predicate Heard(before: seq<Event>, after: seq<Event>, a: Answers) {
    after == before || (|after| == |before| + 1 && after[..|before|] == before && Truthful(after[|before|], a))
  }

  ghost predicate JobCompletes(a: Answers, which: Job) {
    JobOf(a, which).Some? && Completed(JobOf(a, which).value)
  }

  ghost predicate JobFails(a: Answers, which: Job) {
    JobOf(a, which).Some? && FirstDecisive(JobOf(a, which).value, JobFailed, JobComplete)
  }

  /** The state's handler is reached. */
  predicate PastChecks(a: Answers) {
    a.listed && !a.other && a.wellFormed && a.got && a.optionsValid && a.backupFound && a.restorer
  }

  /** Every call succeeds, every wait is over and every job has completed. */
  ghost predicate Good(a: Answers) {
    && PastChecks(a)
    && !a.pitrErrors && !a.checkFailed && a.pitrReady && !a.waiting && a.valid
    && a.patched && a.shutDown && (forall which :: JobCompletes(a, which))
    && !a.waitInit && a.created && a.updated && a.ready && a.finalized && a.written
  }

  /** The job a state waits for. */
  function Awaited(s: RestoreState): Option<Job> {
    match s
    case Restoring => Some(RestoreJob)
    case PointInTime => Some(PitrJob)
    case PrepareCluster => Some(PrepareJob)
    case _ => None
  }

  /** The status with the cluster's sizes and flags saved, as the first handler leaves it. */
  function SavedStatus(st: Status, cluster: Spec): (r: Status)
    ensures r.state == StopCluster && r.pxcSize == cluster.pxcSize && r.unsafe == cluster.unsafe
    ensures r.haproxySize == if cluster.haproxy.Proxy? then cluster.haproxy.size else st.haproxySize
    ensures r.proxysqlSize == if cluster.proxysql.Proxy? then cluster.proxysql.size else st.proxysqlSize
  {
    var sized := st.(pxcSize := cluster.pxcSize);
    var sql := if cluster.proxysql.Proxy? then sized.(proxysqlSize := cluster.proxysql.size) else sized;
    var ha := if cluster.haproxy.Proxy? then sql.(haproxySize := cluster.haproxy.size) else sql;
    ha.(unsafe := cluster.unsafe, state := StopCluster)
  }

  /** Starting the cluster must write the saved sizes first. */
  predicate MustResize(st: Status, cluster: Spec) {
    || cluster.pause
    || (st.pxcSize != 0 && cluster.pxcSize != st.pxcSize)
    || (cluster.haproxy.Proxy? && st.haproxySize != 0 && st.haproxySize != cluster.haproxy.size)
    || (cluster.proxysql.Proxy? && st.proxysqlSize != 0 && st.proxysqlSize != cluster.proxysql.size)
  }

  function Restored(st: Status, spec: Spec): Spec {
    spec.(pause := false, pxcSize := st.pxcSize, unsafe := st.unsafe,
          proxysql := Resized(spec.proxysql, st.proxysqlSize), haproxy := Resized(spec.haproxy, st.haproxySize))
  }

  /** Writing the saved sizes gives the final spec, and nothing is left to resize. */
  lemma RestoredIsFinal(st: Status, spec: Spec, original: Spec, pitr: bool)
    requires st.state.StartCluster? && SpecTracks(st, spec, original, pitr) && MustResize(st, Defaulted(spec))
    ensures Restored(st, spec) == Final(original, pitr) && !MustResize(st, Defaulted(Restored(st, spec)))
  {
  }

  /** With nothing to resize, the spec is the final one. */
  lemma SettledIsFinal(st: Status, spec: Spec, original: Spec, pitr: bool)
    requires st.state.StartCluster? && SpecTracks(st, spec, original, pitr) && !MustResize(st, Defaulted(spec))
    ensures spec == Final(original, pitr)
  {
  }

  lemma SavedTracks(st: Status, spec: Spec, original: Spec, pitr: bool)
    requires st.state.Starting? && SpecTracks(st, spec, original, pitr)
    ensures SpecTracks(SavedStatus(st, Defaulted(spec)), spec, original, pitr)
  {
  }

  /** Reconciles left when all goes well. */
  function Left(st: Status, spec: Spec, pitr: bool): nat {
    match st.state
    case New => 7
    case Starting => 7
    case StopCluster => 6
    case Restoring => if pitr && spec.pause then 5 else 4
    case PointInTime => 3
    case PrepareCluster => 3
    case StartCluster => if MustResize(st, Defaulted(spec)) then 2 else 1
    case Succeeded => 0
    case Failed => 0
  }

  class Restore {
    const pitr: bool
    const from118: bool
    var status: Status
    var spec: Spec
    ghost const original: Spec
    ghost var log: seq<Event>

    constructor (cluster: Spec, usePitr: bool, version118: bool, blank: Status)
      requires blank.state.New?
      ensures Valid() && status == blank && spec == cluster && original == cluster
      ensures pitr == usePitr && from118 == version118
    {
      pitr, from118, status, spec, original, log := usePitr, version118, blank, cluster, cluster, [];
    }

    /** What must hold of a status if it were the stored one. */
    ghost predicate Fits(st: Status)
      reads this
    {
      && SpecTracks(st, spec, original, pitr)
      && Ordered(log, Milestones(st.state, pitr, from118))
      && (st.state.PointInTime? ==> pitr)
      && (st.state.PrepareCluster? ==> from118 && !pitr)
    }

    ghost predicate Valid()
      reads this
    {
      Fits(status)
    }

    /** The local status a handler starts from. */
    ghost predicate Fetched(cr: Status)
      reads this
    {
      Valid() && cr == if status.state.New? then status.(state := Starting) else status
    }

    /** The local status a handler returns: writing it and losing it are both fine. */
    ghost predicate Handled(cr: Status)
      reads this
    {
      && Valid() && Fits(cr)
      && (cr.state == status.state || Rank(cr.state) > Rank(status.state))
    }

    /** A running cluster whose sizes are safe or declared unsafe. */
    ghost predicate Startable() {
      !original.pause && SafeDefaults(original)
    }

    ghost predicate Nearer(cr: Status, before: nat)
      reads this
    {
      !cr.state.Failed? && Left(cr, spec, pitr) < before
    }

    /** Records an answer. */
    method Observe(e: Event, ghost cr: Status, ghost a: Answers)
      requires Valid() && Fits(cr) && Truthful(e, a)
      modifies this`log
      ensures Valid() && Fits(cr) && log == old(log) + [e] && Heard(old(log), log, a)
      ensures forall m :: Shows(e, m) ==> Ordered(log, Milestones(cr.state, pitr, from118) + [m])
    {
      OrderedGrows(log, e, Milestones(status.state, pitr, from118));
      OrderedGrows(log, e, Milestones(cr.state, pitr, from118));
      forall m | Shows(e, m) ensures Ordered(log + [e], Milestones(cr.state, pitr, from118) + [m]) {
        OrderedReaches(log, e, Milestones(cr.state, pitr, from118), m);
      }
      log := log + [e];
    }

    /** Asks about a job, if there is one to ask about. */
    method SeeJob(which: Job, a: Answers, ghost cr: Status) returns (finished: bool, failed: bool)
      requires Valid() && Fits(cr)
      modifies this`log
      ensures Valid() && Fits(cr) && Heard(old(log), log, a)
      ensures finished <==> JobCompletes(a, which)
      ensures failed <==> JobFails(a, which)
      ensures finished ==> Ordered(log, Milestones(cr.state, pitr, from118) + [Done(which)])
    {
      if JobOf(a, which).None? { return false, false; }
      Observe(JobSeen(which, JobOf(a, which).value), cr, a);
      finished, failed := IsJobFinished(JobOf(a, which).value);
    }

    method ReconcileStateNew(cr: Status, cluster: Spec, a: Answers) returns (next: Status)
      requires Fetched(cr) && cr.state.Starting? && cluster == Defaulted(spec)
      modifies this`log
      ensures Handled(next) && Heard(old(log), log, a)
      ensures Good(a) ==> Nearer(next, 7)
    {
      next := cr;
      if pitr {
        if a.pitrErrors { return; }
        if !a.annotated {
          if a.checkFailed { return; }
          if !a.pitrReady { next := cr.(state := Failed); return; }
        }
      }
      Observe(ValidationAnswered(!a.waiting && a.valid), cr, a);
      if a.waiting { return; }
      if !a.valid { next := cr.(state := Failed); return; }
      assert Shows(ValidationAnswered(true), Validated);
      MilestonesAdd(pitr, from118);
      SavedTracks(cr, spec, original, pitr);
      next := SavedStatus(cr, cluster);
    }

    /** Patches pause alone, then waits for pods and volumes to go. */
    method PauseClusterWithWait(cr: Status, a: Answers) returns (down: bool)
      requires Fetched(cr) && cr.state.StopCluster?
      modifies this`log, this`spec
      ensures Valid() && Fits(cr) && Heard(old(log), log, a)
      ensures spec == if a.patched then old(spec).(pause := true) else old(spec)
      ensures down <==> a.patched && a.shutDown
      ensures down ==> Ordered(log, Milestones(Restoring, pitr, from118))
    {
      if !a.patched { return false; }
      spec := spec.(pause := true);
      Observe(ShutdownAnswered(a.shutDown), cr, a);
      down := a.shutDown;
      assert down ==> Shows(ShutdownAnswered(a.shutDown), Stopped);
      MilestonesAdd(pitr, from118);
    }

    method ReconcileStateStopCluster(cr: Status, a: Answers) returns (next: Status)
      requires Fetched(cr) && cr.state.StopCluster?
      modifies this`log, this`spec
      ensures Handled(next) && Heard(old(log), log, a)
      ensures Good(a) ==> Nearer(next, 6)
    {
      next := cr;
      var down := PauseClusterWithWait(cr, a);
      if !down { return; }
      if a.waitInit { return; }
      if !a.created { next := cr.(state := Failed); return; }
      next := cr.(state := Restoring);
    }

    method ReconcileStateRestore(cr: Status, cluster: Spec, a: Answers) returns (next: Status)
      requires Fetched(cr) && cr.state.Restoring? && cluster == Defaulted(spec)
      modifies this`log, this`spec
      ensures Handled(next) && Heard(old(log), log, a)
      ensures Good(a) ==> Nearer(next, old(Left(cr, spec, pitr)))
      ensures JobFails(a, RestoreJob) ==> next.state.Failed?
    {
      next := cr;
      var finished, failed := SeeJob(RestoreJob, a, cr);
      if failed { next := cr.(state := Failed); return; }
      if !finished { return; }
      next := AfterRestoreJob(cr, cluster, a);
    }

    /** PITR first starts a one-node cluster and waits for it; without PITR the cluster is started. */
    method AfterRestoreJob(cr: Status, cluster: Spec, a: Answers) returns (next: Status)
      requires Fetched(cr) && cr.state.Restoring? && cluster == Defaulted(spec)
      requires Ordered(log, Milestones(Restoring, pitr, from118) + [Done(RestoreJob)])
      modifies this`spec
      ensures Handled(next)
      ensures Good(a) ==> Nearer(next, old(Left(cr, spec, pitr)))
    {
      next := cr;
      MilestonesAdd(pitr, from118);
      if pitr {
        if cluster.pause {
          if a.updated {
            spec := PitrSpec(spec);
          }
          return;
        }
        if !a.ready || a.waitInit || !a.created { return; }
        next := cr.(state := PointInTime);
        return;
      }
      next := cr.(state := if from118 then PrepareCluster else StartCluster);
    }

    /** PITR and prepare jobs: wait for the job, then start the cluster. */
    method ReconcileStateJob(cr: Status, a: Answers) returns (next: Status)
      requires Fetched(cr) && (cr.state.PointInTime? || cr.state.PrepareCluster?)
      modifies this`log
      ensures Handled(next) && Heard(old(log), log, a)
      ensures Good(a) ==> Nearer(next, 3)
      ensures JobFails(a, Awaited(cr.state).value) ==> next.state.Failed?
    {
      next := cr;
      var which := if cr.state.PointInTime? then PitrJob else PrepareJob;
      var finished, failed := SeeJob(which, a, cr);
      if failed { next := cr.(state := Failed); return; }
      if !finished { return; }
      MilestonesAdd(pitr, from118);
      next := cr.(state := StartCluster);
    }

    method ReconcileStateStartCluster(cr: Status, cluster: Spec, a: Answers) returns (next: Status)
      requires Fetched(cr) && cr.state.StartCluster? && cluster == Defaulted(spec)
      modifies this`spec
      ensures Handled(next)
      ensures Good(a) ==> Nearer(next, old(Left(cr, spec, pitr)))
    {
      next := cr;
      if MustResize(cr, cluster) {
        if a.updated {
          RestoredIsFinal(cr, spec, original, pitr);
          spec := Restored(cr, spec);
        }
        return;
      }
      SettledIsFinal(cr, spec, original, pitr);
      if a.ready && a.finalized {
        next := cr.(state := Succeeded);
      }
    }

    /** In every state the stored spec of a startable cluster is paused or safe. */
    lemma SpecIsSafe()
      requires Valid() && Startable() && !status.state.Failed?
      ensures spec.pause || SafeDefaults(spec)
    {
    }

    method Dispatch(cr: Status, a: Answers) returns (next: Status)
      requires Fetched(cr) && !Terminal(cr.state)
      modifies this`log, this`spec
      ensures Handled(next) && Heard(old(log), log, a)
      ensures Good(a) && Startable() ==> Nearer(next, old(Left(status, spec, pitr)))
      ensures Startable() && PastChecks(a) && Awaited(cr.state).Some? && JobFails(a, Awaited(cr.state).value) ==>
        next.state.Failed?
    {
      next := cr;
      if !a.listed { return; }
      if a.other || !a.wellFormed { next := cr.(state := Failed); return; }
      if !a.got {
        if a.missing { next := cr.(state := Failed); }
        return;
      }
      var cluster := Defaulted(spec);
      if Startable() { SpecIsSafe(); }
      if !a.optionsValid || (!spec.pause && !SafeDefaults(spec)) { next := cr.(state := Failed); return; }
      if !a.backupFound { next := cr.(state := Failed); return; }
      if !a.restorer { return; }
      next := Handle(cr, cluster, a);
    }

    method Handle(cr: Status, cluster: Spec, a: Answers) returns (next: Status)
      requires Fetched(cr) && !Terminal(cr.state) && cluster == Defaulted(spec)
      modifies this`log, this`spec
      ensures Handled(next) && Heard(old(log), log, a)
      ensures Good(a) ==> Nearer(next, old(Left(status, spec, pitr)))
      ensures Awaited(cr.state).Some? && JobFails(a, Awaited(cr.state).value) ==> next.state.Failed?
    {
      match cr.state {
        case Starting => next := ReconcileStateNew(cr, cluster, a);
        case StopCluster => next := ReconcileStateStopCluster(cr, a);
        case Restoring => next := ReconcileStateRestore(cr, cluster, a);
        case PointInTime => next := ReconcileStateJob(cr, a);
        case PrepareCluster => next := ReconcileStateJob(cr, a);
        case StartCluster => next := ReconcileStateStartCluster(cr, cluster, a);
      }
    }

    /** One reconcile. The deferred status write may be lost, by failure or by a crash. */
    method Reconcile(a: Answers)
      requires Valid()
      modifies this`status, this`spec, this`log
      ensures Valid()
      ensures status.state == old(status.state) || Rank(status.state) > Rank(old(status.state))
      ensures Terminal(old(status.state)) ==> status == old(status) && spec == old(spec)
      ensures Heard(old(log), log, a)
      ensures Good(a) && Startable() && !Terminal(old(status.state)) ==> Nearer(status, old(Left(status, spec, pitr)))
      ensures var job := Awaited(old(status.state));
        Startable() && PastChecks(a) && a.written && job.Some? && JobFails(a, job.value) ==> status.state.Failed?
    {
      if Terminal(status.state) { return; }
      var cr := if status.state.New? then status.(state := Starting) else status;
      cr := Dispatch(cr, a);
      if a.written {
        status := cr;
      }
    }

    /** Any number of reconciles, whatever is answered. Every event in the log is an answer that was
        given. A run that reaches Succeeded was answered, in this order, that validation passed, that
        the cluster is down, that the restore job completed and then that the PITR job (or, from
        1.18.0 without PITR, the prepare job) did, and it has left the final spec. */
    method Run(answers: seq<Answers>)
      requires Valid()
      modifies this`status, this`spec, this`log
      ensures Valid()
      ensures Rank(old(status.state)) <= Rank(status.state)
      ensures Terminal(old(status.state)) ==> status == old(status) && spec == old(spec)
      ensures status.state.Succeeded? ==> Ordered(log, AllMilestones(pitr, from118)) && spec == Final(original, pitr)
      ensures old(log) <= log
      ensures forall k :: |old(log)| <= k < |log| ==> Given(log[k], answers)
    {
      for i := 0 to |answers|
        invariant Valid()
        invariant Rank(old(status.state)) <= Rank(status.state)
        invariant Terminal(old(status.state)) ==> status == old(status) && spec == old(spec)
        invariant old(log) <= log
        invariant forall k :: |old(log)| <= k < |log| ==> Given(log[k], answers)
      {
        assert forall e :: Truthful(e, answers[i]) ==> Given(e, answers);
        Reconcile(answers[i]);
      }
    }

    /** When all goes well for a cluster that was running and safe, seven reconciles are enough. */
    method RunWell(answers: seq<Answers>)
      requires Valid() && Startable() && !status.state.Failed?
      requires |answers| >= 7 && forall i :: 0 <= i < |answers| ==> Good(answers[i])
      modifies this`status, this`spec, this`log
      ensures Valid() && status.state.Succeeded?
    {
      for i := 0 to |answers|
        invariant Valid() && !status.state.Failed?
        invariant Left(status, spec, pitr) == 0 || Left(status, spec, pitr) + i <= 7
      {
        Reconcile(answers[i]);
      }
    }
  }
}
