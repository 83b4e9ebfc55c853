/** Mutual exclusion of restores: any number of restores of any clusters, each reconciled by steps
    that list the peers, act on the cluster and write the status, interleaved in every way. */
module RestoreExclusion {
  import opened RestoreMachine
  import opened Fresh

  type Name = nat
  type Cluster = nat

  /** Where a restore's reconcile stands; reconciles of one restore are serial. */
  datatype Phase =
    | Idle
    | Fetched  // object read, not terminal; New has become Starting locally
    | Acting   // listed no other restore in progress; the state's handler is at work
    | Writing  // the deferred status write is due

  /** gone: the object was deleted; a reconcile under way goes on without it. */
  datatype Entry = Entry(cluster: Cluster, stored: RestoreState, local: RestoreState, phase: Phase, gone: bool)

  type System = map<Name, Entry>

  datatype Step =
    | Create(n: Name, cluster: Cluster)
    | Fetch(n: Name)
    | List(n: Name)
    | ListFails(n: Name)
    | Act(n: Name, next: RestoreState)
    | Write(n: Name, written: bool)
    | Crash(n: Name)
    | Delete(n: Name)

  /** An unprocessed New restore is in progress too. */
  predicate InProgress(e: Entry) {
    !e.gone && !Terminal(e.stored)
  }

  predicate Rivals(s: System, m: Name, n: Name) {
    m in s && n in s && m != n && s[m].cluster == s[n].cluster
  }

  /** What isOtherRestoreInProgress looks for. */
  ghost predicate Blocked(s: System, n: Name) {
    exists m :: Rivals(s, m, n) && InProgress(s[m])
  }

  /** A handler keeps its state or moves it up. */
  predicate Moves(from: RestoreState, to: RestoreState) {
    to == from || Rank(to) > Rank(from)
  }

  /** One step; steps that are not enabled change nothing. */
  ghost function Apply(s: System, step: Step): System {
    var n := step.n;
    if step.Create? then
      if n in s then s else s[n := Entry(step.cluster, New, New, Idle, false)]
    else if n !in s then s
    else
      var e := s[n];
      match step
      case Create(_, _) => s
      case Fetch(_) =>
        if e.phase.Idle? && InProgress(e) then
          s[n := e.(phase := Fetched, local := if e.stored.New? then Starting else e.stored)]
        else s
      case List(_) =>
        if !e.phase.Fetched? then s
        else if Blocked(s, n) then s[n := e.(phase := Writing, local := Failed)]
        else s[n := e.(phase := Acting)]
      case ListFails(_) => if e.phase.Fetched? then s[n := e.(phase := Writing)] else s
      case Act(_, next) =>
        if e.phase.Acting? && Moves(e.local, next) then s[n := e.(phase := Writing, local := next)] else s
      case Write(_, written) =>
        if e.phase.Writing? then
          s[n := e.(phase := Idle, stored := if written && !e.gone then e.local else e.stored)]
        else s
      case Crash(_) => s[n := e.(phase := Idle)]
      case Delete(_) => s[n := e.(gone := true)]
  }

  ghost function Continue(s: System, steps: seq<Step>): System {
    if steps == [] then s else Apply(Continue(s, steps[..|steps| - 1]), steps[|steps| - 1])
  }

  /** Past Starting and not terminal. */
  predicate Mid(s: RestoreState) {
    1 < Rank(s) < 6
  }

  predicate Busy(e: Entry) {
    e.phase.Acting? || (!e.gone && Mid(e.stored))
  }

  /** At most one restore per cluster is acting or stored past Starting. */
  ghost predicate Exclusive(s: System) {
    forall m, n :: Rivals(s, m, n) ==> !Busy(s[m]) || !Busy(s[n])
  }

  /** The object is deleted between its restore's fetch and the end of its handler. */
  predicate Harmful(s: System, step: Step) {
    step.Delete? && step.n in s && !s[step.n].gone && (s[step.n].phase.Fetched? || s[step.n].phase.Acting?)
  }

  /** No such deletion in a run from s. */
  ghost predicate Harmless(s: System, steps: seq<Step>) {
    forall i :: 0 <= i < |steps| ==> !Harmful(Continue(s, steps[..i]), steps[i])
  }

  // Safety

  /** Owns its cluster: busy, or about to store a state past Starting. */
  predicate Owns(e: Entry) {
    Busy(e) || (!e.gone && e.phase.Writing? && Mid(e.local))
  }

  ghost predicate EntryInv(e: Entry) {
    && (!e.gone && !e.phase.Idle? ==> !Terminal(e.stored))
    && (e.gone ==> !e.phase.Fetched? && !e.phase.Acting?)
    && (e.phase.Fetched? && Mid(e.local) ==> Mid(e.stored))
  }

  ghost predicate Inv(s: System) {
    && (forall n :: n in s ==> EntryInv(s[n]))
    && (forall m, n :: Rivals(s, m, n) ==> !Owns(s[m]) || !Owns(s[n]))
  }

  lemma EntriesKeepInv(s: System, step: Step)
    requires Inv(s) && !Harmful(s, step)
    ensures forall n :: n in Apply(s, step) ==> EntryInv(Apply(s, step)[n])
  {
    var s' := Apply(s, step);
    forall n | n in s' ensures EntryInv(s'[n]) {
      assert n in s ==> EntryInv(s[n]);
    }
  }

  /** A restore comes to own its cluster only by listing no other. */
  lemma OwnedBefore(s: System, step: Step, n: Name)
    requires Inv(s) && !Harmful(s, step) && n in Apply(s, step) && Owns(Apply(s, step)[n])
    ensures n in s && s[n].cluster == Apply(s, step)[n].cluster
    ensures Owns(s[n]) || (step == List(n) && !Blocked(s, n))
    ensures step.n != n ==> Owns(s[n])
  {
    assert n in s ==> EntryInv(s[n]);
  }

  lemma OwnerInProgress(s: System, n: Name)
    requires Inv(s) && n in s && Owns(s[n])
    ensures InProgress(s[n])
  {
    assert EntryInv(s[n]);
  }

  lemma StepKeepsInv(s: System, step: Step)
    requires Inv(s) && !Harmful(s, step)
    ensures Inv(Apply(s, step))
  {
    var s' := Apply(s, step);
    forall m, n | Rivals(s', m, n) ensures !Owns(s'[m]) || !Owns(s'[n]) {
      if Owns(s'[m]) && Owns(s'[n]) {
        OwnedBefore(s, step, m);
        OwnedBefore(s, step, n);
        assert Rivals(s, m, n) && Rivals(s, n, m);
        if Owns(s[n]) { OwnerInProgress(s, n); }
        if Owns(s[m]) { OwnerInProgress(s, m); }
      }
    }
    EntriesKeepInv(s, step);
  }

  lemma {:induction false} HarmlessKeepsInv(s: System, steps: seq<Step>)
    requires Inv(s) && Harmless(s, steps)
    ensures Inv(Continue(s, steps))
    decreases |steps|
  {
    if steps != [] {
      var front := steps[..|steps| - 1];
      forall i | 0 <= i < |front| ensures !Harmful(Continue(s, front[..i]), front[i]) {
        assert front[..i] == steps[..i];
      }
      HarmlessKeepsInv(s, front);
      StepKeepsInv(Continue(s, front), steps[|steps| - 1]);
    }
  }

  /** Main theorem: in every interleaving in which no object is deleted between its restore's fetch
      and the end of its handler, at most one restore per cluster acts or is past Starting. */
  lemma RestoresAreExclusive(steps: seq<Step>)
    requires Harmless(map[], steps)
    ensures Exclusive(Continue(map[], steps))
  {
    HarmlessKeepsInv(map[], steps);
  }

  // And such a deletion does break it

  /** Some harmless steps lead from one system to the other. */
  ghost predicate Leads(s: System, t: System) {
    exists steps :: Harmless(s, steps) && Continue(s, steps) == t
  }

  lemma LeadsToSelf(s: System)
    ensures Leads(s, s)
  {
    assert Harmless(s, []) && Continue(s, []) == s;
  }

  lemma LeadsNext(s: System, t: System, step: Step)
    requires Leads(s, t) && !Harmful(t, step)
    ensures Leads(s, Apply(t, step))
  {
    var steps :| Harmless(s, steps) && Continue(s, steps) == t;
    var more := steps + [step];
    forall i | 0 <= i < |more| ensures !Harmful(Continue(s, more[..i]), more[i]) {
      assert more[..i] == steps[..i];
      if i == |steps| { assert steps[..i] == steps; }
    }
    assert more[..|steps|] == steps;
    assert Continue(s, more) == Apply(t, step);
  }

  /** Every restore but n can be got out of the way. */
  lemma {:induction false} ClearOthers(s: System, t: System, n: Name, todo: set<Name>) returns (t': System)
    requires Leads(s, t) && n in t && n !in todo && todo <= t.Keys
    requires forall k :: k in t && k != n && k !in todo ==> t[k].gone
    ensures Leads(s, t') && t'.Keys == t.Keys && t'[n] == t[n]
    ensures forall k :: k in t' && k != n ==> t'[k].gone
    decreases |todo|
  {
    t' := t;
    if k :| k in todo {
      var next := ClearOne(s, t, k);
      t' := ClearOthers(s, next, n, todo - {k});
    }
  }

  lemma ClearOne(s: System, t: System, k: Name) returns (t': System)
    requires Leads(s, t) && k in t
    ensures Leads(s, t') && t' == t[k := t[k].(phase := Idle, gone := true)]
  {
    CrashAndDelete(t, k);
    LeadsNext(s, t, Crash(k));
    var idle := t[k := t[k].(phase := Idle)];
    LeadsNext(s, idle, Delete(k));
    t' := Apply(idle, Delete(k));
  }

  lemma CrashAndDelete(t: System, k: Name)
    requires k in t
    ensures Apply(t, Crash(k)) == t[k := t[k].(phase := Idle)]
    ensures Apply(t[k := t[k].(phase := Idle)], Delete(k)) == t[k := t[k].(phase := Idle, gone := true)]
  {
    var idle := t[k := t[k].(phase := Idle)];
    assert idle[k := idle[k].(gone := true)] == t[k := t[k].(phase := Idle, gone := true)];
  }

  /** With everything else gone, a restore that was read can act. */
  lemma ListedAlone(s: System, t: System, n: Name) returns (t': System)
    requires Leads(s, t) && n in t && t[n].phase.Fetched? && forall k :: k in t && k != n ==> t[k].gone
    ensures Leads(s, t') && t' == t[n := t[n].(phase := Acting)]
  {
    assert !Blocked(t, n);
    LeadsNext(s, t, List(n));
    t' := Apply(t, List(n));
  }

  /** With every object gone, a fresh restore acts. */
  lemma FreshActs(s: System, t: System, m: Name, c: Cluster) returns (t': System)
    requires Leads(s, t) && m !in t && forall k :: k in t ==> t[k].gone
    ensures Leads(s, t') && t' == t[m := Entry(c, New, Starting, Acting, false)]
  {
    LeadsNext(s, t, Create(m, c));
    var created := Apply(t, Create(m, c));
    LeadsNext(s, created, Fetch(m));
    t' := ListedAlone(s, Apply(created, Fetch(m)), m);
  }

  /** A gone restore still at work, and then a fresh one at work beside it. */
  lemma ClashFollows(s: System, n: Name)
    requires n in s && s[n].gone && (s[n].phase.Fetched? || s[n].phase.Acting?)
    ensures exists t :: Leads(s, t) && !Exclusive(t)
  {
    LeadsToSelf(s);
    var t := ClearOthers(s, s, n, s.Keys - {n});
    if t[n].phase.Fetched? {
      t := ListedAlone(s, t, n);
    }
    var m := FreshName(t.Keys);
    t := FreshActs(s, t, m, s[n].cluster);
    assert Rivals(t, m, n) && Busy(t[m]) && Busy(t[n]);
  }

  /** After a harmless run, deleting a live object can be followed by a clash exactly when its
      restore has been read and its handler is not over. Before or after that it is harmless. */
  lemma DeletionBreaksExactlyWhen(s: System, n: Name)
    requires Inv(s) && n in s && !s[n].gone
    ensures (exists t :: Leads(Apply(s, Delete(n)), t) && !Exclusive(t)) <==> s[n].phase.Fetched? || s[n].phase.Acting?
  {
    var s' := Apply(s, Delete(n));
    if s[n].phase.Fetched? || s[n].phase.Acting? {
      ClashFollows(s', n);
    } else {
      StepKeepsInv(s, Delete(n));
      forall t | Leads(s', t) ensures Exclusive(t) {
        var steps :| Harmless(s', steps) && Continue(s', steps) == t;
        HarmlessKeepsInv(s', steps);
      }
    }
  }

  // What rivals do to each other

  /** Two restores of one cluster in progress can bring each other down, however far one has come. */
  lemma BothCanFail(s: System, m: Name, n: Name)
    requires Rivals(s, m, n) && InProgress(s[m]) && InProgress(s[n])
    ensures exists t: System :: Leads(s, t) && m in t && n in t && t[m].stored.Failed? && t[n].stored.Failed?
  {
    LeadsToSelf(s);
    var a := Refetched(s, s, m);
    var b := Refetched(s, a, n);
    var c := ListedAndFailed(s, b, m, n);
    var d := ListedAndFailed(s, c, n, m);
    LeadsNext(s, d, Write(m, true));
    var e := Apply(d, Write(m, true));
    LeadsNext(s, e, Write(n, true));
    var t := Apply(e, Write(n, true));
    assert t[m].stored.Failed? && t[n].stored.Failed?;
  }

  lemma Refetched(s: System, t: System, n: Name) returns (t': System)
    requires Leads(s, t) && n in t && InProgress(t[n])
    ensures Leads(s, t') && t'.Keys == t.Keys && (forall k :: k in t && k != n ==> t'[k] == t[k])
    ensures t'[n] == t[n].(phase := Fetched, local := t'[n].local)
  {
    LeadsNext(s, t, Crash(n));
    var idle := Apply(t, Crash(n));
    LeadsNext(s, idle, Fetch(n));
    t' := Apply(idle, Fetch(n));
  }

  lemma ListedAndFailed(s: System, t: System, n: Name, m: Name) returns (t': System)
    requires Leads(s, t) && Rivals(t, m, n) && InProgress(t[m]) && t[n].phase.Fetched?
    ensures Leads(s, t') && t' == t[n := t[n].(phase := Writing, local := Failed)]
  {
    assert Blocked(t, n);
    LeadsNext(s, t, List(n));
    t' := Apply(t, List(n));
  }

  predicate Done(e: Entry) {
    e.gone || (Terminal(e.stored) && e.phase.Idle?)
  }

  ghost predicate TerminalIsIdle(s: System) {
    forall n :: n in s && !s[n].gone && !s[n].phase.Idle? ==> !Terminal(s[n].stored)
  }

  /** Along any run, harmless or not, a restore gets to act only after every rival it started with is
      done: stored Succeeded or Failed, or deleted. */
  lemma {:induction false} SurvivorOutlivesRivals(s: System, steps: seq<Step>, m: Name, n: Name)
    requires Rivals(s, m, n) && TerminalIsIdle(s) && !s[n].phase.Acting?
    ensures var t := Continue(s, steps);
      Rivals(t, m, n) && TerminalIsIdle(t) && (t[n].phase.Acting? || Done(s[m]) ==> Done(t[m]))
    decreases |steps|
  {
    if steps != [] {
      var front, step := steps[..|steps| - 1], steps[|steps| - 1];
      SurvivorOutlivesRivals(s, front, m, n);
      var t := Continue(s, front);
      if step == List(n) && t[n].phase.Fetched? && !Blocked(t, n) {
        assert !InProgress(t[m]);
      }
    }
  }

  /** And if one rival is all there is, there is a schedule in which it fails and the other acts. */
  lemma OneCanSurvive(s: System, m: Name, n: Name)
    requires Rivals(s, m, n) && InProgress(s[m]) && InProgress(s[n])
    requires forall k :: Rivals(s, k, n) && k != m ==> !InProgress(s[k])
    ensures exists t: System :: Leads(s, t) && m in t && n in t && t[m].stored.Failed? && t[n].phase.Acting?
  {
    LeadsToSelf(s);
    var a := Refetched(s, s, m);
    var b := ListedAndFailed(s, a, m, n);
    LeadsNext(s, b, Write(m, true));
    var c := Refetched(s, Apply(b, Write(m, true)), n);
    forall k | Rivals(c, k, n) ensures !InProgress(c[k]) {
      assert Rivals(s, k, n);
    }
    LeadsNext(s, c, List(n));
    var t := Apply(c, List(n));
    assert t[m].stored.Failed? && t[n].phase.Acting?;
  }
}
