/** What can still come of a rotation: which states can be finished, and which changes of target and
    which interruptions can lose a password in use. */
module RotationOutcomes {
  import opened Options
  import opened DualPassword

  // When a rotation can be finished

  predicate KeepsTarget(steps: seq<Step>) {
    forall i :: 0 <= i < |steps| ==> !steps[i].Retarget?
  }

  /** Some steps that leave the target alone lead from one state to the other. */
  ghost predicate Leads(s: System, t: System, c: Config) {
    exists steps :: KeepsTarget(steps) && Continue(s, steps, c) == t
  }

  lemma LeadsToSelf(s: System, c: Config)
    ensures Leads(s, s, c)
  {
    assert KeepsTarget([]) && Continue(s, [], c) == s;
  }

  lemma LeadsNext(s: System, t: System, c: Config, step: Step)
    requires Leads(s, t, c) && !step.Retarget?
    ensures Leads(s, Apply(t, step, c), c)
  {
    var steps :| KeepsTarget(steps) && Continue(s, steps, c) == t;
    assert (steps + [step])[..|steps|] == steps;
    assert KeepsTarget(steps + [step]) && Continue(s, steps + [step], c) == Apply(t, step, c);
  }

  lemma {:induction false} AltersAll(s: System, t: System, c: Config) returns (t': System)
    requires Leads(s, t, c) && t.phase.Altering? && t.phase.host < |t.accounts|
    requires t.phase.host == 0 ==> Session(t, c)
    requires forall h :: 0 <= h < t.phase.host ==> t.accounts[h].primary == t.pass
    ensures Leads(s, t', c) && t' == t.(accounts := t'.accounts, phase := Patching)
    ensures |t'.accounts| == |t.accounts| && forall h :: 0 <= h < |t'.accounts| ==> t'.accounts[h].primary == t.pass
    decreases |t.accounts| - t.phase.host
  {
    LeadsNext(s, t, c, Alter);
    t' := Apply(t, Alter, c);
    if t'.phase.Altering? {
      t' := AltersAll(s, t', c);
    }
  }

  lemma {:induction false} MountsAll(s: System, t: System, c: Config, i: nat) returns (t': System)
    requires Leads(s, t, c) && i <= |t.mounted| && forall j :: 0 <= j < i ==> t.mounted[j] == t.internal
    ensures Leads(s, t', c) && t' == t.(mounted := t'.mounted) && |t'.mounted| == |t.mounted|
    ensures forall j :: 0 <= j < |t'.mounted| ==> t'.mounted[j] == t.internal
    decreases |t.mounted| - i
  {
    t' := t;
    if i < |t.mounted| {
      LeadsNext(s, t, c, Mount(i));
      t' := MountsAll(s, Apply(t, Mount(i), c), c, i + 1);
    }
  }

  lemma {:induction false} ScansAll(s: System, t: System, c: Config) returns (t': System)
    requires Leads(s, t, c) && t.phase.Scanning? && forall j :: 0 <= j < |t.mounted| ==> t.mounted[j] == t.pass
    ensures Leads(s, t', c) && t' == t.(phase := Discarding(0))
    decreases |t.mounted| - t.phase.pod
  {
    LeadsNext(s, t, c, Scan);
    t' := Apply(t, Scan, c);
    if t'.phase.Scanning? {
      t' := ScansAll(s, t', c);
    }
  }

  lemma {:induction false} DiscardsAll(s: System, t: System, c: Config) returns (t': System)
    requires Leads(s, t, c) && t.phase.Discarding? && t.phase.host <= |t.accounts| && t.target == t.internal
    requires forall h :: 0 <= h < |t.accounts| ==> t.accounts[h].primary == t.internal
    requires forall h :: 0 <= h < t.phase.host ==> t.accounts[h].secondary.None?
    ensures Leads(s, t', c) && t'.phase.Idle? && RotationOver(t') && t'.target == t.target
    decreases |t.accounts| - t.phase.host
  {
    LeadsNext(s, t, c, Discard);
    t' := Apply(t, Discard, c);
    if t'.phase.Discarding? {
      t' := DiscardsAll(s, t', c);
    }
  }

  /** Once the internal secret has the password, the pods catch up and the old password goes. */
  lemma FinishesAfterPatch(s: System, t: System, c: Config) returns (t': System)
    requires Leads(s, t, c) && t.pass == t.internal && t.target == t.internal
    requires t.phase == if c.monitor then Scanning(0) else Discarding(0)
    requires forall h :: 0 <= h < |t.accounts| ==> t.accounts[h].primary == t.internal
    ensures Leads(s, t', c) && t'.phase.Idle? && RotationOver(t') && t'.target == t.target
  {
    t' := t;
    if c.monitor {
      t' := MountsAll(s, t', c, 0);
      t' := ScansAll(s, t', c);
    }
    t' := DiscardsAll(s, t', c);
  }

  ghost predicate CanFinish(s: System, c: Config) {
    exists t :: Leads(s, t, c) && t.phase.Idle? && RotationOver(t) && t.target == s.target
  }

  /** With the internal secret already at the target the handler only discards: the accounts must have
      that password. Otherwise it alters them, for which it needs a session. */
  predicate Finishable(s: System, c: Config) {
    if s.target == s.internal then forall h :: 0 <= h < |s.accounts| ==> s.accounts[h].primary == s.internal
    else Session(s, c)
  }

  lemma FinishableFinishes(s: System, c: Config)
    requires s.phase.Idle? && s.accounts != [] && Finishable(s, c)
    ensures CanFinish(s, c)
  {
    LeadsToSelf(s, c);
    var t := s;
    if s.target != s.internal {
      LeadsNext(s, s, c, Check(0));
      t := AltersAll(s, Apply(s, Check(0), c), c);
      LeadsNext(s, t, c, Patch);
      t := FinishesAfterPatch(s, Apply(t, Patch, c), c);
    } else if h :| 0 <= h < |s.accounts| && s.accounts[h].secondary.Some? {
      LeadsNext(s, s, c, Check(h));
      t := FinishesAfterPatch(s, Apply(s, Check(h), c), c);
    }
    assert Leads(s, t, c) && t.phase.Idle? && RotationOver(t) && t.target == s.target;
  }

  /** The internal secret is at the target and stays there, but account h has another password. */
  ghost predicate Diverged(s: System, h: nat) {
    && h < |s.accounts| && s.target == s.internal && s.accounts[h].primary != s.internal
    && (s.phase.Idle? || ((s.phase.Scanning? || s.phase.Discarding?) && s.pass == s.internal))
  }

  lemma {:induction false} DivergedStays(s: System, steps: seq<Step>, c: Config, h: nat)
    requires Diverged(s, h) && KeepsTarget(steps)
    ensures Diverged(Continue(s, steps, c), h)
    decreases |steps|
  {
    if steps != [] {
      DivergedStays(s, steps[..|steps| - 1], c, h);
    }
  }

  /** The operator cannot log in any more. */
  ghost predicate LockedOut(s: System, c: Config) {
    c.ownLogin && s.phase.Idle? && !LoginWorks(s)
  }

  /** Nothing the handler, the kubelets or even a new target can do repairs that. */
  lemma {:induction false} LockedOutForGood(s: System, steps: seq<Step>, c: Config)
    requires LockedOut(s, c)
    ensures LockedOut(Continue(s, steps, c), c)
    ensures Continue(s, steps, c).accounts == s.accounts && Continue(s, steps, c).internal == s.internal
    decreases |steps|
  {
    if steps != [] {
      LockedOutForGood(s, steps[..|steps| - 1], c);
    }
  }

  /** Main theorem: from every state between reconciles, interrupted or not, the rotation to the
      present target can be finished exactly when the state is Finishable. */
  lemma FinishesExactlyWhen(s: System, c: Config)
    requires s.phase.Idle? && s.accounts != []
    ensures CanFinish(s, c) <==> Finishable(s, c)
  {
    if Finishable(s, c) {
      FinishableFinishes(s, c);
    } else {
      forall steps | KeepsTarget(steps) ensures !RotationOver(Continue(s, steps, c)) {
        if s.target == s.internal {
          var h :| 0 <= h < |s.accounts| && s.accounts[h].primary != s.internal;
          DivergedStays(s, steps, c, h);
        } else {
          LockedOutForGood(s, steps, c);
        }
      }
    }
  }

  /** An uninterrupted operator never gets stuck. */
  lemma RotationCanFinish(c: Config, p: Password, steps: seq<Step>)
    requires !c.mayInterrupt && c.hosts >= 1 && Execute(c, p, steps).phase.Idle?
    ensures CanFinish(Execute(c, p, steps), c)
  {
    ReachableInv(c, p, steps);
    FinishableFinishes(Execute(c, p, steps), c);
  }

  /** Interrupted twice after its ALTER, the operator's own rotation locks the operator out. */
  lemma OperatorLocksItselfOut(c: Config, p: Password, q: Password)
    requires c.ownLogin && c.mayInterrupt && c.hosts >= 1 && p != q
    ensures exists steps :: LockedOut(Execute(c, p, steps), c)
  {
    InterruptionLosesLogin(c, p, q);
    var steps :| !LoginWorks(Execute(c, p, steps));
    ExecuteAppend(c, p, steps, Stop);
    assert LockedOut(Execute(c, p, steps + [Stop]), c);
  }

  /** Interrupted after its ALTER and then told to go back, the handler discards the old password:
      it finds nothing more to do, and the account has a password that is in no secret. */
  lemma GoingBackDiverges(c: Config, p: Password, q: Password)
    requires c.mayInterrupt && c.mayRetarget && !c.monitor && c.hosts == 1 && p != q
    ensures exists steps :: (var s := Execute(c, p, steps);
      Diverged(s, 0) && s.phase.Idle? && s.internal == p && s.accounts[0] == Account(q, None))
  {
    FirstAlter(c, p, q);
    var steps :| Execute(c, p, steps) == AfterFirstAlter(c, p, q);
    var back := Continue(AfterFirstAlter(c, p, q), [Stop, Retarget(p), Check(0)], c);
    ExecuteThen(c, p, steps, [Stop, Retarget(p), Check(0)]);
    ExecuteThen(c, p, steps + [Stop, Retarget(p), Check(0)], [Discard, Discard]);
    GoesBack(c, p, q);
    DiscardsOne(back, c, p, q);
    ContinueTwo(back, Discard, Discard, c);
    assert Diverged(Execute(c, p, steps + [Stop, Retarget(p), Check(0)] + [Discard, Discard]), 0);
  }

  lemma GoesBack(c: Config, p: Password, q: Password)
    requires c.mayInterrupt && c.mayRetarget && !c.monitor && c.hosts == 1 && p != q
    ensures var s := Continue(AfterFirstAlter(c, p, q), [Stop, Retarget(p), Check(0)], c);
      s.phase == Discarding(0) && s.accounts == [Account(q, Some(p))] && s.internal == s.target == p
  {
    var s := AfterFirstAlter(c, p, q);
    ContinueThree(s, Stop, Retarget(p), Check(0), c);
    assert s.accounts == [Account(q, Some(p))];
  }

  lemma DiscardsOne(s: System, c: Config, p: Password, q: Password)
    requires s.phase == Discarding(0) && s.accounts == [Account(q, Some(p))] && s.internal == p
    ensures Apply(Apply(s, Discard, c), Discard, c) == s.(accounts := [Account(q, None)], phase := Idle)
  {
    assert Session(s, c);
  }

  // Which changes of target and which interruptions do harm

  lemma {:induction false} LeadsKeepsMounts(s: System, steps: seq<Step>, c: Config)
    requires Shape(s, c) && AccountsInv(s) && MountSafe(s) && KeepsTarget(steps)
    requires c.hosts >= 1 && c.monitor && !c.mayInterrupt
    ensures var t := Continue(s, steps, c); Shape(t, c) && AccountsInv(t) && MountSafe(t)
    decreases |steps|
  {
    if steps != [] {
      var front := steps[..|steps| - 1];
      LeadsKeepsMounts(s, front, c);
      StepKeepsAccounts(Continue(s, front, c), steps[|steps| - 1], c);
      StepKeepsMounts(Continue(s, front, c), steps[|steps| - 1], c);
    }
  }

  /** A handler that starts over alters the first account away from a password that is mounted. */
  lemma AlterLosesMount(s: System, t: System, c: Config, i: nat) returns (t': System)
    requires Leads(s, t, c) && t.phase.Idle? && t.accounts != [] && AccountsInv(t) && t.target != t.internal
    requires i < |t.mounted| && t.mounted[i] != t.target && t.mounted[i] != t.internal
    ensures Leads(s, t', c) && !MountsWork(t')
  {
    assert LoginWorks(t);
    LeadsNext(s, t, c, Check(0));
    var checked := Apply(t, Check(0), c);
    assert LoginWorks(checked) && checked.phase == Altering(0) && checked.pass == t.target;
    LeadsNext(s, checked, c, Alter);
    t' := Apply(checked, Alter, c);
    assert !Accepts(t'.accounts[0], t'.mounted[i]);
  }

  /** During a rotation a target that is neither its old nor its new password: a pod mounts the old one,
      the rotation is patched, and the next one alters that password away. */
  lemma ThirdTargetLosesMount(s: System, c: Config) returns (t: System)
    requires Shape(s, c) && AccountsInv(s) && Rotating(s)
    requires c.monitor && c.hosts >= 1 && c.pods >= 1 && s.target != s.pass && s.target != s.internal
    ensures Leads(s, t, c) && !MountsWork(t)
  {
    LeadsToSelf(s, c);
    LeadsNext(s, s, c, Mount(0));
    t := Apply(s, Mount(0), c);
    if t.phase.Altering? {
      assert t.phase.host == 0 ==> LoginWorks(t);
      t := AltersAll(s, t, c);
    }
    assert t.mounted[0] == s.internal && t.phase.Patching?;
    assert forall h :: 0 <= h < |t.accounts| ==> t.accounts[h].primary == t.pass;
    t := PatchAndStop(s, t, c);
    t := AlterLosesMount(s, t, c, 0);
  }

  lemma PatchAndStop(s: System, t: System, c: Config) returns (t': System)
    requires Leads(s, t, c) && t.phase.Patching? && c.monitor
    requires forall h :: 0 <= h < |t.accounts| ==> t.accounts[h].primary == t.pass
    ensures Leads(s, t', c) && t' == t.(internal := t.pass, phase := Idle) && AccountsInv(t')
  {
    LeadsNext(s, t, c, Patch);
    var patched := Apply(t, Patch, c);
    LeadsNext(s, patched, c, Stop);
    t' := Apply(patched, Stop, c);
  }

  /** In an uninterrupted run of the monitor's rotations that has lost nothing so far, a change of target
      can be followed by a lost mount exactly when the new target is not safe. */
  lemma RetargetLosesExactlyWhen(s: System, q: Password, c: Config)
    requires Shape(s, c) && AccountsInv(s) && MountSafe(s)
    requires c.monitor && !c.mayInterrupt && c.mayRetarget && c.hosts >= 1 && c.pods >= 1
    ensures (exists t :: Leads(Apply(s, Retarget(q), c), t, c) && !MountsWork(t)) <==> !TargetSafe(s, q)
  {
    var s' := Apply(s, Retarget(q), c);
    if TargetSafe(s, q) {
      StepKeepsMounts(s, Retarget(q), c);
      forall t | Leads(s', t, c) ensures MountsWork(t) {
        var steps :| KeepsTarget(steps) && Continue(s', steps, c) == t;
        LeadsKeepsMounts(s', steps, c);
      }
    } else if Rotating(s) {
      var t := ThirdTargetLosesMount(s', c);
    } else {
      var i :| 0 <= i < |s.mounted| && s.mounted[i] != q && s.mounted[i] != s.internal;
      LeadsToSelf(s', c);
      LeadsNext(s', s', c, Stop);
      var t := AlterLosesMount(s', Apply(s', Stop, c), c, i);
    }
  }

  /** Some account has been altered and the internal secret not yet patched. */
  predicate InWindow(s: System) {
    s.phase.Patching? || (s.phase.Altering? && s.phase.host > 0)
  }

  lemma {:induction false} LeadsKeepsAccounts(s: System, steps: seq<Step>, c: Config)
    requires Shape(s, c) && AccountsInv(s) && !c.mayInterrupt
    ensures Shape(Continue(s, steps, c), c) && AccountsInv(Continue(s, steps, c))
    decreases |steps|
  {
    if steps != [] {
      LeadsKeepsAccounts(s, steps[..|steps| - 1], c);
      StepKeepsAccounts(Continue(s, steps[..|steps| - 1], c), steps[|steps| - 1], c);
    }
  }

  /** Stopped in the window, the handler starts over and alters again, or finds the target back at the
      internal password and discards that. */
  lemma StoppedInWindowLosesLogin(s: System, c: Config) returns (t: System)
    requires s.phase.Idle? && s.accounts != [] && LoginWorks(s)
    requires s.accounts[0].primary != s.internal && s.accounts[0].secondary == Some(s.internal)
    ensures Leads(s, t, c) && !LoginWorks(t)
  {
    LeadsToSelf(s, c);
    LeadsNext(s, s, c, Check(0));
    t := Apply(s, Check(0), c);
    if s.target != s.internal {
      LeadsNext(s, t, c, Alter);
      t := Apply(t, Alter, c);
    } else {
      if c.monitor {
        t := MountsAll(s, t, c, 0);
        t := ScansAll(s, t, c);
      }
      assert LoginWorks(t);
      LeadsNext(s, t, c, Discard);
      t := Apply(t, Discard, c);
    }
    assert !Accepts(t.accounts[0], t.internal);
  }

  /** In a run not interrupted so far, stopping the handler can be followed by a lost login, with no
      further interruption, exactly when it falls between the first ALTER and the patch. */
  lemma InterruptionLosesExactlyWhen(s: System, c: Config)
    requires Shape(s, c) && AccountsInv(s) && !c.mayInterrupt && c.hosts >= 1
    ensures (exists t :: Leads(s.(phase := Idle), t, c) && !LoginWorks(t)) <==> InWindow(s)
  {
    var stopped := s.(phase := Idle);
    if InWindow(s) {
      assert s.accounts[0] == Account(s.pass, Some(s.internal));
      var t := StoppedInWindowLosesLogin(stopped, c);
    } else {
      assert AccountsInv(stopped);
      forall t | Leads(stopped, t, c) ensures LoginWorks(t) {
        var steps :| KeepsTarget(steps) && Continue(stopped, steps, c) == t;
        LeadsKeepsAccounts(stopped, steps, c);
      }
    }
  }
}
