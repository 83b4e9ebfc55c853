/** Rotation of one system user's password with MySQL's dual passwords, statement by statement,
    with the handler free to stop anywhere and kubelets mounting the internal secret at their own pace. */
module DualPassword {
  import opened Options

  type Password = nat

  /** One account, user@host: its password and the one retained beside it. */
  datatype Account = Account(primary: Password, secondary: Option<Password>)

  /** Where the handler stands; the numbers are the host or pod it turns to next. */
  datatype Phase = Idle | Altering(host: nat) | Patching | Scanning(pod: nat) | Discarding(host: nat)

  /** monitor: the handler waits for the pods before it discards. mayInterrupt: it may stop between
      the first ALTER and the patch of the internal secret. mayRetarget: the user's secret may change
      before the previous rotation is over. ownLogin: the user is the operator, as whom every session
      is opened, with the internal secret's password. */
  datatype Config = Config(hosts: nat, pods: nat, monitor: bool, mayInterrupt: bool, mayRetarget: bool, ownLogin: bool)

  datatype System = System(
    accounts: seq<Account>,
    target: Password,        // in the user's secret
    internal: Password,      // in the internal secret
    mounted: seq<Password>,  // in each pod
    pass: Password,          // the target as the handler read it
    phase: Phase)

  datatype Step =
    | Retarget(password: Password)
    | Check(row: nat)
    | Alter | Patch | Scan | Discard
    | Stop
    | Mount(pod: nat)

  predicate Accepts(a: Account, p: Password) {
    a.primary == p || a.secondary == Some(p)
  }

  function Initial(c: Config, p: Password): System {
    System(seq(c.hosts, _ => Account(p, None)), p, p, seq(c.pods, _ => p), p, Idle)
  }

  /** The previous rotation is over: its target is everywhere and no old password is left. */
  predicate RotationOver(s: System) {
    s.target == s.internal && forall h :: 0 <= h < |s.accounts| ==> s.accounts[h] == Account(s.target, None)
  }

  /** The internal secret's password logs in on every host. */
  predicate LoginWorks(s: System) {
    forall h :: 0 <= h < |s.accounts| ==> Accepts(s.accounts[h], s.internal)
  }

  /** A session can be opened. Users other than the operator are managed through its account. */
  predicate Session(s: System, c: Config) {
    c.ownLogin ==> LoginWorks(s)
  }

  function Altered(a: Account, p: Password): Account {
    Account(p, Some(a.primary))  // RETAIN CURRENT PASSWORD drops an earlier secondary
  }

  function Apply(s: System, step: Step, c: Config): System {
    match step
    case Retarget(p) => if c.mayRetarget || RotationOver(s) then s.(target := p) else s
    case Check(row) =>
      // IsOldPassDiscarded looks at one row of mysql.user, whichever comes first
      if !s.phase.Idle? || row >= |s.accounts| || !Session(s, c) then s
      else if s.target != s.internal then s.(pass := s.target, phase := Altering(0))
      else if s.accounts[row].secondary.None? then s
      else s.(pass := s.target, phase := if c.monitor then Scanning(0) else Discarding(0))
    case Alter =>
      if !s.phase.Altering? || s.phase.host >= |s.accounts| then s
      else if s.phase.host == 0 && !Session(s, c) then s.(phase := Idle)
      else
        var h := s.phase.host;
        s.(accounts := s.accounts[h := Altered(s.accounts[h], s.pass)],
           phase := if h + 1 < |s.accounts| then Altering(h + 1) else Patching)
    case Patch =>
      if s.phase.Patching? then s.(internal := s.pass, phase := if c.monitor then Scanning(0) else Discarding(0)) else s
    case Scan =>
      if !s.phase.Scanning? then s
      else if s.phase.pod >= |s.mounted| then s.(phase := Discarding(0))
      else if s.mounted[s.phase.pod] != s.pass then s.(phase := Idle)
      else s.(phase := Scanning(s.phase.pod + 1))
    case Discard =>
      if !s.phase.Discarding? then s
      else if s.phase.host == 0 && !Session(s, c) then s.(phase := Idle)
      else if s.phase.host >= |s.accounts| then s.(phase := Idle)
      else
        var h := s.phase.host;
        s.(accounts := s.accounts[h := s.accounts[h].(secondary := None)], phase := Discarding(h + 1))
    case Stop =>
      if (s.phase.Patching? || (s.phase.Altering? && s.phase.host > 0)) && !c.mayInterrupt then s else s.(phase := Idle)
    case Mount(pod) => if pod < |s.mounted| then s.(mounted := s.mounted[pod := s.internal]) else s
  }

  function Execute(c: Config, p: Password, steps: seq<Step>): System {
    if steps == [] then Initial(c, p)
    else Apply(Execute(c, p, steps[..|steps| - 1]), steps[|steps| - 1], c)
  }

  /** Every host accepts whatever password any pod has mounted. */
  ghost predicate MountsWork(s: System) {
    forall h, i :: 0 <= h < |s.accounts| && 0 <= i < |s.mounted| ==> Accepts(s.accounts[h], s.mounted[i])
  }

  ghost predicate Shape(s: System, c: Config) {
    |s.accounts| == c.hosts && |s.mounted| == c.pods && (s.phase.Altering? ==> s.phase.host < c.hosts)
  }

  /** The handler is between its first ALTER and the patch, or about to begin. */
  predicate Rotating(s: System) {
    s.phase.Altering? || s.phase.Patching?
  }

  /** The accounts follow the phase: hosts already altered carry the new password and retain the
      internal one; all the others, and all of them outside ALTER and patch, have the internal one. */
  ghost predicate AccountsInv(s: System) {
    var done := if s.phase.Altering? then s.phase.host else if s.phase.Patching? then |s.accounts| else 0;
    && (forall h :: 0 <= h < |s.accounts| ==>
         if h < done then s.accounts[h] == Account(s.pass, Some(s.internal)) else s.accounts[h].primary == s.internal)
    && (s.phase.Scanning? || s.phase.Discarding? ==> s.pass == s.internal)
    && (Rotating(s) ==> s.pass != s.internal)
  }

  /** Old passwords are discarded host by host, first to last. */
  ghost predicate DiscardOrder(s: System) {
    && (s.phase.Discarding? ==> forall h :: 0 <= h < s.phase.host && h < |s.accounts| ==> s.accounts[h].secondary.None?)
    && (!s.phase.Altering? || s.phase.host == 0 ==>
         forall g, h :: 0 <= g <= h < |s.accounts| && s.accounts[h].secondary.None? ==> s.accounts[g].secondary.None?)
  }

  lemma StepKeepsAccounts(s: System, step: Step, c: Config)
    requires Shape(s, c) && AccountsInv(s) && !c.mayInterrupt
    ensures Shape(Apply(s, step, c), c) && AccountsInv(Apply(s, step, c))
  {
  }

  lemma StepKeepsDiscardOrder(s: System, step: Step, c: Config)
    requires Shape(s, c) && AccountsInv(s) && DiscardOrder(s) && !c.mayInterrupt
    ensures DiscardOrder(Apply(s, step, c))
  {
  }

  /** A target under which no mounted password gets lost: during a rotation the one it is to or from;
      otherwise the internal one, or one that with it makes up all that is mounted. */
  ghost predicate TargetSafe(s: System, t: Password) {
    if Rotating(s) then t == s.pass || t == s.internal
    else t == s.internal || forall i :: 0 <= i < |s.mounted| ==> s.mounted[i] == t || s.mounted[i] == s.internal
  }

  /** What holds of the pods along a run of the monitor's rotations. */
  ghost predicate MountSafe(s: System) {
    && MountsWork(s) && TargetSafe(s, s.target)
    && (Rotating(s) ==> forall i :: 0 <= i < |s.mounted| ==> s.mounted[i] == s.pass || s.mounted[i] == s.internal)
    && (s.phase.Scanning? ==> forall i :: 0 <= i < s.phase.pod && i < |s.mounted| ==> s.mounted[i] == s.internal)
    && (s.phase.Discarding? ==> forall i :: 0 <= i < |s.mounted| ==> s.mounted[i] == s.internal)
  }

  /** Every step keeps it, a change of target as long as the new one is safe. */
  lemma StepKeepsMounts(s: System, step: Step, c: Config)
    requires Shape(s, c) && AccountsInv(s) && MountSafe(s)
    requires c.hosts >= 1 && c.monitor && !c.mayInterrupt
    requires step.Retarget? && (c.mayRetarget || RotationOver(s)) ==> TargetSafe(s, step.password)
    ensures MountSafe(Apply(s, step, c))
  {
    StepKeepsAccounts(s, step, c);
    StepKeepsMountsWorking(s, step, c);
  }

  lemma StepKeepsMountsWorking(s: System, step: Step, c: Config)
    requires Shape(s, c) && AccountsInv(s) && MountSafe(s) && !c.mayInterrupt
    ensures MountsWork(Apply(s, step, c))
  {
    var s' := Apply(s, step, c);
    forall h, i | 0 <= h < |s'.accounts| && 0 <= i < |s'.mounted| ensures Accepts(s'.accounts[h], s'.mounted[i]) {
      assert Accepts(s.accounts[h], s.mounted[i]);
    }
  }

  lemma {:induction false} ReachableInv(c: Config, p: Password, steps: seq<Step>)
    requires !c.mayInterrupt && c.hosts >= 1
    ensures var s := Execute(c, p, steps);
      && Shape(s, c) && AccountsInv(s) && DiscardOrder(s)
      && (!c.mayRetarget && Rotating(s) ==> s.target == s.pass && s.target != s.internal)
      && (c.monitor && !c.mayRetarget ==> MountSafe(s))
    decreases |steps|
  {
    if steps != [] {
      var before := Execute(c, p, steps[..|steps| - 1]);
      var step := steps[|steps| - 1];
      ReachableInv(c, p, steps[..|steps| - 1]);
      StepKeepsAccounts(before, step, c);
      StepKeepsDiscardOrder(before, step, c);
      if c.monitor && !c.mayRetarget {
        if step.Retarget? && RotationOver(before) {
          OverIsSafe(before, step.password);
        }
        StepKeepsMounts(before, step, c);
      }
    }
  }

  /** Once a rotation is over, any target is safe. */
  lemma OverIsSafe(s: System, t: Password)
    requires RotationOver(s) && MountsWork(s) && s.accounts != [] && !Rotating(s)
    ensures TargetSafe(s, t)
  {
    forall i | 0 <= i < |s.mounted| ensures s.mounted[i] == s.internal {
      assert Accepts(s.accounts[0], s.mounted[i]);
    }
  }

  /** The step at which mounted passwords that all work are lost: an ALTER while a pod has neither the new
      nor the present password of the account, a discard while a pod has another than the present one,
      or a mount while the login is rejected. */
  ghost predicate LosesMount(s: System, step: Step, c: Config) {
    match step
    case Alter =>
      && s.phase.Altering? && s.phase.host < |s.accounts| && (s.phase.host > 0 || Session(s, c))
      && exists i :: (0 <= i < |s.mounted| && s.mounted[i] != s.pass
           && s.mounted[i] != s.accounts[s.phase.host].primary)
    case Discard =>
      && s.phase.Discarding? && s.phase.host < |s.accounts| && (s.phase.host > 0 || Session(s, c))
      && exists i :: 0 <= i < |s.mounted| && s.mounted[i] != s.accounts[s.phase.host].primary
    case Mount(pod) => pod < |s.mounted| && !LoginWorks(s)
    case _ => false
  }

  lemma StepLosesMountExactlyWhen(s: System, step: Step, c: Config)
    requires MountsWork(s)
    ensures !MountsWork(Apply(s, step, c)) <==> LosesMount(s, step, c)
  {
    var s' := Apply(s, step, c);
    if LosesMount(s, step, c) {
      match step {
        case Alter =>
          var i :| (0 <= i < |s.mounted| && s.mounted[i] != s.pass
            && s.mounted[i] != s.accounts[s.phase.host].primary);
          assert !Accepts(s'.accounts[s.phase.host], s'.mounted[i]);
        case Discard =>
          var i :| 0 <= i < |s.mounted| && s.mounted[i] != s.accounts[s.phase.host].primary;
          assert !Accepts(s'.accounts[s.phase.host], s'.mounted[i]);
        case Mount(pod) =>
          var h :| 0 <= h < |s.accounts| && !Accepts(s.accounts[h], s.internal);
          assert !Accepts(s'.accounts[h], s'.mounted[pod]);
      }
    } else {
      forall h, i | 0 <= h < |s'.accounts| && 0 <= i < |s'.mounted| ensures Accepts(s'.accounts[h], s'.mounted[i]) {
        assert Accepts(s.accounts[h], s.mounted[i]);
      }
    }
  }

  /** The step at which a login that works is lost: an ALTER, or a discard, of an account whose password
      is no longer the internal one, or a patch to a password that some account does not have. */
  ghost predicate LosesLogin(s: System, step: Step, c: Config) {
    match step
    case Alter =>
      && s.phase.Altering? && s.phase.host < |s.accounts| && (s.phase.host > 0 || Session(s, c))
      && s.pass != s.internal && s.accounts[s.phase.host].primary != s.internal
    case Discard =>
      && s.phase.Discarding? && s.phase.host < |s.accounts| && (s.phase.host > 0 || Session(s, c))
      && s.accounts[s.phase.host].primary != s.internal
    case Patch => s.phase.Patching? && exists h :: 0 <= h < |s.accounts| && !Accepts(s.accounts[h], s.pass)
    case _ => false
  }

  lemma StepLosesLoginExactlyWhen(s: System, step: Step, c: Config)
    requires LoginWorks(s)
    ensures !LoginWorks(Apply(s, step, c)) <==> LosesLogin(s, step, c)
  {
    var s' := Apply(s, step, c);
    if step.Alter? && LosesLogin(s, step, c) {
      assert !Accepts(s'.accounts[s.phase.host], s'.internal);
    } else if step.Discard? && LosesLogin(s, step, c) {
      assert !Accepts(s'.accounts[s.phase.host], s'.internal);
    } else if step.Patch? && LosesLogin(s, step, c) {
      var h :| 0 <= h < |s.accounts| && !Accepts(s.accounts[h], s.pass);
      assert !Accepts(s'.accounts[h], s'.internal);
    }
  }

  lemma LoginAlwaysWorks(c: Config, p: Password, steps: seq<Step>)
    requires !c.mayInterrupt && c.hosts >= 1
    ensures LoginWorks(Execute(c, p, steps))
  {
    ReachableInv(c, p, steps);
  }

  lemma MountsAlwaysWork(c: Config, p: Password, steps: seq<Step>)
    requires !c.mayInterrupt && !c.mayRetarget && c.monitor && c.hosts >= 1
    ensures MountsWork(Execute(c, p, steps))
  {
    ReachableInv(c, p, steps);
  }

  /** Every change of target in the run is a safe one. */
  ghost predicate SafelyRetargeted(c: Config, p: Password, steps: seq<Step>) {
    if steps == [] then true
    else
      var front, step := steps[..|steps| - 1], steps[|steps| - 1];
      SafelyRetargeted(c, p, front) && (step.Retarget? ==> TargetSafe(Execute(c, p, front), step.password))
  }

  /** Over every uninterrupted run with safe changes of target, however early, what the monitor's pods
      have mounted works. */
  lemma {:induction false} SafelyRetargetedMountsWork(c: Config, p: Password, steps: seq<Step>)
    requires !c.mayInterrupt && c.monitor && c.hosts >= 1 && SafelyRetargeted(c, p, steps)
    ensures MountSafe(Execute(c, p, steps))
    decreases |steps|
  {
    if steps != [] {
      var front := steps[..|steps| - 1];
      SafelyRetargetedMountsWork(c, p, front);
      ReachableInv(c, p, front);
      StepKeepsMounts(Execute(c, p, front), steps[|steps| - 1], c);
    }
  }

  /** When the last host's old password is gone, so is every host's: with that row read first, a
      handler that finds nothing to do has left no old password behind. */
  lemma NothingLeftToDiscard(c: Config, p: Password, steps: seq<Step>)
    requires !c.mayInterrupt && c.hosts >= 1
    ensures var s := Execute(c, p, steps);
      s.phase.Idle? && s.target == s.internal && Apply(s, Check(c.hosts - 1), c) == s ==> RotationOver(s)
  {
    ReachableInv(c, p, steps);
  }

  lemma ExecuteAppend(c: Config, p: Password, steps: seq<Step>, step: Step)
    ensures Execute(c, p, steps + [step]) == Apply(Execute(c, p, steps), step, c)
  {
    assert (steps + [step])[..|steps|] == steps;
  }

  function Continue(s: System, steps: seq<Step>, c: Config): System {
    if steps == [] then s else Apply(Continue(s, steps[..|steps| - 1], c), steps[|steps| - 1], c)
  }

  lemma {:induction false} ExecuteThen(c: Config, p: Password, steps: seq<Step>, more: seq<Step>)
    ensures Execute(c, p, steps + more) == Continue(Execute(c, p, steps), more, c)
    decreases |more|
  {
    if more == [] {
      assert steps + more == steps;
    } else {
      var k := |more| - 1;
      assert (steps + more)[..|steps + more| - 1] == steps + more[..k];
      ExecuteThen(c, p, steps, more[..k]);
    }
  }

  lemma ContinueTwo(s: System, a: Step, b: Step, c: Config)
    ensures Continue(s, [a, b], c) == Apply(Apply(s, a, c), b, c)
  {
    assert [a, b][..1] == [a] && [a][..0] == [];
    assert Continue(s, [a], c) == Apply(Continue(s, [], c), a, c);
  }

  lemma ContinueThree(s: System, a: Step, b: Step, d: Step, c: Config)
    ensures Continue(s, [a, b, d], c) == Apply(Apply(Apply(s, a, c), b, c), d, c)
  {
    assert [a, b, d][..2] == [a, b];
    ContinueTwo(s, a, b, c);
  }

  function AfterFirstAlter(c: Config, p: Password, q: Password): System
    requires c.hosts >= 1
  {
    var s := Initial(c, p);
    s.(target := q, pass := q, accounts := s.accounts[0 := Account(q, Some(p))],
       phase := if c.hosts > 1 then Altering(1) else Patching)
  }

  /** A rotation from p to q up to its first ALTER. */
  lemma FirstAlter(c: Config, p: Password, q: Password)
    requires c.hosts >= 1 && p != q
    ensures exists steps :: Execute(c, p, steps) == AfterFirstAlter(c, p, q)
  {
    var steps := [Retarget(q), Check(0), Alter];
    assert [] + steps == steps;
    ExecuteThen(c, p, [], steps);
    BeginsAltering(c, p, q);
    assert Execute(c, p, steps) == AfterFirstAlter(c, p, q);
  }

  lemma BeginsAltering(c: Config, p: Password, q: Password)
    requires c.hosts >= 1 && p != q
    ensures Continue(Initial(c, p), [Retarget(q), Check(0), Alter], c) == AfterFirstAlter(c, p, q)
  {
    var s := Initial(c, p);
    ContinueThree(s, Retarget(q), Check(0), Alter, c);
    assert RotationOver(s) && LoginWorks(s);
    var retargeted := s.(target := q);
    assert Apply(s, Retarget(q), c) == retargeted && LoginWorks(retargeted);
    var checked := retargeted.(pass := q, phase := Altering(0));
    assert Apply(retargeted, Check(0), c) == checked && LoginWorks(checked);
    assert s.accounts[0] == Account(p, None);
  }

  /** Stopped after an ALTER, the handler alters again and the retained password is lost. */
  lemma InterruptionLosesLogin(c: Config, p: Password, q: Password)
    requires c.mayInterrupt && c.hosts >= 1 && p != q
    ensures exists steps :: (var s := Execute(c, p, steps);
      !LoginWorks(s) && (c.pods >= 1 ==> !MountsWork(s)))
  {
    FirstAlter(c, p, q);
    var steps :| Execute(c, p, steps) == AfterFirstAlter(c, p, q);
    ExecuteThen(c, p, steps, [Stop, Check(0), Alter]);
    AltersAgain(c, p, q);
    var s := Execute(c, p, steps + [Stop, Check(0), Alter]);
    assert !Accepts(s.accounts[0], s.internal);
    assert c.pods >= 1 ==> s.mounted[0] == p && !Accepts(s.accounts[0], s.mounted[0]);
  }

  lemma AltersAgain(c: Config, p: Password, q: Password)
    requires c.mayInterrupt && c.hosts >= 1 && p != q
    ensures var s := AfterFirstAlter(c, p, q); var t := Continue(s, [Stop, Check(0), Alter], c);
      t.accounts == s.accounts[0 := Account(q, Some(q))] && t.internal == p && t.mounted == s.mounted
  {
    var s := AfterFirstAlter(c, p, q);
    ContinueThree(s, Stop, Check(0), Alter, c);
    assert forall h :: 0 <= h < |s.accounts| ==> Accepts(s.accounts[h], p);
  }

  /** A second change of target while a pod still has the first password mounted. */
  lemma RetargetLosesMount(c: Config, p: Password, q: Password)
    requires c.mayRetarget && c.monitor && c.hosts == 1 && c.pods >= 1 && p != q
    ensures exists steps :: !MountsWork(Execute(c, p, steps))
  {
    FirstAlter(c, p, q);
    var steps :| Execute(c, p, steps) == AfterFirstAlter(c, p, q);
    var r := p + q + 1;
    var t := Continue(AfterFirstAlter(c, p, q), [Patch, Scan], c);
    ExecuteThen(c, p, steps, [Patch, Scan]);
    ExecuteThen(c, p, steps + [Patch, Scan], [Retarget(r), Check(0), Alter]);
    PatchAndScan(c, p, q);
    RetargetAndAlter(t, c, r);
    var s := Execute(c, p, steps + [Patch, Scan] + [Retarget(r), Check(0), Alter]);
    assert s.accounts[0] == Account(r, Some(q)) && s.mounted[0] == p;
  }

  lemma PatchAndScan(c: Config, p: Password, q: Password)
    requires c.monitor && c.hosts == 1 && c.pods >= 1 && p != q
    ensures var s := AfterFirstAlter(c, p, q);
      Continue(s, [Patch, Scan], c) == s.(internal := q, phase := Idle)
  {
    ContinueTwo(AfterFirstAlter(c, p, q), Patch, Scan, c);
  }

  lemma RetargetAndAlter(s: System, c: Config, r: Password)
    requires c.mayRetarget && |s.accounts| == 1 && s.phase.Idle?
    requires s.internal != r && s.accounts[0].primary == s.internal
    ensures var t := Continue(s, [Retarget(r), Check(0), Alter], c);
      t.accounts == [Account(r, Some(s.internal))] && t.mounted == s.mounted
  {
    ContinueThree(s, Retarget(r), Check(0), Alter, c);
    assert LoginWorks(s);
  }

  /** Main theorem: over all runs the operator's login works exactly when the handler is not
      interrupted between ALTER and patch. Changing the target early does no harm to it. */
  lemma LoginExactlyWhen(c: Config, p: Password)
    requires c.hosts >= 1
    ensures (forall steps :: LoginWorks(Execute(c, p, steps))) <==> !c.mayInterrupt
  {
    if c.mayInterrupt {
      InterruptionLosesLogin(c, p, p + 1);
    } else {
      forall steps ensures LoginWorks(Execute(c, p, steps)) {
        LoginAlwaysWorks(c, p, steps);
      }
    }
  }
}
