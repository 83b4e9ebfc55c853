/** The bounded pool that runs backup deletion finalizers: a channel of tokens and a map of the
    backups being worked on, shared by any number of reconciles and workers. */
module FinalizerPool {
  type Id = nat
  type Name = string

  /** A call of tryRunBackupFinalizers that got a token, and the worker it may become. */
  datatype Phase =
    | Deciding  // holds a token, about to LoadOrStore the name
    | Surplus   // the name was taken; about to give the token back
    | Working   // running the finalizers
    | Draining  // the name is deleted from the map; about to give the token back

  datatype Thread = Thread(name: Name, phase: Phase)

  datatype Pool = Pool(tokens: nat, inProgress: set<Name>, threads: map<Id, Thread>)

  datatype Step = Try(id: Id, name: Name) | Decide(id: Id) | GiveBack(id: Id) | Finish(id: Id) | Drain(id: Id)

  const EMPTY := Pool(0, {}, map[])

  /** One atomic step. A receive from an empty channel blocks, that is, changes nothing. */
  function Apply(p: Pool, step: Step, limit: nat): Pool {
    var id := step.id;
    if step.Try? then
      if id in p.threads || p.tokens >= limit then p  // the default case: all workers are busy
      else p.(tokens := p.tokens + 1, threads := p.threads[id := Thread(step.name, Deciding)])
    else if id !in p.threads then p
    else
      var t := p.threads[id];
      match step
      case Try(_, _) => p
      case Decide(_) =>
        if !t.phase.Deciding? then p
        else if t.name in p.inProgress then p.(threads := p.threads[id := t.(phase := Surplus)])
        else p.(inProgress := p.inProgress + {t.name}, threads := p.threads[id := t.(phase := Working)])
      case GiveBack(_) =>
        if t.phase.Surplus? && p.tokens > 0 then p.(tokens := p.tokens - 1, threads := p.threads - {id}) else p
      case Finish(_) =>
        if t.phase.Working? then
          p.(inProgress := p.inProgress - {t.name}, threads := p.threads[id := t.(phase := Draining)])
        else p
      case Drain(_) =>
        if t.phase.Draining? && p.tokens > 0 then p.(tokens := p.tokens - 1, threads := p.threads - {id}) else p
  }

  function Execute(steps: seq<Step>, limit: nat): Pool {
    if steps == [] then EMPTY else Apply(Execute(steps[..|steps| - 1], limit), steps[|steps| - 1], limit)
  }

  predicate WorksOn(p: Pool, id: Id, name: Name) {
    id in p.threads && p.threads[id] == Thread(name, Working)
  }

  /** Tokens are exactly the threads between taking one and giving it back; the map holds exactly
      the names in work; no name is in work twice. */
  ghost predicate Inv(p: Pool, limit: nat) {
    && p.tokens == |p.threads.Keys| <= limit
    && (forall id, name :: WorksOn(p, id, name) ==> name in p.inProgress)
    && (forall name :: name in p.inProgress ==> exists id :: WorksOn(p, id, name))
    && (forall id, id', name :: WorksOn(p, id, name) && WorksOn(p, id', name) ==> id == id')
  }

  lemma StepKeepsTokens(p: Pool, step: Step, limit: nat)
    requires Inv(p, limit)
    ensures var p' := Apply(p, step, limit); p'.tokens == |p'.threads.Keys| <= limit
  {
    var p' := Apply(p, step, limit);
    if step.id in p.threads {
      assert p'.threads.Keys == p.threads.Keys || p'.threads.Keys == p.threads.Keys - {step.id};
    } else if p' != p {
      assert p'.threads.Keys == p.threads.Keys + {step.id};
    }
  }

  lemma StepKeepsNames(p: Pool, step: Step, limit: nat)
    requires Inv(p, limit)
    ensures var p' := Apply(p, step, limit);
      && (forall id, name :: WorksOn(p', id, name) ==> name in p'.inProgress)
      && (forall name :: name in p'.inProgress ==> exists id :: WorksOn(p', id, name))
      && (forall id, id', name :: WorksOn(p', id, name) && WorksOn(p', id', name) ==> id == id')
  {
    var p' := Apply(p, step, limit);
    forall id, name | id != step.id ensures WorksOn(p', id, name) <==> WorksOn(p, id, name) {
    }
    if step.id in p.threads {
      var t := p.threads[step.id];
      assert t.phase.Working? ==> WorksOn(p, step.id, t.name);
      assert p'.inProgress != p.inProgress && step.Decide? ==> WorksOn(p', step.id, t.name);
    }
    forall name | name in p'.inProgress ensures exists id :: WorksOn(p', id, name) {
      if name in p.inProgress {
        var id :| WorksOn(p, id, name);
        assert WorksOn(p', id, name);
      } else {
        assert WorksOn(p', step.id, name);
      }
    }
  }

  lemma {:induction false} ReachableInv(steps: seq<Step>, limit: nat)
    ensures Inv(Execute(steps, limit), limit)
  {
    if steps != [] {
      ReachableInv(steps[..|steps| - 1], limit);
      StepKeepsTokens(Execute(steps[..|steps| - 1], limit), steps[|steps| - 1], limit);
      StepKeepsNames(Execute(steps[..|steps| - 1], limit), steps[|steps| - 1], limit);
    }
  }

  function Workers(p: Pool): set<Id> {
    set id | id in p.threads && (p.threads[id].phase.Working? || p.threads[id].phase.Draining?)
  }

  /** Main theorem, over any number of concurrent deletions: workers never exceed the limit, one
      worker per backup name, and a pool without threads has all its tokens back. */
  lemma PoolIsSafe(steps: seq<Step>, limit: nat)
    ensures var p := Execute(steps, limit);
      && p.tokens == |p.threads.Keys| && |Workers(p)| <= limit
      && (forall id, id', name :: WorksOn(p, id, name) && WorksOn(p, id', name) ==> id == id')
      && (p.threads == map[] ==> p.tokens == 0 && p.inProgress == {})
  {
    ReachableInv(steps, limit);
    var p := Execute(steps, limit);
    SubsetSmaller(Workers(p), p.threads.Keys);
  }

  lemma {:induction false} SubsetSmaller(a: set<Id>, b: set<Id>)
    requires a <= b
    ensures |a| <= |b|
  {
    if x :| x in a {
      SubsetSmaller(a - {x}, b - {x});
    }
  }

  /** Giving a token back never blocks, so the thread that holds one can always let it go. */
  lemma TokensComeBack(steps: seq<Step>, limit: nat, id: Id)
    requires id in Execute(steps, limit).threads
    ensures var p := Execute(steps, limit); var back := LetGo(p, id, limit);
      id !in back.threads && back.tokens == p.tokens - 1 && forall i :: i in p.threads && i != id ==>
        i in back.threads && back.threads[i] == p.threads[i]
  {
    ReachableInv(steps, limit);
    var p := Execute(steps, limit);
    assert p.threads.Keys != {};
    Decides(p, id, limit);
    LetsGo(Apply(p, Decide(id), limit), id, limit);
  }

  /** The rest of a thread's steps, run to the end. */
  function LetGo(p: Pool, id: Id, limit: nat): Pool {
    Apply(Apply(Apply(Apply(p, Decide(id), limit), GiveBack(id), limit), Finish(id), limit), Drain(id), limit)
  }

  lemma Decides(p: Pool, id: Id, limit: nat)
    requires id in p.threads
    ensures var q := Apply(p, Decide(id), limit);
      && q.tokens == p.tokens && q.threads.Keys == p.threads.Keys && !q.threads[id].phase.Deciding?
      && forall i :: i in p.threads && i != id ==> q.threads[i] == p.threads[i]
  {
  }

  lemma LetsGo(p: Pool, id: Id, limit: nat)
    requires id in p.threads && !p.threads[id].phase.Deciding? && p.tokens > 0
    ensures var back := Apply(Apply(Apply(p, GiveBack(id), limit), Finish(id), limit), Drain(id), limit);
      && back.threads == p.threads - {id} && back.tokens == p.tokens - 1
  {
    var q := Apply(p, GiveBack(id), limit);
    if p.threads[id].phase.Surplus? {
      assert id !in q.threads && Apply(q, Finish(id), limit) == q;
    } else {
      assert q == p;
      var done := Apply(p, Finish(id), limit);
      assert done.threads[id].phase.Draining? && done.tokens == p.tokens;
      assert done.threads - {id} == p.threads - {id};
    }
  }
}
