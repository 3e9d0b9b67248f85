/**
  When the workers of ThreadPool wait: what one look at the queue decides, which steps put a
  worker to sleep or wake it, and how a pool that is left alone comes to rest.
 */
module ThreadPoolRest {
  import opened ThreadPool

  /**
    With the mutex a worker waits if there is nothing to do, exits if moreover the pool is shut
    down, and otherwise leaves with the job at the front; nothing else changes but the mutex.
   */
  lemma DecisionExactly(n: nat, es: seq<Event>, i: nat)
    requires Run(Init(n), es) && Enabled(After(Init(n), es), WorkerDecide(i))
    ensures var s := After(Init(n), es);
            var t := Next(s, WorkerDecide(i));
            && |t.phase| == |s.phase| && i < |t.phase|
            && (t.phase[i] == Waiting <==> s.jobs == [] && !s.shutdown)
            && (t.phase[i] == Exited <==> s.jobs == [] && s.shutdown)
            && (if s.jobs == [] then t.jobs == [] && t.taken == s.taken
                else t.phase[i] == Running(s.jobs[0]) && [s.jobs[0]] + t.jobs == s.jobs &&
                     t.taken == s.taken + [s.jobs[0]])
            && t == s.(phase := s.phase[i := t.phase[i]], owner := Free, jobs := t.jobs, taken := t.taken)
  {
  }

  /** No other step puts a worker to sleep, and only a notification or a spurious wakeup wakes it. */
  lemma SleepExactly(s: State, e: Event, i: nat)
    requires MutexInv(s) && Enabled(s, e) && i < |s.phase|
    ensures |Next(s, e).phase| == |s.phase|
    ensures var before, after := s.phase[i], Next(s, e).phase[i];
            if before.Waiting?
            then after == if e == SpuriousWakeup(i) || e == EnqueueNotify(i) || e == NotifyAll then Woken else Waiting
            else after.Waiting? <==> e == WorkerDecide(i) && s.jobs == [] && !s.shutdown
  {
  }

  /** At any time any waiting worker may wake up, and any of them may be the one that is notified. */
  lemma AnyWaiterMayWake(s: State, i: nat)
    requires i < |s.phase| && s.phase[i].Waiting?
    ensures Enabled(s, SpuriousWakeup(i)) && Next(s, SpuriousWakeup(i)) == s.(phase := s.phase[i := Woken])
    ensures s.owner.Enqueuer? && s.owner.stage.Pushed? ==>
              Enabled(s, EnqueueNotify(i)) && Next(s, EnqueueNotify(i)).phase == s.phase[i := Woken]
  {
  }

  // ------------------------------------------------------------------ left alone

  /** No new call of `enqueue` or `shutdown`, and no spurious wakeup. */
  predicate Quiet(es: seq<Event>) {
    forall e :: e in es ==> !e.EnqueueLock? && !e.StopLock? && !e.SpuriousWakeup?
  }

  const QUIET_STEPS: Phase -> nat :=
    (p: Phase) => if p.Exited? || p.Waiting? then 0 else if p.Running? then 3 else 2

  // What the holder of the mutex still adds, a job and a wakeup included.
  function OwnerSteps(o: Owner): nat {
    match o
    case Worker(_) => 0
    case Free => 1
    case Stopper => 2
    case Enqueuer(_, stage) => if stage.Locked? then 9 else if stage.Pushed? then 5 else 2
  }

  function QuietMeasure(s: State): nat {
    3 * |s.jobs| + Sum(s.phase, QUIET_STEPS) + OwnerSteps(s.owner) + if s.announced then 0 else 2 * |s.phase| + 1
  }

  lemma {:induction false} SumWakeAll(ps: seq<Phase>)
    ensures Sum(WakeAll(ps), QUIET_STEPS) <= Sum(ps, QUIET_STEPS) + 2 * |ps|
  {
    if ps != [] {
      assert WakeAll(ps)[1..] == WakeAll(ps[1..]);
      SumWakeAll(ps[1..]);
    }
  }

  lemma QuietStep(s: State, e: Event)
    requires MutexInv(s) && GetsOn(s, e)
    ensures QuietMeasure(Next(s, e)) < QuietMeasure(s)
  {
    match e {
      case WorkerDecide(i) => SumUpdate(s.phase, i, Next(s, e).phase[i], QUIET_STEPS);
      case JobReturns(i) => SumUpdate(s.phase, i, Pending, QUIET_STEPS);
      case EnqueueNotify(w) => if SomeWaiting(s) { SumUpdate(s.phase, w, Woken, QUIET_STEPS); }
      case NotifyAll => SumWakeAll(s.phase);
      case _ =>
    }
  }

  lemma {:induction false} QuietRunIsShort(s: State, es: seq<Event>)
    requires MutexInv(s) && Run(s, es) && Quiet(es)
    ensures |es| <= QuietMeasure(s)
    decreases |es|
  {
    if es != [] {
      assert es[0] in es && forall e :: e in es[1..] ==> e in es;
      QuietStep(s, es[0]);
      MutexStep(s, es[0]);
      QuietRunIsShort(Next(s, es[0]), es[1..]);
    }
  }

  lemma {:induction false} ExitsAreShutDown(s: State, es: seq<Event>)
    requires Run(s, es) && (Exited in s.phase ==> s.shutdown)
    ensures Exited in After(s, es).phase ==> After(s, es).shutdown
    decreases |es|
  {
    if es != [] {
      var t := Next(s, es[0]);
      if Exited in t.phase && Exited !in s.phase {
        var k :| 0 <= k < |t.phase| && t.phase[k] == Exited;
        assert s.phase[k] != Exited;
      }
      ExitsAreShutDown(t, es[1..]);
    }
  }

  predicate AllWaiting(s: State) {
    forall i :: 0 <= i < |s.phase| ==> s.phase[i].Waiting?
  }

  predicate AtRest(s: State) {
    s.owner.Free? && if s.shutdown then s.announced && AllExited(s) else AllWaiting(s)
  }

  lemma RestExactly(n: nat, es: seq<Event>)
    requires n >= 1 && Run(Init(n), es)
    ensures var s := After(Init(n), es); (forall e :: !GetsOn(s, e)) <==> AtRest(s)
  {
    var s := After(Init(n), es);
    InvReachable(n, es);
    ExitsAreShutDown(Init(n), es);
    if forall e :: !GetsOn(s, e) {
      if !s.owner.Free? {
        OwnerGetsOn(s);
      }
      assert !GetsOn(s, NotifyAll);
      forall i | 0 <= i < |s.phase| ensures s.phase[i].Waiting? || s.phase[i].Exited? {
        assert !GetsOn(s, WorkerLock(i)) && !GetsOn(s, JobReturns(i));
      }
      assert forall i :: 0 <= i < |s.phase| ==> s.phase[i] in s.phase;
    }
  }

  lemma RestIsDone(n: nat, es: seq<Event>)
    requires n >= 1 && Run(Init(n), es) && AtRest(After(Init(n), es)) && !After(Init(n), es).shutdown
    ensures var s := After(Init(n), es);
            s.jobs == [] && s.taken == s.submitted && s.returned == multiset(s.submitted)
  {
    var s := After(Init(n), es);
    NoLostWakeup(n, es);
    InvReachable(n, es);
    PhasesKept(Init(n), es);
    assert s.phase[0] in s.phase;
    InHandOfIdle(s.phase);
    assert s.taken + [] == s.taken;
  }

  /**
    A pool that is left alone comes to rest: the steps that it can still take are bounded, whatever
    their order. It rests exactly when the mutex is free and every worker waits, or every worker has
    exited if the pool was shut down; and in a pool that was not, all jobs have then been run.
   */
  lemma ComesToRest(n: nat, before: seq<Event>, es: seq<Event>)
    requires n >= 1 && Run(Init(n), before) && Run(After(Init(n), before), es) && Quiet(es)
    ensures var s := After(Init(n), before);
            var t := After(s, es);
            && |es| <= QuietMeasure(s)
            && ((forall e :: !GetsOn(t, e)) <==> AtRest(t))
            && (AtRest(t) && !t.shutdown ==> t.jobs == [] && t.returned == multiset(t.submitted))
  {
    InvReachable(n, before);
    QuietRunIsShort(After(Init(n), before), es);
    RunOn(Init(n), before, es);
    RestExactly(n, before + es);
    if AtRest(After(Init(n), before + es)) && !After(Init(n), before + es).shutdown {
      RestIsDone(n, before + es);
    }
  }

  // ------------------------------------------------------------------ a job next to a sleeper

  /** The state that `NoLostWakeup` is about comes up: a job in the queue, and its worker asleep. */
  lemma JobWhileAsleep(job: Job)
    ensures var es := [WorkerLock(0), WorkerDecide(0), EnqueueLock(job), EnqueuePush];
            && Run(Init(1), es)
            && var s := After(Init(1), es);
               s.jobs == [job] && s.phase == [Waiting] && !s.shutdown && s.owner == Enqueuer(job, Pushed)
  {
    var s1 := Next(Init(1), WorkerLock(0));
    var s2 := Next(s1, WorkerDecide(0));
    var s3 := Next(s2, EnqueueLock(job));
    var s4 := Next(s3, EnqueuePush);
    assert s4.phase == [Waiting];
    assert Run(s4, []) && After(s4, []) == s4;
    Prepend(s3, EnqueuePush, []);
    Prepend(s2, EnqueueLock(job), [EnqueuePush] + []);
    Prepend(s1, WorkerDecide(0), [EnqueueLock(job)] + ([EnqueuePush] + []));
    var es := [WorkerLock(0)] + ([WorkerDecide(0)] + ([EnqueueLock(job)] + ([EnqueuePush] + [])));
    Prepend(Init(1), WorkerLock(0), es[1..]);
    assert es == [WorkerLock(0), WorkerDecide(0), EnqueueLock(job), EnqueuePush];
  }
}
