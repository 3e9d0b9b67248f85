/**
  The thread pool of cpp-httplib (httplib.h) as a state machine over its atomic steps: one
  mutex, one condition variable, n workers and any number of callers of `enqueue`.

  A worker that called `cond_.wait` is `Waiting` until it is notified or wakes spuriously;
  then it is `Woken` and must take the mutex again before it looks at the predicate.
 */
module ThreadPool {

  type Job = nat

  datatype Phase = Pending | Waiting | Woken | Running(job: Job) | Exited

  datatype EnqueueStage = Locked | Pushed | Notified

  /** Who holds the mutex, and how far the holder has come. */
  datatype Owner =
    | Free
    | Worker(i: nat)
    | Enqueuer(job: Job, stage: EnqueueStage)
    | Stopper

  // `submitted`, `taken` and `returned` record the history of the run.
  datatype State = State(
    jobs: seq<Job>, shutdown: bool, announced: bool, owner: Owner, phase: seq<Phase>,
    submitted: seq<Job>, taken: seq<Job>, returned: multiset<Job>)

  datatype Event =
    | EnqueueLock(job: Job)
    | EnqueuePush
    | EnqueueNotify(pick: nat)   // the waiter that notify_one chooses, if there is any
    | EnqueueUnlock
    | WorkerLock(i: nat)         // from the top of the loop, or on the way out of wait
    | WorkerDecide(i: nat)       // looks at the predicate: waits, exits or takes a job
    | SpuriousWakeup(i: nat)
    | JobReturns(i: nat)
    | StopLock
    | StopSet
    | NotifyAll

  predicate HeadsForLock(p: Phase) {
    p.Pending? || p.Woken?
  }

  predicate SomeWaiting(s: State) {
    Waiting in s.phase
  }

  predicate Enabled(s: State, e: Event) {
    match e
    case EnqueueLock(_) => s.owner.Free?
    case EnqueuePush => s.owner.Enqueuer? && s.owner.stage.Locked?
    case EnqueueNotify(w) =>
      s.owner.Enqueuer? && s.owner.stage.Pushed? && (SomeWaiting(s) ==> w < |s.phase| && s.phase[w].Waiting?)
    case EnqueueUnlock => s.owner.Enqueuer? && s.owner.stage.Notified?
    case WorkerLock(i) => s.owner.Free? && i < |s.phase| && HeadsForLock(s.phase[i])
    case WorkerDecide(i) => s.owner == Worker(i) && i < |s.phase|
    case SpuriousWakeup(i) => i < |s.phase| && s.phase[i].Waiting?
    case JobReturns(i) => i < |s.phase| && s.phase[i].Running?
    case StopLock => s.owner.Free? && !s.shutdown
    case StopSet => s.owner.Stopper?
    case NotifyAll => s.shutdown && !s.announced
  }

  function WakeAll(ps: seq<Phase>): (ws: seq<Phase>)
    ensures |ws| == |ps|
    ensures forall i :: 0 <= i < |ps| ==> ws[i] == if ps[i].Waiting? then Woken else ps[i]
  {
    if ps == [] then []
    else [if ps[0].Waiting? then Woken else ps[0]] + WakeAll(ps[1..])
  }

  function Decide(s: State, i: nat): State
    requires i < |s.phase|
  {
    if s.jobs == [] && !s.shutdown then s.(owner := Free, phase := s.phase[i := Waiting])
    else if s.jobs == [] then s.(owner := Free, phase := s.phase[i := Exited])
    else s.(owner := Free, phase := s.phase[i := Running(s.jobs[0])],
            jobs := s.jobs[1..], taken := s.taken + [s.jobs[0]])
  }

  function Next(s: State, e: Event): State
    requires Enabled(s, e)
  {
    match e
    case EnqueueLock(job) => s.(owner := Enqueuer(job, Locked))
    case EnqueuePush =>
      s.(jobs := s.jobs + [s.owner.job], submitted := s.submitted + [s.owner.job],
         owner := Enqueuer(s.owner.job, Pushed))
    case EnqueueNotify(w) =>
      s.(owner := Enqueuer(s.owner.job, Notified),
         phase := if SomeWaiting(s) then s.phase[w := Woken] else s.phase)
    case EnqueueUnlock => s.(owner := Free)
    case WorkerLock(i) => s.(owner := Worker(i))
    case WorkerDecide(i) => Decide(s, i)
    case SpuriousWakeup(i) => s.(phase := s.phase[i := Woken])
    case JobReturns(i) =>
      s.(phase := s.phase[i := Pending], returned := s.returned + multiset{s.phase[i].job})
    case StopLock => s.(owner := Stopper)
    case StopSet => s.(owner := Free, shutdown := true)
    case NotifyAll => s.(announced := true, phase := WakeAll(s.phase))
  }

  function Init(n: nat): State {
    State([], false, false, Free, seq(n, _ => Pending), [], [], multiset{})
  }

  predicate Run(s: State, es: seq<Event>)
    decreases |es|
  {
    es == [] || (Enabled(s, es[0]) && Run(Next(s, es[0]), es[1..]))
  }

  function After(s: State, es: seq<Event>): State
    requires Run(s, es)
    decreases |es|
  {
    if es == [] then s else After(Next(s, es[0]), es[1..])
  }

  // ------------------------------------------------------------------ counting over workers

  function Sum(ps: seq<Phase>, weight: Phase -> nat): nat {
    if ps == [] then 0 else weight(ps[0]) + Sum(ps[1..], weight)
  }

  lemma {:induction false} SumUpdate(ps: seq<Phase>, i: nat, p: Phase, weight: Phase -> nat)
    requires i < |ps|
    ensures Sum(ps[i := p], weight) + weight(ps[i]) == Sum(ps, weight) + weight(p)
  {
    if i == 0 {
      assert ps[i := p][1..] == ps[1..];
    } else {
      assert ps[i := p][1..] == ps[1..][i - 1 := p];
      SumUpdate(ps[1..], i - 1, p, weight);
    }
  }

  lemma {:induction false} SumPositive(ps: seq<Phase>, weight: Phase -> nat)
    requires Sum(ps, weight) > 0
    ensures exists i :: 0 <= i < |ps| && weight(ps[i]) > 0
  {
    if weight(ps[0]) == 0 {
      SumPositive(ps[1..], weight);
      var i :| 0 <= i < |ps[1..]| && weight(ps[1..][i]) > 0;
      assert ps[i + 1] == ps[1..][i];
    }
  }

  const AWAKE_WEIGHT: Phase -> nat := (p: Phase) => if HeadsForLock(p) then 1 else 0

  /** Workers awake and on their way to the mutex, its holder included. */
  function Awake(ps: seq<Phase>): nat {
    Sum(ps, AWAKE_WEIGHT)
  }

  function Held(p: Phase): multiset<Job> {
    if p.Running? then multiset{p.job} else multiset{}
  }

  /** The jobs being run right now. */
  function InHand(ps: seq<Phase>): multiset<Job> {
    if ps == [] then multiset{} else Held(ps[0]) + InHand(ps[1..])
  }

  lemma AddToBoth(a: multiset<Job>, b: multiset<Job>, c: multiset<Job>, x: multiset<Job>, y: multiset<Job>)
    requires b + x == c + y
    ensures (a + b) + x == (a + c) + y
  {
    assert (a + b) + x == a + (b + x);
    assert (a + c) + y == a + (c + y);
  }

  lemma {:induction false} InHandUpdate(ps: seq<Phase>, i: nat, p: Phase)
    requires i < |ps|
    ensures InHand(ps[i := p]) + Held(ps[i]) == InHand(ps) + Held(p)
  {
    var qs, rest := ps[i := p], ps[1..];
    if i == 0 {
      assert qs[1..] == rest;
      assert (Held(p) + InHand(rest)) + Held(ps[0]) == (Held(ps[0]) + InHand(rest)) + Held(p);
    } else {
      assert qs[1..] == rest[i - 1 := p] && qs[0] == ps[0] && rest[i - 1] == ps[i];
      InHandUpdate(rest, i - 1, p);
      AddToBoth(Held(ps[0]), InHand(rest[i - 1 := p]), InHand(rest), Held(ps[i]), Held(p));
    }
  }

  lemma {:induction false} InHandWakeAll(ps: seq<Phase>)
    ensures InHand(WakeAll(ps)) == InHand(ps)
  {
    if ps != [] {
      InHandWakeAll(ps[1..]);
      assert WakeAll(ps)[1..] == WakeAll(ps[1..]);
    }
  }

  lemma {:induction false} InHandOfIdle(ps: seq<Phase>)
    requires forall i :: 0 <= i < |ps| ==> !ps[i].Running?
    ensures InHand(ps) == multiset{}
  {
    if ps != [] {
      InHandOfIdle(ps[1..]);
    }
  }

  // ------------------------------------------------------------------ what every step keeps

  predicate MutexInv(s: State) {
    && (s.owner.Worker? ==> s.owner.i < |s.phase| && HeadsForLock(s.phase[s.owner.i]))
    && (s.owner.Stopper? ==> !s.shutdown)
    && (s.announced ==> s.shutdown && !SomeWaiting(s))
  }

  /** Jobs are taken in the order they were enqueued, each once, and none is dropped. */
  predicate FifoInv(s: State) {
    s.taken + s.jobs == s.submitted
  }

  /** Every job taken has returned or is in the hands of a worker. */
  predicate HistoryInv(s: State) {
    multiset(s.taken) == s.returned + InHand(s.phase)
  }

  /** While a worker sleeps un-notified, every queued job has a worker heading for the lock. */
  predicate WorkInv(s: State) {
    SomeWaiting(s) ==>
      |s.jobs| <= Awake(s.phase) + (if s.owner.Enqueuer? && s.owner.stage.Pushed? then 1 else 0)
  }

  predicate Inv(s: State) {
    MutexInv(s) && FifoInv(s) && HistoryInv(s) && WorkInv(s)
  }

  lemma MutexStep(s: State, e: Event)
    requires MutexInv(s) && Enabled(s, e)
    ensures MutexInv(Next(s, e))
  {
  }

  lemma FifoStep(s: State, e: Event)
    requires MutexInv(s) && FifoInv(s) && Enabled(s, e)
    ensures FifoInv(Next(s, e))
  {
    if e.EnqueuePush? {
      assert s.taken + (s.jobs + [s.owner.job]) == (s.taken + s.jobs) + [s.owner.job];
    } else if e.WorkerDecide? && s.jobs != [] {
      assert (s.taken + [s.jobs[0]]) + s.jobs[1..] == s.taken + s.jobs;
    }
  }

  lemma HandMoves(ps: seq<Phase>, i: nat, p: Phase, taken: multiset<Job>, returned: multiset<Job>)
    requires i < |ps| && taken == returned + InHand(ps)
    ensures taken + Held(p) == (returned + Held(ps[i])) + InHand(ps[i := p])
  {
    InHandUpdate(ps, i, p);
    assert taken + Held(p) == returned + (InHand(ps) + Held(p));
    assert (returned + Held(ps[i])) + InHand(ps[i := p]) == returned + (InHand(ps[i := p]) + Held(ps[i]));
  }

  lemma HandStays(ps: seq<Phase>, i: nat, p: Phase)
    requires i < |ps| && !ps[i].Running? && !p.Running?
    ensures InHand(ps[i := p]) == InHand(ps)
  {
    InHandUpdate(ps, i, p);
    assert InHand(ps[i := p]) + multiset{} == InHand(ps[i := p]);
    assert InHand(ps) + multiset{} == InHand(ps);
  }

  lemma HistoryDecide(s: State, i: nat)
    requires MutexInv(s) && HistoryInv(s) && Enabled(s, WorkerDecide(i))
    ensures HistoryInv(Decide(s, i))
  {
    if s.jobs == [] {
      HandStays(s.phase, i, Decide(s, i).phase[i]);
    } else {
      HandMoves(s.phase, i, Running(s.jobs[0]), multiset(s.taken), s.returned);
      assert s.returned + multiset{} == s.returned;
      assert multiset(s.taken + [s.jobs[0]]) == multiset(s.taken) + multiset{s.jobs[0]};
    }
  }

  lemma HistoryStep(s: State, e: Event)
    requires MutexInv(s) && HistoryInv(s) && Enabled(s, e)
    ensures HistoryInv(Next(s, e))
  {
    match e {
      case WorkerDecide(i) => HistoryDecide(s, i);
      case EnqueueNotify(w) =>
        if SomeWaiting(s) { HandStays(s.phase, w, Woken); }
      case SpuriousWakeup(i) => HandStays(s.phase, i, Woken);
      case JobReturns(i) =>
        HandMoves(s.phase, i, Pending, multiset(s.taken), s.returned);
        assert multiset(s.taken) + multiset{} == multiset(s.taken);
      case NotifyAll => InHandWakeAll(s.phase);
      case _ =>
    }
  }

  lemma WorkDecide(s: State, i: nat)
    requires MutexInv(s) && WorkInv(s) && Enabled(s, WorkerDecide(i))
    ensures WorkInv(Decide(s, i))
  {
    SumUpdate(s.phase, i, Decide(s, i).phase[i], AWAKE_WEIGHT);
    WaitingElsewhere(s.phase, i, Decide(s, i).phase[i]);
  }

  lemma WorkStep(s: State, e: Event)
    requires MutexInv(s) && WorkInv(s) && Enabled(s, e)
    ensures WorkInv(Next(s, e))
  {
    match e {
      case EnqueueNotify(w) => if SomeWaiting(s) { SumUpdate(s.phase, w, Woken, AWAKE_WEIGHT); }
      case WorkerDecide(i) => WorkDecide(s, i);
      case SpuriousWakeup(i) =>
        SumUpdate(s.phase, i, Woken, AWAKE_WEIGHT);
        WaitingElsewhere(s.phase, i, Woken);
      case JobReturns(i) =>
        SumUpdate(s.phase, i, Pending, AWAKE_WEIGHT);
        WaitingElsewhere(s.phase, i, Pending);
      case _ =>
    }
  }

  lemma WaitingElsewhere(ps: seq<Phase>, i: nat, p: Phase)
    requires i < |ps|
    ensures Waiting in ps[i := p] && !p.Waiting? ==> Waiting in ps
  {
    if Waiting in ps[i := p] && !p.Waiting? {
      var k :| 0 <= k < |ps| && ps[i := p][k] == Waiting;
      assert ps[k] == Waiting;
    }
  }

  lemma InvStep(s: State, e: Event)
    requires Inv(s) && Enabled(s, e)
    ensures Inv(Next(s, e))
  {
    MutexStep(s, e);
    FifoStep(s, e);
    HistoryStep(s, e);
    WorkStep(s, e);
  }

  /** Every state of every interleaving keeps the invariants. */
  lemma {:induction false} InvAlong(s: State, es: seq<Event>)
    requires Inv(s) && Run(s, es)
    ensures Inv(After(s, es))
    decreases |es|
  {
    if es != [] {
      InvStep(s, es[0]);
      InvAlong(Next(s, es[0]), es[1..]);
    }
  }

  lemma InvReachable(n: nat, es: seq<Event>)
    requires Run(Init(n), es)
    ensures Inv(After(Init(n), es))
  {
    InHandOfIdle(Init(n).phase);
    InvAlong(Init(n), es);
  }

  /** No wakeup is lost: with the mutex free, a queued job next to a sleeping worker has a taker. */
  lemma NoLostWakeup(n: nat, es: seq<Event>)
    requires Run(Init(n), es)
    ensures var s := After(Init(n), es);
            s.owner.Free? && s.jobs != [] && SomeWaiting(s) ==>
              |s.jobs| <= Awake(s.phase) && exists i :: Enabled(s, WorkerLock(i))
  {
    InvReachable(n, es);
    var s := After(Init(n), es);
    if s.owner.Free? && s.jobs != [] && SomeWaiting(s) {
      SumPositive(s.phase, AWAKE_WEIGHT);
      var i :| 0 <= i < |s.phase| && AWAKE_WEIGHT(s.phase[i]) > 0;
      assert Enabled(s, WorkerLock(i));
    }
  }

  // A step that lets the pool get on: no new call of `enqueue` or `shutdown`, and no spurious wakeup.
  predicate GetsOn(s: State, e: Event) {
    Enabled(s, e) && !e.EnqueueLock? && !e.StopLock? && !e.SpuriousWakeup?
  }

  lemma OwnerGetsOn(s: State)
    requires MutexInv(s) && !s.owner.Free?
    ensures exists e :: GetsOn(s, e)
  {
    match s.owner {
      case Worker(i) => assert GetsOn(s, WorkerDecide(i));
      case Enqueuer(job, stage) =>
        if stage.Locked? {
          assert GetsOn(s, EnqueuePush);
        } else if stage.Notified? {
          assert GetsOn(s, EnqueueUnlock);
        } else if SomeWaiting(s) {
          var w: nat :| w < |s.phase| && s.phase[w] == Waiting;
          assert GetsOn(s, EnqueueNotify(w));
        } else {
          assert GetsOn(s, EnqueueNotify(0));
        }
      case Stopper => assert GetsOn(s, StopSet);
    }
  }

  /** No state is stuck with jobs in the queue: until all workers have exited, some step gets on with them. */
  lemma JobsNeverStuck(n: nat, es: seq<Event>)
    requires Run(Init(n), es)
    ensures var s := After(Init(n), es);
            s.jobs != [] && !AllExited(s) ==> exists e :: GetsOn(s, e)
  {
    var s := After(Init(n), es);
    InvReachable(n, es);
    if s.jobs != [] && !AllExited(s) {
      if !s.owner.Free? {
        OwnerGetsOn(s);
      } else if SomeWaiting(s) {
        NoLostWakeup(n, es);
        var i :| Enabled(s, WorkerLock(i));
        assert GetsOn(s, WorkerLock(i));
      } else {
        var i: nat :| i < |s.phase| && !s.phase[i].Exited?;
        assert s.phase[i] in s.phase;
        assert GetsOn(s, if s.phase[i].Running? then JobReturns(i) else WorkerLock(i));
      }
    }
  }

  // ------------------------------------------------------------------ shutting down

  /** No call of `enqueue` starts once `shutdown_` is set. */
  predicate Disciplined(s: State, es: seq<Event>)
    requires Run(s, es)
    decreases |es|
  {
    es == [] || ((es[0].EnqueueLock? ==> !s.shutdown) && Disciplined(Next(s, es[0]), es[1..]))
  }

  predicate DrainInv(s: State) {
    && (s.owner.Enqueuer? ==> !s.shutdown)
    && (Exited in s.phase ==> s.shutdown && s.jobs == [])
  }

  lemma DrainStep(s: State, e: Event)
    requires MutexInv(s) && DrainInv(s) && Enabled(s, e) && (e.EnqueueLock? ==> !s.shutdown)
    ensures DrainInv(Next(s, e))
  {
    var s' := Next(s, e);
    if Exited in s'.phase && Exited !in s.phase {
      var k :| 0 <= k < |s'.phase| && s'.phase[k] == Exited;
      assert s.phase[k] != Exited;
    }
  }

  lemma {:induction false} DrainAlong(s: State, es: seq<Event>)
    requires MutexInv(s) && DrainInv(s) && Run(s, es) && Disciplined(s, es)
    ensures DrainInv(After(s, es))
    decreases |es|
  {
    if es != [] {
      MutexStep(s, es[0]);
      DrainStep(s, es[0]);
      DrainAlong(Next(s, es[0]), es[1..]);
    }
  }

  const STEPS_LEFT: Phase -> nat :=
    (p: Phase) => if p.Exited? then 0 else if p.Running? then 3 else 2

  /** Bounds the steps left once the shutdown has been announced. */
  function Measure(s: State): nat {
    3 * |s.jobs| + Sum(s.phase, STEPS_LEFT) + (if s.owner.Worker? then 0 else 1)
  }

  /** After `notify_all` no worker waits again, and every step lowers the measure. */
  lemma AnnouncedStep(s: State, e: Event)
    requires MutexInv(s) && DrainInv(s) && s.announced && Enabled(s, e) && !e.EnqueueLock?
    ensures Next(s, e).announced && !SomeWaiting(Next(s, e))
    ensures Measure(Next(s, e)) < Measure(s)
  {
    MutexStep(s, e);
    match e {
      case WorkerDecide(i) => SumUpdate(s.phase, i, Decide(s, i).phase[i], STEPS_LEFT);
      case JobReturns(i) => SumUpdate(s.phase, i, Pending, STEPS_LEFT);
      case SpuriousWakeup(i) => assert false;
      case _ =>
    }
  }

  predicate AllExited(s: State) {
    forall i :: 0 <= i < |s.phase| ==> s.phase[i].Exited?
  }

  /** A step of some worker is possible until all have exited. */
  function Choose(s: State): (e: Event)
    requires MutexInv(s) && DrainInv(s) && s.announced && !AllExited(s)
    ensures Enabled(s, e) && !e.EnqueueLock?
  {
    if s.owner.Worker? then WorkerDecide(s.owner.i)
    else
      var i := FirstAlive(s.phase);
      if s.phase[i].Running? then JobReturns(i) else assert s.phase[i] in s.phase; WorkerLock(i)
  }

  function FirstAlive(ps: seq<Phase>): (i: nat)
    requires exists i :: 0 <= i < |ps| && !ps[i].Exited?
    ensures i < |ps| && !ps[i].Exited?
  {
    if !ps[0].Exited? then 0
    else
      assert exists i :: 0 <= i < |ps[1..]| && !ps[1..][i].Exited? by {
        var k :| 0 <= k < |ps| && !ps[k].Exited?;
        assert !ps[1..][k - 1].Exited?;
      }
      FirstAlive(ps[1..]) + 1
  }

  /** Once all workers have exited, every enqueued job has been run to its return. */
  lemma JoinedMeansDone(s: State)
    requires Inv(s) && DrainInv(s) && s.phase != [] && AllExited(s)
    ensures s.jobs == [] && s.taken == s.submitted && s.returned == multiset(s.submitted)
  {
    assert s.phase[0] in s.phase;
    assert s.taken + [] == s.taken;
    InHandOfIdle(s.phase);
  }

  lemma {:induction false} AnnouncedRunIsShort(s: State, es: seq<Event>)
    requires MutexInv(s) && DrainInv(s) && s.announced && Run(s, es) && Disciplined(s, es)
    ensures |es| <= Measure(s) && After(s, es).announced && !SomeWaiting(After(s, es))
    decreases |es|
  {
    if es != [] {
      AnnouncedStep(s, es[0]);
      MutexStep(s, es[0]);
      DrainStep(s, es[0]);
      AnnouncedRunIsShort(Next(s, es[0]), es[1..]);
    }
  }

  lemma DrainsFrom(s: State, es: seq<Event>)
    requires Inv(s) && DrainInv(s) && s.phase != [] && s.announced && Run(s, es) && Disciplined(s, es)
    ensures |es| <= Measure(s) && !SomeWaiting(After(s, es))
    ensures AllExited(After(s, es)) || exists e :: Enabled(After(s, es), e) && !e.EnqueueLock?
    ensures AllExited(After(s, es)) ==>
              After(s, es).jobs == [] && After(s, es).returned == multiset(After(s, es).submitted)
  {
    AnnouncedRunIsShort(s, es);
    InvAlong(s, es);
    DrainAlong(s, es);
    PhasesKept(s, es);
    var t := After(s, es);
    if AllExited(t) {
      JoinedMeansDone(t);
    } else {
      assert Enabled(t, Choose(t));
    }
  }

  /**
    Shutdown drains and ends, whatever the schedule: after the announcement a run takes at
    most `Measure` more steps, it can only stop where all workers have exited, and then every
    job ever enqueued has been run.
   */
  lemma ShutdownDrains(n: nat, before: seq<Event>, es: seq<Event>)
    requires n >= 1 && Run(Init(n), before) && Disciplined(Init(n), before)
    requires After(Init(n), before).announced
    requires Run(After(Init(n), before), es) && Disciplined(After(Init(n), before), es)
    ensures var s := After(Init(n), before);
            var t := After(s, es);
            && |es| <= Measure(s) && !SomeWaiting(t)
            && (AllExited(t) || exists e :: Enabled(t, e) && !e.EnqueueLock?)
            && (AllExited(t) ==> t.jobs == [] && t.returned == multiset(t.submitted))
  {
    InvReachable(n, before);
    DrainAlong(Init(n), before);
    PhasesKept(Init(n), before);
    DrainsFrom(After(Init(n), before), es);
  }

  lemma {:induction false} PhasesKept(s: State, es: seq<Event>)
    requires Run(s, es)
    ensures |After(s, es).phase| == |s.phase|
    decreases |es|
  {
    if es != [] {
      PhasesKept(Next(s, es[0]), es[1..]);
    }
  }

  /** What is enqueued after the last worker has exited stays in the queue for ever. */
  lemma {:induction false} EnqueuedTooLate(s: State, es: seq<Event>)
    requires MutexInv(s) && AllExited(s) && Run(s, es)
    ensures AllExited(After(s, es)) && After(s, es).taken == s.taken
    ensures s.jobs <= After(s, es).jobs && |After(s, es).jobs| - |s.jobs| == |After(s, es).submitted| - |s.submitted|
    decreases |es|
  {
    if es != [] {
      MutexStep(s, es[0]);
      EnqueuedTooLate(Next(s, es[0]), es[1..]);
    }
  }

  lemma LastExit(s: State, i: nat)
    requires Inv(s) && Enabled(s, WorkerDecide(i)) && AllExited(Decide(s, i))
    ensures Inv(Decide(s, i)) && Decide(s, i).jobs == []
    ensures Decide(s, i).taken == s.submitted == Decide(s, i).submitted
  {
    InvStep(s, WorkerDecide(i));
    assert Decide(s, i).phase[i].Exited?;
    assert s.taken + [] == s.taken;
  }

  /**
    The jobs lost are exactly those enqueued after the last worker took its decision to exit,
    so none is lost if and only if none was enqueued from then on.
   */
  lemma LostExactly(s: State, i: nat, es: seq<Event>)
    requires Inv(s) && Enabled(s, WorkerDecide(i)) && AllExited(Decide(s, i))
    requires Run(Decide(s, i), es)
    ensures var t := After(Decide(s, i), es);
            && AllExited(t) && s.submitted <= t.submitted
            && t.jobs == t.submitted[|s.submitted|..] && t.returned == multiset(s.submitted)
  {
    var d := Decide(s, i);
    LastExit(s, i);
    EnqueuedTooLate(d, es);
    InvAlong(d, es);
    var t := After(d, es);
    ReturnedAtEnd(t);
    assert t.submitted == s.submitted + t.jobs;
  }

  lemma ReturnedAtEnd(t: State)
    requires Inv(t) && AllExited(t)
    ensures t.returned == multiset(t.taken)
  {
    InHandOfIdle(t.phase);
    assert t.returned + multiset{} == t.returned;
  }

  lemma Prepend(s: State, e: Event, es: seq<Event>)
    requires Enabled(s, e) && Run(Next(s, e), es)
    ensures Run(s, [e] + es) && After(s, [e] + es) == After(Next(s, e), es)
  {
    assert ([e] + es)[1..] == es;
  }

  /** Such a call is possible in every state where all workers have exited. */
  lemma LateEnqueue(s: State, job: Job)
    requires MutexInv(s) && AllExited(s) && s.owner.Free?
    ensures exists es :: Run(s, es) && AllExited(After(s, es)) && After(s, es).jobs == s.jobs + [job]
  {
    var s1 := Next(s, EnqueueLock(job));
    var s2 := Next(s1, EnqueuePush);
    assert !SomeWaiting(s2);
    var s3 := Next(s2, EnqueueNotify(0));
    var s4 := Next(s3, EnqueueUnlock);
    assert Run(s4, []) && After(s4, []) == s4;
    Prepend(s3, EnqueueUnlock, []);
    Prepend(s2, EnqueueNotify(0), [EnqueueUnlock] + []);
    Prepend(s1, EnqueuePush, [EnqueueNotify(0)] + ([EnqueueUnlock] + []));
    Prepend(s, EnqueueLock(job), [EnqueuePush] + ([EnqueueNotify(0)] + ([EnqueueUnlock] + [])));
  }

  // The only worker of a pool shuts down with it, before anything was enqueued.
  lemma OneWorkerExits()
    ensures exists es :: Run(Init(1), es) && AllExited(After(Init(1), es)) && After(Init(1), es).owner.Free?
                         && After(Init(1), es).jobs == []
  {
    var s0 := Init(1);
    var s1 := Next(s0, StopLock);
    var s2 := Next(s1, StopSet);
    var s3 := Next(s2, NotifyAll);
    var s4 := Next(s3, WorkerLock(0));
    var s5 := Next(s4, WorkerDecide(0));
    assert AllExited(s5) && Run(s5, []) && After(s5, []) == s5;
    Prepend(s4, WorkerDecide(0), []);
    var es4 := [WorkerDecide(0)] + [];
    Prepend(s3, WorkerLock(0), es4);
    var es3 := [WorkerLock(0)] + es4;
    Prepend(s2, NotifyAll, es3);
    var es2 := [NotifyAll] + es3;
    Prepend(s1, StopSet, es2);
    var es1 := [StopSet] + es2;
    Prepend(s0, StopLock, es1);
    var es0 := [StopLock] + es1;
    assert Run(s0, es0) && After(s0, es0) == s5;
  }

  lemma {:induction false} RunOn(s: State, es: seq<Event>, more: seq<Event>)
    requires Run(s, es) && Run(After(s, es), more)
    ensures Run(s, es + more) && After(s, es + more) == After(After(s, es), more)
    decreases |es|
  {
    if es == [] {
      assert es + more == more;
    } else {
      assert (es + more)[1..] == es[1..] + more;
      RunOn(Next(s, es[0]), es[1..], more);
    }
  }

  /** A job can be lost: a pool of one worker is shut down, and the job is enqueued after that. */
  lemma AJobIsLost(job: Job)
    ensures exists es :: Run(Init(1), es) && AllExited(After(Init(1), es)) && After(Init(1), es).jobs == [job]
  {
    OneWorkerExits();
    var es :| Run(Init(1), es) && AllExited(After(Init(1), es)) && After(Init(1), es).owner.Free?
              && After(Init(1), es).jobs == [];
    InvReachable(1, es);
    var s := After(Init(1), es);
    LateEnqueue(s, job);
    var more :| Run(s, more) && AllExited(After(s, more)) && After(s, more).jobs == s.jobs + [job];
    RunOn(Init(1), es, more);
    assert Run(Init(1), es + more) && After(Init(1), es + more).jobs == [job];
  }

  // What every step of a worker keeps once the shutdown has been announced.
  lemma AnnouncedKeeps(s: State, e: Event)
    requires Inv(s) && DrainInv(s) && s.announced && Enabled(s, e) && !e.EnqueueLock?
    ensures Inv(Next(s, e)) && DrainInv(Next(s, e)) && Next(s, e).announced && Measure(Next(s, e)) < Measure(s)
  {
    AnnouncedStep(s, e);
    InvStep(s, e);
    DrainStep(s, e);
  }

  // ------------------------------------------------------------------ the pool itself

  /** The fields of the class, and one method per atomic step of its code. */
  class Pool {
    var jobs: seq<Job>
    var shutdown: bool
    var owner: Owner
    var threads: seq<Phase>
    ghost var announced: bool
    ghost var submitted: seq<Job>
    ghost var taken: seq<Job>
    ghost var returned: multiset<Job>

    ghost function Abs(): State
      reads this
    {
      State(jobs, shutdown, announced, owner, threads, submitted, taken, returned)
    }

    constructor (n: nat)
      ensures Abs() == Init(n)
    {
      jobs, shutdown, owner := [], false, Free;
      announced, submitted, taken, returned := false, [], [], multiset{};
      threads := [];
      new;
      var left := n;
      while left > 0
        invariant 0 <= left <= n && |threads| == n - left
        invariant forall i :: 0 <= i < |threads| ==> threads[i] == Pending
        invariant Abs() == Init(n).(phase := threads)
      {
        threads := threads + [Pending];
        left := left - 1;
      }
      assert threads == Init(n).phase;
    }

    // ---- enqueue, called by any thread

    method EnqueueLocks(job: Job)
      requires Enabled(Abs(), EnqueueLock(job))
      modifies this
      ensures Abs() == Next(old(Abs()), EnqueueLock(job))
    {
      owner := Enqueuer(job, Locked);
    }

    method EnqueuePushes()
      requires Enabled(Abs(), EnqueuePush)
      modifies this
      ensures Abs() == Next(old(Abs()), EnqueuePush)
    {
      jobs := jobs + [owner.job];
      submitted := submitted + [owner.job];
      owner := Enqueuer(owner.job, Pushed);
    }

    method EnqueueNotifies(pick: nat)
      requires Enabled(Abs(), EnqueueNotify(pick))
      modifies this
      ensures Abs() == Next(old(Abs()), EnqueueNotify(pick))
    {
      if Waiting in threads {
        threads := threads[pick := Woken];
      }
      owner := Enqueuer(owner.job, Notified);
    }

    method EnqueueUnlocks()
      requires Enabled(Abs(), EnqueueUnlock)
      modifies this
      ensures Abs() == Next(old(Abs()), EnqueueUnlock)
    {
      owner := Free;
    }

    // ---- the worker loop

    method WorkerLocks(i: nat)
      requires Enabled(Abs(), WorkerLock(i))
      modifies this
      ensures Abs() == Next(old(Abs()), WorkerLock(i))
    {
      owner := Worker(i);
    }

    method WorkerDecides(i: nat)
      requires Enabled(Abs(), WorkerDecide(i))
      modifies this
      ensures Abs() == Next(old(Abs()), WorkerDecide(i))
    {
      owner := Free;
      if !(jobs != [] || shutdown) {
        threads := threads[i := Waiting];
        return;
      }
      if shutdown && jobs == [] {
        threads := threads[i := Exited];
        return;
      }
      var fn := jobs[0];
      jobs := jobs[1..];
      taken := taken + [fn];
      threads := threads[i := Running(fn)];
    }

    method JobEnds(i: nat)
      requires Enabled(Abs(), JobReturns(i))
      modifies this
      ensures Abs() == Next(old(Abs()), JobReturns(i))
    {
      returned := returned + multiset{threads[i].job};
      threads := threads[i := Pending];
    }

    // ---- shutdown

    method StopLocks()
      requires Enabled(Abs(), StopLock)
      modifies this
      ensures Abs() == Next(old(Abs()), StopLock)
    {
      owner := Stopper;
    }

    method StopSets()
      requires Enabled(Abs(), StopSet)
      modifies this
      ensures Abs() == Next(old(Abs()), StopSet)
    {
      shutdown := true;
      owner := Free;
    }

    method NotifiesAll()
      requires Enabled(Abs(), NotifyAll)
      modifies this
      ensures Abs() == Next(old(Abs()), NotifyAll)
    {
      threads := WakeAll(threads);
      announced := true;
    }

    /** Joining the workers ends, with every job run, whichever worker takes the next step each time. */
    method JoinAll()
      requires Inv(Abs()) && DrainInv(Abs()) && announced && threads != []
      modifies this
      ensures AllExited(Abs()) && |threads| == |old(threads)|
      ensures jobs == [] && submitted == old(submitted) && returned == multiset(submitted)
    {
      while exists i :: 0 <= i < |threads| && !threads[i].Exited?
        invariant Inv(Abs()) && DrainInv(Abs()) && announced
        invariant |threads| == |old(threads)| && submitted == old(submitted)
        decreases Measure(Abs())
      {
        ghost var possible := Choose(Abs());
        if
        case owner.Worker? =>
          AnnouncedKeeps(Abs(), WorkerDecide(owner.i));
          WorkerDecides(owner.i);
        case exists i :: 0 <= i < |threads| && threads[i].Running? =>
          var i: nat :| i < |threads| && threads[i].Running?;
          AnnouncedKeeps(Abs(), JobReturns(i));
          JobEnds(i);
        case owner.Free? && exists i :: 0 <= i < |threads| && HeadsForLock(threads[i]) =>
          var i: nat :| i < |threads| && HeadsForLock(threads[i]);
          AnnouncedKeeps(Abs(), WorkerLock(i));
          WorkerLocks(i);
      }
      JoinedMeansDone(Abs());
    }
  }
}
