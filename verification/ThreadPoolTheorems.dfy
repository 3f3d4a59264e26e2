/** What holds of the thread pool in every run. */
module ThreadPoolTheorems {
  import opened Strings
  import opened ThreadPoolProtocol

  /** Exactly the worker holding the mutex is inside the critical section, with the facts it relies on. */
  ghost predicate Critical(s: State) {
    && s.workers != []
    && (s.mutex.ByWorker? ==> s.mutex.w < |s.workers|)
    && (forall w :: 0 <= w < |s.workers| ==>
          (s.workers[w] in {Testing, Passed, Dozing} <==> s.mutex == ByWorker(w)))
    && (forall w :: 0 <= w < |s.workers| && s.workers[w].Passed? ==> s.stop || s.tasks != [])
    && (forall w :: 0 <= w < |s.workers| && s.workers[w].Dozing? ==> s.tasks == [])
  }

  /** Accepted tasks are those taken, in order, then those queued. */
  ghost predicate Queue(s: State) {
    && s.log.pushed == s.log.taken + s.tasks
    && |s.log.takenBy| == |s.log.taken|
    && Distinct(s.log.pushed)
    && (forall t :: t in s.log.pushed ==> t in s.log.seen)
    && (s.mutex.ByCaller? || s.mutex.ByPusher? ==> s.mutex.t in s.log.seen && s.mutex.t !in s.log.pushed)
  }

  /** A worker leaves only a stopped, empty pool in which nobody is about to push. */
  ghost predicate Leaving(s: State) {
    Exited in s.workers ==> s.stop && s.tasks == [] && !s.mutex.ByPusher?
  }

  predicate Awake(w: Worker) {
    !w.Asleep? && !w.Exited? && !w.Dozing?
  }

  /** No task is left to sleeping workers, and none of them sleeps through a shutdown. */
  ghost predicate Attended(s: State) {
    && (s.tasks != [] ==> s.notifies > 0 || SomeAwake(s))
    && (s.stop <==> !s.shutdown.NotCalled?)
    && (s.shutdown.LockPassed? || s.shutdown.AllNotified? ==> Dozing !in s.workers)
    && (s.shutdown.AllNotified? ==> Asleep !in s.workers)
  }

  ghost predicate TakenAt(s: State, t: Task, w: nat) {
    exists k :: 0 <= k < |s.log.taken| && k < |s.log.takenBy| && s.log.taken[k] == t && s.log.takenBy[k] == w
  }

  /** The worker that took the task is running it, or has run it: one of the two. */
  predicate RunsOrRan(s: State, t: Task, w: nat) {
    At(s, w, Running(t)) <==> (t, w) !in s.log.finished
  }

  /** Every task taken is run by the worker that took it, once, and nothing else is run. */
  ghost predicate Worked(s: State) {
    && |s.log.takenBy| == |s.log.taken|
    && (forall k :: 0 <= k < |s.log.taken| ==> RunsOrRan(s, s.log.taken[k], s.log.takenBy[k]))
    && (forall w :: 0 <= w < |s.workers| && s.workers[w].Running? ==> TakenAt(s, s.workers[w].t, w))
    && (forall t, w :: (t, w) in s.log.finished ==> TakenAt(s, t, w))
  }

  ghost predicate Inv(s: State) {
    Critical(s) && Queue(s) && Leaving(s) && Attended(s) && Worked(s)
  }

  lemma InitInv(threads: nat)
    ensures Inv(Init(threads))
  {
  }

  predicate MovesWorker(e: Event) {
    e.Lock? || e.Test? || e.Sleep? || e.Decide?
  }

  lemma CriticalKeptByWorker(s: State, e: Event)
    requires Inv(s) && Exec(s, e).Some? && MovesWorker(e)
    ensures Critical(Exec(s, e).value)
  {
  }

  lemma CriticalKept(s: State, e: Event)
    requires Inv(s) && Exec(s, e).Some?
    ensures Critical(Exec(s, e).value)
  {
    if MovesWorker(e) {
      CriticalKeptByWorker(s, e);
    }
  }

  lemma QueueKept(s: State, e: Event)
    requires Inv(s) && Exec(s, e).Some?
    ensures Queue(Exec(s, e).value)
  {
  }

  lemma LeavingKept(s: State, e: Event)
    requires Inv(s) && Exec(s, e).Some?
    ensures Leaving(Exec(s, e).value)
  {
  }

  ghost predicate SomeAwake(s: State) {
    exists w :: 0 <= w < |s.workers| && Awake(s.workers[w])
  }

  /** With tasks queued and nobody asleep, every worker is awake. */
  lemma NobodyAsleep(s: State)
    requires Inv(s) && s.tasks != [] && Asleep !in s.workers
    ensures SomeAwake(s)
  {
    assert s.workers[0] in s.workers && Awake(s.workers[0]);
  }

  lemma AwakeKept(s: State, e: Event)
    requires Inv(s) && Exec(s, e).Some? && SomeAwake(s)
    ensures Exec(s, e).value.tasks != [] ==> SomeAwake(Exec(s, e).value)
  {
    var s' := Exec(s, e).value;
    var w :| 0 <= w < |s.workers| && Awake(s.workers[w]);
    assert |s'.workers| == |s.workers|;
    assert s'.tasks != [] ==> Awake(s'.workers[w]);
  }

  lemma AttendedKept(s: State, e: Event)
    requires Inv(s) && Exec(s, e).Some?
    ensures Attended(Exec(s, e).value)
  {
    var s' := Exec(s, e).value;
    if s'.tasks != [] && s'.notifies == 0 {
      match e
      case NotifyOne(w) => assert Awake(s'.workers[w]);
      case NotifyNobody =>
        NobodyAsleep(s);
        AwakeKept(s, e);
      case _ => AwakeKept(s, e);
    }
  }

  lemma TakenMore(s: State, s': State, t: Task, w: nat)
    requires TakenAt(s, t, w) && s.log.taken <= s'.log.taken && s.log.takenBy <= s'.log.takenBy
    ensures TakenAt(s', t, w)
  {
    var k :| 0 <= k < |s.log.taken| && k < |s.log.takenBy| && s.log.taken[k] == t && s.log.takenBy[k] == w;
    assert s'.log.taken[k] == t && s'.log.takenBy[k] == w;
  }

  lemma TakeKeepsWorked(s: State, w: nat)
    requires Queue(s) && Worked(s) && At(s, w, Passed) && s.tasks != []
    ensures Worked(DecideStep(s, w).value)
  {
    var s', t, n := DecideStep(s, w).value, s.tasks[0], |s.log.taken|;
    assert s.log.pushed[n] == t;
    assert forall k :: 0 <= k < n ==> s.log.pushed[k] == s.log.taken[k];
    assert s'.log.taken[n] == t && s'.log.takenBy[n] == w;
    assert !TakenAt(s, t, w);
    forall k | 0 <= k <= n ensures RunsOrRan(s', s'.log.taken[k], s'.log.takenBy[k]) {
      assert k < n ==> RunsOrRan(s, s.log.taken[k], s.log.takenBy[k]);
    }
    forall v | 0 <= v < |s'.workers| && s'.workers[v].Running? ensures TakenAt(s', s'.workers[v].t, v) {
      if v != w {
        TakenMore(s, s', s.workers[v].t, v);
      }
    }
    forall u, v | (u, v) in s'.log.finished ensures TakenAt(s', u, v) {
      TakenMore(s, s', u, v);
    }
  }

  lemma DoneKeepsWorked(s: State, w: nat)
    requires Queue(s) && Worked(s) && w < |s.workers| && s.workers[w].Running?
    ensures Worked(Exec(s, Done(w)).value)
  {
    var s', t := Exec(s, Done(w)).value, s.workers[w].t;
    forall k | 0 <= k < |s'.log.taken| ensures RunsOrRan(s', s'.log.taken[k], s'.log.takenBy[k]) {
      assert RunsOrRan(s, s.log.taken[k], s.log.takenBy[k]);
    }
    forall u, v | (u, v) in s'.log.finished ensures TakenAt(s', u, v) {
      TakenMore(s, s', u, v);
    }
    forall v | 0 <= v < |s'.workers| && s'.workers[v].Running? ensures TakenAt(s', s'.workers[v].t, v) {
      TakenMore(s, s', s.workers[v].t, v);
    }
  }

  /** A step that neither starts nor ends a task. */
  ghost predicate SameWork(s: State, s': State) {
    && s'.log.taken == s.log.taken && s'.log.takenBy == s.log.takenBy && s'.log.finished == s.log.finished
    && |s'.workers| == |s.workers|
    && forall w :: 0 <= w < |s.workers| && (s.workers[w].Running? || s'.workers[w].Running?) ==>
         s'.workers[w] == s.workers[w]
  }

  lemma SameWorkKeepsWorked(s: State, s': State)
    requires Worked(s) && SameWork(s, s')
    ensures Worked(s')
  {
    forall k | 0 <= k < |s'.log.taken| ensures RunsOrRan(s', s'.log.taken[k], s'.log.takenBy[k]) {
      assert RunsOrRan(s, s.log.taken[k], s.log.takenBy[k]);
    }
    forall u, v | (u, v) in s'.log.finished ensures TakenAt(s', u, v) {
      TakenMore(s, s', u, v);
    }
    forall v | 0 <= v < |s'.workers| && s'.workers[v].Running? ensures TakenAt(s', s'.workers[v].t, v) {
      TakenMore(s, s', s.workers[v].t, v);
    }
  }

  lemma OtherStepsKeepWork(s: State, e: Event)
    requires Exec(s, e).Some? && !e.Done? && (e.Decide? ==> s.tasks == [])
    ensures SameWork(s, Exec(s, e).value)
  {
  }

  lemma WorkedKept(s: State, e: Event)
    requires Inv(s) && Exec(s, e).Some?
    ensures Worked(Exec(s, e).value)
  {
    if e.Done? {
      DoneKeepsWorked(s, e.w);
    } else if e.Decide? && s.tasks != [] {
      TakeKeepsWorked(s, e.w);
    } else {
      OtherStepsKeepWork(s, e);
      SameWorkKeepsWorked(s, Exec(s, e).value);
    }
  }

  lemma StepKeepsInv(s: State, e: Event)
    requires Inv(s) && Exec(s, e).Some?
    ensures Inv(Exec(s, e).value)
  {
    CriticalKept(s, e);
    QueueKept(s, e);
    LeavingKept(s, e);
    AttendedKept(s, e);
    WorkedKept(s, e);
  }

  lemma {:induction false} RunKeepsInv(s: State, es: seq<Event>)
    requires Inv(s) && Run(s, es).Some?
    ensures Inv(Run(s, es).value)
    decreases |es|
  {
    if es != [] {
      StepKeepsInv(s, es[0]);
      RunKeepsInv(Exec(s, es[0]).value, es[1..]);
    }
  }

  lemma ReachedInv(s: State, threads: nat, es: seq<Event>)
    requires Reached(s, threads, es)
    ensures Inv(s)
  {
    InitInv(threads);
    RunKeepsInv(Init(threads), es);
  }

  /**
   * First in, first out, each task once; and all of them once any worker has left.
   * The worker that took a task runs it now or has run it, not both, and no
   * worker runs anything else.
   */
  lemma NoTaskLost(s: State, threads: nat, es: seq<Event>)
    requires Reached(s, threads, es)
    ensures s.log.pushed == s.log.taken + s.tasks && |s.log.takenBy| == |s.log.taken|
    ensures Distinct(s.log.taken)
    ensures forall k :: 0 <= k < |s.log.taken| ==> RunsOrRan(s, s.log.taken[k], s.log.takenBy[k])
    ensures forall w :: 0 <= w < |s.workers| && s.workers[w].Running? ==> TakenAt(s, s.workers[w].t, w)
    ensures Exited in s.workers ==> s.log.taken == s.log.pushed
  {
    ReachedInv(s, threads, es);
    assert forall i :: 0 <= i < |s.log.taken| ==> s.log.taken[i] == s.log.pushed[i];
  }

  lemma ExitStays(s: State, e: Event)
    requires Inv(s) && Exited in s.workers && Exec(s, e).Some?
    ensures var t := Exec(s, e).value;
            Exited in t.workers && t.log.pushed == s.log.pushed
  {
    var w :| 0 <= w < |s.workers| && s.workers[w].Exited?;
    assert Exec(s, e).value.workers[w].Exited?;
  }

  /** Once a worker has left, no task is accepted any more, however late its caller comes. */
  lemma {:induction false} NothingAfterExit(s: State, es: seq<Event>)
    requires Inv(s) && Exited in s.workers && Run(s, es).Some?
    ensures var t := Run(s, es).value;
            Exited in t.workers && t.log.pushed == s.log.pushed && t.tasks == []
    decreases |es|
  {
    if es != [] {
      StepKeepsInv(s, es[0]);
      ExitStays(s, es[0]);
      NothingAfterExit(Exec(s, es[0]).value, es[1..]);
    }
  }

  /** A worker past its wait predicate finds a task or leaves: it never takes from an empty queue. */
  lemma FrontIsThere(s: State, threads: nat, es: seq<Event>, w: nat)
    requires Reached(s, threads, es) && At(s, w, Passed)
    ensures Exec(s, Decide(w)).Some?
  {
    ReachedInv(s, threads, es);
  }

  lemma {:induction false} WorkersStay(s: State, es: seq<Event>)
    requires Run(s, es).Some?
    ensures |Run(s, es).value.workers| == |s.workers|
    decreases |es|
  {
    if es != [] {
      WorkersStay(Exec(s, es[0]).value, es[1..]);
    }
  }

  /** As many workers as asked for, but at least one, in every state. */
  lemma AsManyWorkersAsAsked(s: State, threads: nat, es: seq<Event>)
    requires Reached(s, threads, es)
    ensures |s.workers| >= 1 && |s.workers| >= threads && (threads >= 1 ==> |s.workers| == threads)
    ensures threads == 0 ==> |s.workers| == 1
  {
    WorkersStay(Init(threads), es);
  }

  /** No interleaving is left out: a worker goes on as soon as the lock and the queue allow it, a sleeper any time. */
  lemma EveryWorkerCanMove(s: State, w: nat)
    requires w < |s.workers|
    ensures Exec(s, Lock(w)).Some? <==> s.mutex.Free? && s.workers[w].Idle?
    ensures Exec(s, Test(w)).Some? <==> s.workers[w].Testing?
    ensures Exec(s, Sleep(w)).Some? <==> s.workers[w].Dozing?
    ensures Exec(s, Wake(w)).Some? <==> s.workers[w].Asleep?
    ensures Exec(s, Decide(w)).Some? <==> s.workers[w].Passed? && (s.stop || s.tasks != [])
    ensures Exec(s, Done(w)).Some? <==> s.workers[w].Running?
  {
  }

  /** And so do the callers of execute and shutdown. */
  lemma EveryCallerCanMove(s: State, w: nat, t: Task)
    requires w < |s.workers|
    ensures Exec(s, Call(t)).Some? <==> s.mutex.Free? && t !in s.log.seen
    ensures Exec(s, TestStop).Some? <==> s.mutex.ByCaller?
    ensures Exec(s, Push).Some? <==> s.mutex.ByPusher?
    ensures Exec(s, NotifyOne(w)).Some? <==> s.notifies > 0 && s.workers[w].Asleep?
    ensures Exec(s, NotifyNobody).Some? <==> s.notifies > 0 && Asleep !in s.workers
    ensures Exec(s, SetStop).Some?
    ensures Exec(s, PassLock).Some? <==> s.shutdown.StopSet? && s.mutex.Free?
    ensures Exec(s, NotifyAll).Some? <==> s.shutdown.LockPassed?
  {
  }

  /** A sleeper that wakes, notified or not, is at the top of its loop again, and nobody else is disturbed. */
  lemma WakesUp(s: State, w: nat)
    requires w < |s.workers| && s.workers[w].Asleep?
    ensures Exec(s, Wake(w)) == Some(s.(workers := s.workers[w := Idle]))
    ensures s.notifies > 0 ==>
              Exec(s, NotifyOne(w)) == Some(s.(workers := s.workers[w := Idle], notifies := s.notifies - 1))
  {
  }

  /** A queued task always has somebody to come for it: a notification on its way or a worker awake. */
  lemma TasksAttended(s: State, threads: nat, es: seq<Event>)
    requires Reached(s, threads, es) && s.tasks != []
    ensures s.notifies > 0 || SomeAwake(s)
  {
    ReachedInv(s, threads, es);
  }

  /**
   * Shutdown cannot hang on a sleeper: after notify_all no worker sleeps or is
   * about to, now or later, although stop_ was set without the lock.
   */
  lemma {:induction false} NobodySleepsAfterNotifyAll(s: State, threads: nat, es: seq<Event>, later: seq<Event>)
    requires Reached(s, threads, es) && s.shutdown.AllNotified? && Run(s, later).Some?
    ensures var t := Run(s, later).value;
            t.shutdown.AllNotified? && Asleep !in t.workers && Dozing !in t.workers
  {
    ReachedInv(s, threads, es);
    RunKeepsInv(s, later);
    StaysNotified(s, later);
  }

  lemma {:induction false} StaysNotified(s: State, es: seq<Event>)
    requires Inv(s) && s.shutdown.AllNotified? && Run(s, es).Some?
    ensures Run(s, es).value.shutdown.AllNotified?
    decreases |es|
  {
    if es != [] {
      StepKeepsInv(s, es[0]);
      StaysNotified(Exec(s, es[0]).value, es[1..]);
    }
  }

  // --------------------------------------------------- shutdown terminates

  function Weight(w: Worker): nat {
    match w
    case Running(_) => 4
    case Idle => 3
    case Testing => 2
    case Passed => 1
    case Asleep => 3
    case Dozing => 3
    case Exited => 0
  }

  function TotalWeight(ws: seq<Worker>): nat {
    if ws == [] then 0 else Weight(ws[0]) + TotalWeight(ws[1..])
  }

  /** How many worker steps the pool can still take once it is being shut down. */
  function Work(s: State): nat {
    TotalWeight(s.workers) + 5 * |s.tasks| + if s.mutex.ByPusher? then 6 else 0
  }

  predicate IsWorkerStep(e: Event) {
    e.Lock? || e.Test? || e.Sleep? || e.Wake? || e.Decide? || e.Done?
  }

  function WorkerSteps(es: seq<Event>): nat {
    if es == [] then 0 else (if IsWorkerStep(es[0]) then 1 else 0) + WorkerSteps(es[1..])
  }

  lemma {:induction false} WeightUpdate(ws: seq<Worker>, i: nat, w: Worker)
    requires i < |ws|
    ensures TotalWeight(ws[i := w]) + Weight(ws[i]) == TotalWeight(ws) + Weight(w)
  {
    if i == 0 {
      assert ws[0 := w][1..] == ws[1..];
    } else {
      assert ws[i := w][1..] == ws[1..][i - 1 := w];
      WeightUpdate(ws[1..], i - 1, w);
    }
  }

  lemma WorkShrinksOnDecide(s: State, w: nat)
    requires Exec(s, Decide(w)).Some?
    ensures Work(Exec(s, Decide(w)).value) < Work(s)
  {
    WeightUpdate(s.workers, w, Exited);
    WeightUpdate(s.workers, w, if s.tasks == [] then Idle else Running(s.tasks[0]));
  }

  lemma WorkShrinks(s: State, e: Event)
    requires Inv(s) && s.shutdown.AllNotified? && Exec(s, e).Some?
    ensures Work(Exec(s, e).value) + (if IsWorkerStep(e) then 1 else 0) <= Work(s)
  {
    match e
    case Lock(w) => WeightUpdate(s.workers, w, Testing);
    case Test(w) => WeightUpdate(s.workers, w, Passed);
    case Decide(w) => WorkShrinksOnDecide(s, w);
    case Done(w) => WeightUpdate(s.workers, w, Idle);
    case _ =>
  }

  /** After notify_all the workers take at most `Work(s)` more steps, whatever callers do meanwhile. */
  lemma {:induction false} ShutdownIsBounded(s: State, later: seq<Event>)
    requires Inv(s) && s.shutdown.AllNotified? && Run(s, later).Some?
    ensures Work(Run(s, later).value) + WorkerSteps(later) <= Work(s)
    decreases |later|
  {
    if later != [] {
      StepKeepsInv(s, later[0]);
      WorkShrinks(s, later[0]);
      ShutdownIsBounded(Exec(s, later[0]).value, later[1..]);
    }
  }

  /** And while some worker has not left, the pool or the caller holding the lock can move: join returns. */
  lemma ShutdownNeverStuck(s: State, w: nat)
    requires Inv(s) && s.shutdown.AllNotified? && w < |s.workers| && !s.workers[w].Exited?
    ensures exists e :: Exec(s, e).Some? && (IsWorkerStep(e) || e.TestStop? || e.Push?)
  {
    var e := match s.mutex
      case Free => (if s.workers[w].Running? then Done(w) else Lock(w))
      case ByCaller(_) => TestStop
      case ByPusher(_) => Push
      case ByWorker(v) => (if s.workers[v].Testing? then Test(v) else Decide(v));
    assert s.workers[w] in s.workers;
    assert s.mutex.ByWorker? ==> s.workers[s.mutex.w] in s.workers;
    assert Exec(s, e).Some?;
  }
}
