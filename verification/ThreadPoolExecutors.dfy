/** The executor object: each method is one undisturbed pass, in step with a run of the state machine. */
module ThreadPoolExecutors {
  import opened Strings
  import opened ThreadPoolProtocol
  import opened ThreadPoolTheorems

  lemma {:induction false} RunSnoc(s: State, es: seq<Event>, e: Event)
    requires Run(s, es).Some?
    ensures Run(s, es + [e]) == Exec(Run(s, es).value, e)
    decreases |es|
  {
    if es == [] {
      assert ([] + [e])[1..] == [];
      var r := Exec(s, e);
      assert r.Some? ==> Run(r.value, []) == r;
    } else {
      assert (es + [e])[1..] == es[1..] + [e];
      RunSnoc(Exec(s, es[0]).value, es[1..], e);
    }
  }

  class ThreadPoolExecutor {
    const threads: nat
    var stop: bool
    var tasks: seq<Task>
    // The threads, the locks and the history are not data of the executor.
    ghost var mutex: Mutex
    ghost var workers: seq<Worker>
    ghost var shutdown: Shutdown
    ghost var notifies: nat
    ghost var log: Log
    ghost var trace: seq<Event>

    ghost function View(): State
      reads this
    {
      State(stop, tasks, mutex, workers, shutdown, notifies, log)
    }

    ghost predicate Valid()
      reads this
    {
      Reached(View(), threads, trace)
    }

    constructor (threads: nat)
      ensures Valid() && trace == [] && this.threads == threads
      ensures !stop && tasks == [] && mutex.Free?
      ensures |workers| == (if threads == 0 then 1 else threads) && forall w :: 0 <= w < |workers| ==> workers[w].Idle?
    {
      this.threads := threads;
      stop, tasks := false, [];
      mutex, shutdown, notifies := Free, NotCalled, 0;
      workers := Init(threads).workers;
      log, trace := Log({}, [], [], [], {}), [];
    }

    /** Records that the object has just taken the step `e`. */
    ghost method Took(before: State, e: Event)
      requires Reached(before, threads, trace) && Exec(before, e) == Some(View())
      modifies this`trace
      ensures Valid() && trace == old(trace) + [e]
    {
      RunSnoc(Init(threads), trace, e);
      trace := trace + [e];
    }

    /** execute takes queue_mutex_. */
    ghost method LockForCall(t: Task)
      requires Valid() && mutex.Free? && t !in log.seen
      modifies this`mutex, this`log, this`trace
      ensures Valid() && mutex == ByCaller(t) && trace == old(trace) + [Call(t)]
    {
      ghost var s := View();
      mutex, log := ByCaller(t), log.(seen := log.seen + {t});
      Took(s, Call(t));
    }

    method LookAtStop(t: Task) returns (accepted: bool)
      requires Valid() && mutex == ByCaller(t)
      modifies this`mutex, this`trace
      ensures Valid() && accepted == !stop && mutex == (if accepted then ByPusher(t) else Free)
      ensures trace == old(trace) + [TestStop]
    {
      ghost var s := View();
      accepted := !stop;
      mutex := if accepted then ByPusher(t) else Free;
      Took(s, TestStop);
    }

    method PushTask(t: Task)
      requires Valid() && mutex == ByPusher(t)
      modifies this`tasks, this`mutex, this`notifies, this`log, this`trace
      ensures Valid() && mutex.Free? && tasks == old(tasks) + [t] && notifies == old(notifies) + 1
      ensures trace == old(trace) + [Push]
    {
      ghost var s := View();
      tasks := tasks + [t];
      mutex, notifies, log := Free, notifies + 1, log.(pushed := log.pushed + [t]);
      Took(s, Push);
    }

    /** execute, up to the unlock: false when the executor is stopped and the task dropped. */
    method Submit(t: Task) returns (accepted: bool)
      requires Valid() && mutex.Free? && t !in log.seen
      modifies this`tasks, this`mutex, this`notifies, this`log, this`trace
      ensures Valid() && mutex.Free? && accepted == !old(stop)
      ensures tasks == if accepted then old(tasks) + [t] else old(tasks)
      ensures notifies == old(notifies) + if accepted then 1 else 0
      ensures trace == old(trace) + if accepted then [Call(t), TestStop, Push] else [Call(t), TestStop]
    {
      LockForCall(t);
      accepted := LookAtStop(t);
      if accepted {
        PushTask(t);
      }
    }

    /** A worker takes queue_mutex_ at the top of its loop. */
    ghost method LockQueue(w: nat)
      requires Valid() && mutex.Free? && At(View(), w, Idle)
      modifies this`mutex, this`workers, this`trace
      ensures Valid() && mutex == ByWorker(w) && workers == old(workers)[w := Testing]
    {
      ghost var s := View();
      mutex, workers := ByWorker(w), workers[w := Testing];
      Took(s, Lock(w));
    }

    method TestPredicate(w: nat) returns (go: bool)
      requires Valid() && At(View(), w, Testing)
      modifies this`workers, this`trace
      ensures Valid() && go == (stop || tasks != []) && workers == old(workers)[w := if go then Passed else Dozing]
    {
      ghost var s := View();
      go := stop || tasks != [];
      workers := workers[w := if go then Passed else Dozing];
      Took(s, Test(w));
    }

    ghost method FallAsleep(w: nat)
      requires Valid() && At(View(), w, Dozing)
      modifies this`mutex, this`workers, this`trace
      ensures Valid() && mutex.Free? && workers == old(workers)[w := Asleep]
    {
      ghost var s := View();
      mutex, workers := Free, workers[w := Asleep];
      Took(s, Sleep(w));
    }

    /** The wait on the condition variable: true past the predicate, with the lock held; false asleep. */
    method AwaitWork(w: nat) returns (go: bool)
      requires Valid() && mutex.Free? && At(View(), w, Idle)
      modifies this`mutex, this`workers, this`trace
      ensures Valid() && go == (stop || tasks != [])
      ensures workers == old(workers)[w := if go then Passed else Asleep]
      ensures mutex == if go then ByWorker(w) else Free
    {
      LockQueue(w);
      go := TestPredicate(w);
      if !go {
        FallAsleep(w);
      }
    }

    /** The rest of the critical section: leave, or take the task at the front. */
    method TakeOrLeave(w: nat) returns (task: Option<Task>)
      requires Valid() && At(View(), w, Passed)
      modifies this`mutex, this`workers, this`trace, this`tasks, this`log
      ensures Valid() && mutex.Free?
      ensures old(tasks) != [] ==> task == Some(old(tasks)[0]) && tasks == old(tasks)[1..]
                                   && workers == old(workers)[w := Running(old(tasks)[0])]
      ensures old(tasks) == [] ==> stop && task == None && tasks == [] && workers == old(workers)[w := Exited]
    {
      FrontIsThere(View(), threads, trace, w);
      ghost var s := View();
      mutex := Free;
      if stop && tasks == [] {
        workers := workers[w := Exited];
        task := None;
      } else {
        task := Some(tasks[0]);
        log := log.(taken := log.taken + [tasks[0]], takenBy := log.takenBy + [w]);
        workers := workers[w := Running(tasks[0])];
        tasks := tasks[1..];
      }
      Took(s, Decide(w));
    }

    /** A worker's turn from the top of its loop: it sleeps, leaves, or takes the task at the front. */
    method Turn(w: nat) returns (task: Option<Task>)
      requires Valid() && mutex.Free? && At(View(), w, Idle)
      modifies this`mutex, this`workers, this`trace, this`tasks, this`log
      ensures Valid() && mutex.Free?
      ensures old(tasks) != [] ==> task == Some(old(tasks)[0]) && tasks == old(tasks)[1..]
      ensures old(tasks) != [] ==> workers == old(workers)[w := Running(old(tasks)[0])]
      ensures old(tasks) == [] ==> task == None && tasks == []
                                   && workers == old(workers)[w := if stop then Exited else Asleep]
    {
      var go := AwaitWork(w);
      if go {
        task := TakeOrLeave(w);
      } else {
        task := None;
      }
    }

    /** The task has run, or thrown: the worker is at the top of its loop again. */
    method Return(w: nat)
      requires Valid() && w < |workers| && workers[w].Running?
      modifies this`workers, this`log, this`trace
      ensures Valid() && workers == old(workers)[w := Idle] && trace == old(trace) + [Done(w)]
      ensures log == old(log).(finished := old(log).finished + {(old(workers)[w].t, w)})
    {
      ghost var s := View();
      log := log.(finished := log.finished + {(workers[w].t, w)});
      workers := workers[w := Idle];
      Took(s, Done(w));
    }

    method SignalStop()
      requires Valid() && !stop
      modifies this`stop, this`shutdown, this`trace
      ensures Valid() && stop && shutdown.StopSet?
    {
      ghost var s := View();
      stop, shutdown := true, StopSet;
      Took(s, SetStop);
    }

    /** Takes and releases queue_mutex_, so that no worker is still acting on the old flag. */
    method PassQueueLock()
      requires Valid() && shutdown.StopSet? && mutex.Free?
      modifies this`shutdown, this`trace
      ensures Valid() && shutdown.LockPassed?
    {
      ghost var s := View();
      shutdown := LockPassed;
      Took(s, PassLock);
    }

    method NotifyAllWorkers()
      requires Valid() && shutdown.LockPassed?
      modifies this`shutdown, this`workers, this`trace
      ensures Valid() && shutdown.AllNotified? && |workers| == |old(workers)|
      ensures forall w :: 0 <= w < |workers| ==>
                workers[w] == if old(workers)[w].Asleep? then Idle else old(workers)[w]
    {
      ghost var s := View();
      shutdown, workers := AllNotified, WakeAll(workers);
      Took(s, NotifyAll);
    }

    /** shutdown up to the joins: sets the flag, passes through the lock, wakes everybody. */
    method BeginShutdown()
      requires Valid() && mutex.Free?
      modifies this`stop, this`shutdown, this`workers, this`trace
      ensures Valid() && stop
      ensures !old(stop) ==> shutdown.AllNotified? && Asleep !in workers && Dozing !in workers
      ensures !old(stop) ==> |workers| == |old(workers)| && forall w :: 0 <= w < |workers| ==>
                workers[w] == if old(workers)[w].Asleep? then Idle else old(workers)[w]
      ensures old(stop) ==> View() == old(View())
    {
      if stop {
        return;
      }
      SignalStop();
      PassQueueLock();
      NotifyAllWorkers();
      ReachedInv(View(), threads, trace);
    }
  }
}
