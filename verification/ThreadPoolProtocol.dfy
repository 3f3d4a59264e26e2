/**
 * The thread pool: a queue under a mutex, a stop flag set outside it, workers
 * that sleep on a condition variable. One step per lock, test, wait, notify and
 * atomic access; callers of `execute` and workers are as many as you like, and
 * sleepers may wake without being notified.
 */
module ThreadPoolProtocol {
  import opened Strings

  type Task = nat

  /** Who holds queue_mutex_: a caller before or after its look at stop_, or a worker. */
  datatype Mutex = Free | ByCaller(t: Task) | ByPusher(t: Task) | ByWorker(w: nat)

  /**
   * A worker is at the top of its loop, evaluating the wait predicate, past it,
   * about to sleep on it, asleep, running a task, or gone.
   */
  datatype Worker = Idle | Testing | Passed | Dozing | Asleep | Running(t: Task) | Exited

  /** How far shutdown has got. */
  datatype Shutdown = NotCalled | StopSet | LockPassed | AllNotified

  datatype State = State(
    stop: bool,
    tasks: seq<Task>,
    mutex: Mutex,
    workers: seq<Worker>,
    shutdown: Shutdown,
    notifies: nat,                // notify_one calls still to come from callers that pushed
    log: Log)

  /** What happened so far; no step looks at it, except that a task is submitted once. */
  datatype Log = Log(
    seen: set<Task>,
    pushed: seq<Task>,            // accepted by execute, in order
    taken: seq<Task>,             // taken by workers, in order
    takenBy: seq<nat>,            // the workers that took them
    finished: set<(Task, nat)>)   // tasks run to their end, with the workers that ran them

  datatype Event =
    | Call(t: Task) | TestStop | Push | NotifyOne(w: nat) | NotifyNobody
    | Lock(w: nat) | Test(w: nat) | Sleep(w: nat) | Wake(w: nat) | Decide(w: nat) | Done(w: nat)
    | SetStop | PassLock | NotifyAll

  function Init(threads: nat): State {
    State(false, [], Free, seq(if threads == 0 then 1 else threads, i => Idle), NotCalled, 0, Log({}, [], [], [], {}))
  }

  predicate At(s: State, w: nat, pc: Worker) {
    w < |s.workers| && s.workers[w] == pc
  }

  function Move(s: State, w: nat, pc: Worker): State
    requires w < |s.workers|
  {
    s.(workers := s.workers[w := pc])
  }

  function WakeAll(ws: seq<Worker>): seq<Worker> {
    seq(|ws|, i requires 0 <= i < |ws| => if ws[i].Asleep? then Idle else ws[i])
  }

  /** The end of a worker's critical section: leave, or take the task at the front. */
  function DecideStep(s: State, w: nat): Option<State> {
    if !At(s, w, Passed) then None
    else if s.stop && s.tasks == [] then Some(Move(s, w, Exited).(mutex := Free))
    else if s.tasks == [] then None   // front() of an empty queue
    else
      Some(Move(s, w, Running(s.tasks[0])).(
           mutex := Free, tasks := s.tasks[1..],
           log := s.log.(taken := s.log.taken + [s.tasks[0]], takenBy := s.log.takenBy + [w])))
  }

  /** One step; None when it is not possible in this state. */
  function Exec(s: State, e: Event): Option<State> {
    match e
    case Call(t) =>
      if s.mutex.Free? && t !in s.log.seen
      then Some(s.(mutex := ByCaller(t), log := s.log.(seen := s.log.seen + {t}))) else None
    case TestStop =>
      if s.mutex.ByCaller? then Some(s.(mutex := if s.stop then Free else ByPusher(s.mutex.t))) else None
    case Push =>
      if s.mutex.ByPusher?
      then Some(s.(mutex := Free, tasks := s.tasks + [s.mutex.t], notifies := s.notifies + 1,
                   log := s.log.(pushed := s.log.pushed + [s.mutex.t])))
      else None
    case NotifyOne(w) =>
      if s.notifies > 0 && At(s, w, Asleep) then Some(Move(s, w, Idle).(notifies := s.notifies - 1)) else None
    case NotifyNobody =>
      if s.notifies > 0 && Asleep !in s.workers then Some(s.(notifies := s.notifies - 1)) else None
    case Lock(w) =>
      if At(s, w, Idle) && s.mutex.Free? then Some(Move(s, w, Testing).(mutex := ByWorker(w))) else None
    case Test(w) =>
      if At(s, w, Testing) then Some(Move(s, w, if s.stop || s.tasks != [] then Passed else Dozing)) else None
    case Sleep(w) =>
      if At(s, w, Dozing) then Some(Move(s, w, Asleep).(mutex := Free)) else None
    case Wake(w) =>
      if At(s, w, Asleep) then Some(Move(s, w, Idle)) else None
    case Decide(w) => DecideStep(s, w)
    case Done(w) =>
      if w < |s.workers| && s.workers[w].Running?
      then Some(Move(s, w, Idle).(log := s.log.(finished := s.log.finished + {(s.workers[w].t, w)}))) else None
    case SetStop =>
      if !s.stop then Some(s.(stop := true, shutdown := StopSet)) else Some(s)
    case PassLock =>
      if s.shutdown.StopSet? && s.mutex.Free? then Some(s.(shutdown := LockPassed)) else None
    case NotifyAll =>
      if s.shutdown.LockPassed? then Some(s.(shutdown := AllNotified, workers := WakeAll(s.workers))) else None
  }

  function Run(s: State, es: seq<Event>): Option<State>
    decreases |es|
  {
    if es == [] then Some(s)
    else
      match Exec(s, es[0])
      case None => None
      case Some(s') => Run(s', es[1..])
  }

  ghost predicate Reached(s: State, threads: nat, es: seq<Event>) {
    Run(Init(threads), es) == Some(s)
  }
}
