/**
 * when_all: a countdown shared by n wrappers and the awaiting coroutine, one
 * step per atomic access. The wrappers' mutex is left out on purpose: the steps
 * below interleave freely, which covers the form that decrements under the lock
 * and the form that decrements after releasing it.
 */
module WhenAllProtocol {
  import opened Strings

  datatype Outcome<T, E> = Value(v: T) | Failed(e: E)

  /** Where a wrapper is: its task runs; result or exception stored; countdown done; continuation looked at. */
  datatype Wrapper = Working | Recorded | Decremented(last: bool) | Finished

  /** Where the awaiting coroutine is: Direct never suspends, Waiting has left await_suspend. */
  datatype Awaiter = Starting | Suspending | Stored | Waiting | Direct

  datatype State<T, E> = State(
    remaining: nat,
    results: seq<Option<T>>,
    exceptions: seq<E>,
    hasScheduler: bool,
    wrappers: seq<Wrapper>,
    awaiter: Awaiter,
    scheduled: nat,               // how often the continuation was scheduled
    log: Log)

  /** What happened so far; no step looks at it. */
  datatype Log = Log(
    last: Option<nat>,            // the wrapper whose decrement reached zero
    byAwaiter: bool,              // the awaiter scheduled the continuation
    byWrapper: bool,              // a wrapper scheduled the continuation
    failed: seq<nat>)             // wrappers that recorded an exception, in order

  datatype Event = Record(i: nat) | Decrement(i: nat) | Look(i: nat) | Ready | Store | Recheck

  function Init<T, E>(n: nat, hasScheduler: bool): State<T, E> {
    State(n, seq(n, i => None), [], hasScheduler, seq(n, i => Working), Starting, 0, Log(None, false, false, []))
  }

  /** The continuation handle is set once await_suspend has stored it. */
  predicate HasContinuation<T, E>(s: State<T, E>) {
    s.awaiter.Stored? || s.awaiter.Waiting?
  }

  function RecordOutcome<T, E>(s: State<T, E>, outcome: nat -> Outcome<T, E>, i: nat): State<T, E>
    requires i < |s.wrappers| == |s.results|
  {
    var s := s.(wrappers := s.wrappers[i := Recorded]);
    match outcome(i)
    case Value(v) => s.(results := s.results[i := Some(v)])
    case Failed(e) => s.(exceptions := s.exceptions + [e], log := s.log.(failed := s.log.failed + [i]))
  }

  function Exec<T, E>(s: State<T, E>, outcome: nat -> Outcome<T, E>, e: Event): (r: Option<State<T, E>>)
    requires |s.wrappers| == |s.results|
    ensures r.Some? ==> |r.value.wrappers| == |r.value.results| == |s.wrappers|
  {
    match e
    case Record(i) =>
      if i < |s.wrappers| && s.wrappers[i].Working? then Some(RecordOutcome(s, outcome, i)) else None
    case Decrement(i) =>
      if i < |s.wrappers| && s.wrappers[i].Recorded? && s.remaining > 0
      then Some(s.(remaining := s.remaining - 1, wrappers := s.wrappers[i := Decremented(s.remaining == 1)],
                   log := if s.remaining == 1 then s.log.(last := Some(i)) else s.log))
      else None
    case Look(i) =>
      if i < |s.wrappers| && s.wrappers[i].Decremented? then
        var s' := s.(wrappers := s.wrappers[i := Finished]);
        if s.wrappers[i].last && HasContinuation(s) && s.hasScheduler
        then Some(s'.(scheduled := s.scheduled + 1, log := s.log.(byWrapper := true)))
        else Some(s')
      else None
    case Ready =>
      if s.awaiter.Starting? then Some(s.(awaiter := if s.remaining == 0 then Direct else Suspending)) else None
    case Store =>
      if s.awaiter.Suspending? then Some(s.(awaiter := Stored)) else None
    case Recheck =>
      if s.awaiter.Stored? then
        var s' := s.(awaiter := Waiting);
        if s.remaining == 0 && s.hasScheduler
        then Some(s'.(scheduled := s.scheduled + 1, log := s.log.(byAwaiter := true)))
        else Some(s')
      else None
  }

  function Run<T, E>(s: State<T, E>, outcome: nat -> Outcome<T, E>, es: seq<Event>): Option<State<T, E>>
    requires |s.wrappers| == |s.results|
    decreases |es|
  {
    if es == [] then Some(s)
    else
      match Exec(s, outcome, es[0])
      case None => None
      case Some(s') => Run(s', outcome, es[1..])
  }

  /** await_resume: the first exception recorded, or the values in index order. */
  function AwaitResume<T, E>(s: State<T, E>): Outcome<seq<T>, E>
    requires s.exceptions == [] ==> forall i :: 0 <= i < |s.results| ==> s.results[i].Some?
  {
    if s.exceptions != [] then Failed(s.exceptions[0])
    else Value(seq(|s.results|, i requires 0 <= i < |s.results| => s.results[i].value))
  }

  // ----------------------------------------------------------- the countdown

  predicate Counted(w: Wrapper) {
    w.Decremented? || w.Finished?
  }

  /** The number of wrappers still to count down. */
  function Left(ws: seq<Wrapper>): nat {
    if ws == [] then 0 else (if Counted(ws[0]) then 0 else 1) + Left(ws[1..])
  }

  lemma {:induction false} LeftUpdate(ws: seq<Wrapper>, i: nat, w: Wrapper)
    requires i < |ws|
    ensures Left(ws[i := w]) + (if Counted(ws[i]) then 0 else 1) == Left(ws) + (if Counted(w) then 0 else 1)
  {
    if i == 0 {
      assert ws[0 := w][1..] == ws[1..];
    } else {
      assert ws[i := w][1..] == ws[1..][i - 1 := w];
      LeftUpdate(ws[1..], i - 1, w);
    }
  }

  lemma {:induction false} LeftZero(ws: seq<Wrapper>)
    ensures Left(ws) == 0 <==> forall i :: 0 <= i < |ws| ==> Counted(ws[i])
  {
    if ws != [] {
      LeftZero(ws[1..]);
      assert forall i :: 0 < i < |ws| ==> ws[i] == ws[1..][i - 1];
    }
  }

  lemma {:induction false} LeftAll(n: nat)
    ensures Left(seq(n, i => Working)) == n
  {
    if n > 0 {
      assert seq(n, i => Working)[1..] == seq(n - 1, i => Working);
      LeftAll(n - 1);
    }
  }
}
