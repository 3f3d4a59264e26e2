/** The shared state object of when_all, kept in step with a run of the state machine. */
module WhenAllStates {
  import opened Strings
  import opened WhenAllProtocol
  import opened WhenAllTheorems

  lemma {:induction false} RunSnoc<T, E>(s: State<T, E>, outcome: nat -> Outcome<T, E>, es: seq<Event>, e: Event)
    requires |s.wrappers| == |s.results| && Run(s, outcome, es).Some?
    ensures |Run(s, outcome, es).value.wrappers| == |Run(s, outcome, es).value.results|
    ensures Run(s, outcome, es + [e]) == Exec(Run(s, outcome, es).value, outcome, e)
    decreases |es|
  {
    if es == [] {
      Chained(s, outcome, e);
    } else {
      assert (es + [e])[1..] == es[1..] + [e];
      RunSnoc(Exec(s, outcome, es[0]).value, outcome, es[1..], e);
    }
  }

  lemma Chained<T, E>(s: State<T, E>, outcome: nat -> Outcome<T, E>, e: Event)
    requires |s.wrappers| == |s.results|
    ensures Run(s, outcome, [] + [e]) == Exec(s, outcome, e)
  {
    assert ([] + [e])[1..] == [];
    var r := Exec(s, outcome, e);
    assert r.Some? ==> Run(r.value, outcome, []) == r;
  }

  class WhenAllState<T(!new), E(!new)> {
    const n: nat
    const hasScheduler: bool
    const outcome: nat -> Outcome<T, E>   // what each task comes to
    var results: seq<Option<T>>
    var remaining: nat
    var exceptions: seq<E>
    var continuation: bool                // whether the awaiter's handle is stored
    var scheduled: nat
    ghost var wrappers: seq<Wrapper>
    ghost var awaiter: Awaiter
    ghost var log: Log
    ghost var trace: seq<Event>

    ghost function View(): State<T, E>
      reads this
    {
      State(remaining, results, exceptions, hasScheduler, wrappers, awaiter, scheduled, log)
    }

    ghost predicate Valid()
      reads this
    {
      Reached(View(), n, hasScheduler, outcome, trace) && continuation == HasContinuation(View())
      && |wrappers| == |results| == n
    }

    constructor (n: nat, hasScheduler: bool, outcome: nat -> Outcome<T, E>)
      ensures Valid() && trace == [] && this.n == n && this.hasScheduler == hasScheduler && this.outcome == outcome
    {
      this.n := n;
      this.hasScheduler := hasScheduler;
      this.outcome := outcome;
      results := seq(n, i => None);
      remaining, exceptions, continuation, scheduled := n, [], false, 0;
      wrappers, awaiter := seq(n, i => Working), Starting;
      log, trace := Log(None, false, false, []), [];
    }

    /** Records that the object has just taken the step `e`. */
    ghost method Took(before: State<T, E>, e: Event)
      requires |before.wrappers| == |before.results| && Reached(before, n, hasScheduler, outcome, trace)
      requires Exec(before, outcome, e) == Some(View()) && continuation == HasContinuation(View())
      requires |wrappers| == |results| == n
      modifies this`trace
      ensures Valid() && trace == old(trace) + [e]
    {
      RunSnoc(Init(n, hasScheduler), outcome, trace, e);
      trace := trace + [e];
    }

    method RecordOutcome(i: nat)
      requires Valid() && i < n && wrappers[i].Working?
      modifies this`results, this`exceptions, this`wrappers, this`log, this`trace
      ensures Valid() && trace == old(trace) + [Record(i)] && wrappers == old(wrappers)[i := Recorded]
      ensures outcome(i).Value? ==> results == old(results)[i := Some(outcome(i).v)] && exceptions == old(exceptions)
      ensures outcome(i).Failed? ==> results == old(results) && exceptions == old(exceptions) + [outcome(i).e]
    {
      ghost var before := View();
      match outcome(i) {
        case Value(v) => results := results[i := Some(v)];
        case Failed(e) =>
          exceptions := exceptions + [e];
          log := log.(failed := log.failed + [i]);
      }
      wrappers := wrappers[i := Recorded];
      Took(before, Record(i));
    }

    /** The atomic fetch_sub; true for the wrapper that reaches zero. */
    method CountDown(i: nat) returns (last: bool)
      requires Valid() && i < n && wrappers[i].Recorded?
      modifies this`remaining, this`wrappers, this`log, this`trace
      ensures Valid() && trace == old(trace) + [Decrement(i)] && wrappers == old(wrappers)[i := Decremented(last)]
      ensures last == (remaining == 0) && remaining == old(remaining) - 1
    {
      NoUnderflow(View(), n, hasScheduler, outcome, trace, i);
      ghost var before := View();
      last := remaining == 1;
      remaining := remaining - 1;
      wrappers := wrappers[i := Decremented(last)];
      log := if last then log.(last := Some(i)) else log;
      Took(before, Decrement(i));
    }

    /** The rest of a wrapper: schedule the continuation if this was the last one and there is one. */
    method ScheduleIfLast(i: nat, last: bool)
      requires Valid() && i < n && wrappers[i] == Decremented(last)
      modifies this`scheduled, this`wrappers, this`log, this`trace
      ensures Valid() && trace == old(trace) + [Look(i)] && wrappers == old(wrappers)[i := Finished]
      ensures scheduled == old(scheduled) + (if last && old(continuation) && hasScheduler then 1 else 0)
    {
      ghost var before := View();
      wrappers := wrappers[i := Finished];
      if last && continuation && hasScheduler {
        scheduled := scheduled + 1;
        log := log.(byWrapper := true);
      }
      Took(before, Look(i));
    }

    method AwaitReady() returns (ready: bool)
      requires Valid() && awaiter.Starting?
      modifies this`awaiter, this`trace
      ensures Valid() && trace == old(trace) + [Ready] && ready == awaiter.Direct? && ready == (remaining == 0)
    {
      ghost var before := View();
      ready := remaining == 0;
      awaiter := if ready then Direct else Suspending;
      Took(before, Ready);
    }

    method StoreContinuation()
      requires Valid() && awaiter.Suspending?
      modifies this`awaiter, this`continuation, this`trace
      ensures Valid() && trace == old(trace) + [Store] && continuation
    {
      ghost var before := View();
      continuation := true;
      awaiter := Stored;
      Took(before, Store);
    }

    method RecheckRemaining()
      requires Valid() && awaiter.Stored?
      modifies this`scheduled, this`awaiter, this`log, this`trace
      ensures Valid() && trace == old(trace) + [Recheck] && awaiter.Waiting?
      ensures scheduled == old(scheduled) + (if old(remaining) == 0 && hasScheduler then 1 else 0)
    {
      ghost var before := View();
      awaiter := Waiting;
      if remaining == 0 && hasScheduler {
        scheduled := scheduled + 1;
        log := log.(byAwaiter := true);
      }
      Took(before, Recheck);
    }

    /** The resumed coroutine collects: the values in index order, or the first exception recorded. */
    method AwaitResume() returns (r: Outcome<seq<T>, E>)
      requires Valid() && (scheduled > 0 || awaiter.Direct?)
      ensures (forall i :: 0 <= i < n ==> outcome(i).Value?) ==>
                r == Value(seq(n, i requires 0 <= i < n => outcome(i).v))
      ensures (exists i :: 0 <= i < n && outcome(i).Failed?) ==>
                var failures := Failures(outcome, trace);
                && failures != [] && failures[0] < n
                && outcome(failures[0]).Failed? && r == Failed(outcome(failures[0]).e)
    {
      ResumesWithResults(View(), n, hasScheduler, outcome, trace);
      if exceptions != [] {
        return Failed(exceptions[0]);
      }
      var values := [];
      for i := 0 to |results|
        invariant |values| == i && forall k :: 0 <= k < i ==> values[k] == results[k].value
      {
        values := values + [results[i].value];
      }
      assert values == WhenAllProtocol.AwaitResume(View()).v;
      r := Value(values);
    }
  }
}
