/** What holds of when_all for any number of wrappers and any interleaving. */
module WhenAllTheorems {
  import opened Strings
  import opened WhenAllProtocol

  /** Results and exceptions are those of the wrappers that have recorded. */
  ghost predicate Recordings<T, E>(s: State<T, E>, outcome: nat -> Outcome<T, E>) {
    && |s.results| == |s.wrappers|
    && (forall i :: 0 <= i < |s.results| ==>
          s.results[i] == if !s.wrappers[i].Working? && outcome(i).Value? then Some(outcome(i).v) else None)
    && |s.log.failed| == |s.exceptions|
    && (forall k :: 0 <= k < |s.log.failed| ==>
          s.log.failed[k] < |s.wrappers| && outcome(s.log.failed[k]) == Failed(s.exceptions[k]))
    && (forall i :: 0 <= i < |s.wrappers| && !s.wrappers[i].Working? && outcome(i).Failed? ==> i in s.log.failed)
  }

  /** Who brought the countdown to zero. */
  ghost predicate Countdown<T, E>(s: State<T, E>) {
    && s.remaining == Left(s.wrappers)
    && (s.log.last.Some? ==> s.remaining == 0 && s.log.last.value < |s.wrappers|
                             && s.wrappers[s.log.last.value] in {Decremented(true), Finished})
    && (s.remaining == 0 && |s.wrappers| > 0 ==> s.log.last.Some?)
    && (forall i :: 0 <= i < |s.wrappers| && s.wrappers[i] == Decremented(true) ==> s.log.last == Some(i))
  }

  predicate LastLooked<T, E>(s: State<T, E>) {
    s.log.last.Some? && s.log.last.value < |s.wrappers| && s.wrappers[s.log.last.value].Finished?
  }

  /** Who scheduled the continuation, and that nobody failed to. */
  ghost predicate WakeUps<T, E>(s: State<T, E>) {
    && s.scheduled == (if s.log.byAwaiter then 1 else 0) + (if s.log.byWrapper then 1 else 0)
    && (s.log.byWrapper ==> s.hasScheduler && LastLooked(s) && HasContinuation(s))
    && (s.log.byAwaiter ==> s.hasScheduler && s.remaining == 0 && s.awaiter.Waiting?)
    && (s.awaiter.Suspending? || HasContinuation(s) ==> |s.wrappers| > 0)
    && (s.awaiter.Waiting? && s.hasScheduler && LastLooked(s) ==> s.log.byAwaiter || s.log.byWrapper)
    && (s.awaiter.Direct? ==> s.remaining == 0)
  }

  ghost predicate Inv<T, E>(s: State<T, E>, outcome: nat -> Outcome<T, E>) {
    Recordings(s, outcome) && Countdown(s) && WakeUps(s)
  }

  lemma InitInv<T, E>(n: nat, hasScheduler: bool, outcome: nat -> Outcome<T, E>)
    ensures Inv(Init(n, hasScheduler), outcome)
  {
    LeftAll(n);
  }

  lemma RecordKeepsRecordings<T, E>(s: State<T, E>, outcome: nat -> Outcome<T, E>, i: nat)
    requires Recordings(s, outcome) && i < |s.wrappers| && s.wrappers[i].Working?
    ensures Recordings(RecordOutcome(s, outcome, i), outcome)
  {
    var s' := RecordOutcome(s, outcome, i);
    if outcome(i).Failed? {
      assert s'.log.failed == s.log.failed + [i];
      forall j | 0 <= j < |s'.wrappers| && !s'.wrappers[j].Working? && outcome(j).Failed?
        ensures j in s'.log.failed
      {
        assert j != i ==> j in s.log.failed;
      }
    } else {
      assert s'.log.failed == s.log.failed && s'.exceptions == s.exceptions;
    }
  }

  lemma RecordKeepsCountdown<T, E>(s: State<T, E>, outcome: nat -> Outcome<T, E>, i: nat)
    requires Recordings(s, outcome) && Countdown(s) && i < |s.wrappers| && s.wrappers[i].Working?
    ensures Countdown(RecordOutcome(s, outcome, i))
  {
    var s' := RecordOutcome(s, outcome, i);
    LeftUpdate(s.wrappers, i, Recorded);
    assert s'.remaining == s.remaining && s'.log.last == s.log.last && s'.wrappers == s.wrappers[i := Recorded];
  }

  lemma RecordKeepsWakeUps<T, E>(s: State<T, E>, outcome: nat -> Outcome<T, E>, i: nat)
    requires Recordings(s, outcome) && WakeUps(s) && i < |s.wrappers| && s.wrappers[i].Working?
    ensures WakeUps(RecordOutcome(s, outcome, i))
  {
    var s' := RecordOutcome(s, outcome, i);
    assert s'.remaining == s.remaining && s'.awaiter == s.awaiter && s'.scheduled == s.scheduled;
    assert s'.log == s.log.(failed := s'.log.failed) && s'.wrappers == s.wrappers[i := Recorded];
    assert LastLooked(s') == LastLooked(s);
  }

  lemma RecordKeeps<T, E>(s: State<T, E>, outcome: nat -> Outcome<T, E>, i: nat)
    requires Inv(s, outcome) && Exec(s, outcome, Record(i)).Some?
    ensures Inv(Exec(s, outcome, Record(i)).value, outcome)
  {
    RecordKeepsRecordings(s, outcome, i);
    RecordKeepsCountdown(s, outcome, i);
    RecordKeepsWakeUps(s, outcome, i);
  }

  lemma DecrementKeeps<T, E>(s: State<T, E>, outcome: nat -> Outcome<T, E>, i: nat)
    requires Inv(s, outcome) && Exec(s, outcome, Decrement(i)).Some?
    ensures Inv(Exec(s, outcome, Decrement(i)).value, outcome)
  {
    LeftUpdate(s.wrappers, i, Decremented(s.remaining == 1));
  }

  /** The state behind a look, with `one` more scheduling. */
  function Looked<T, E>(s: State<T, E>, i: nat, one: bool): State<T, E>
    requires i < |s.wrappers|
  {
    var s' := s.(wrappers := s.wrappers[i := Finished]);
    if one then s'.(scheduled := s.scheduled + 1, log := s.log.(byWrapper := true)) else s'
  }

  lemma LookKeepsRecordings<T, E>(s: State<T, E>, outcome: nat -> Outcome<T, E>, i: nat, one: bool)
    requires Recordings(s, outcome) && i < |s.wrappers| && s.wrappers[i].Decremented?
    ensures Recordings(Looked(s, i, one), outcome)
  {
  }

  lemma LookKeepsCountdown<T, E>(s: State<T, E>, i: nat, one: bool)
    requires Countdown(s) && i < |s.wrappers| && s.wrappers[i].Decremented?
    ensures Countdown(Looked(s, i, one))
  {
    LeftUpdate(s.wrappers, i, Finished);
  }

  lemma LookKeepsWakeUps<T, E>(s: State<T, E>, i: nat)
    requires Countdown(s) && WakeUps(s) && i < |s.wrappers| && s.wrappers[i].Decremented?
    ensures WakeUps(Looked(s, i, s.wrappers[i].last && HasContinuation(s) && s.hasScheduler))
  {
    if s.wrappers[i].last {
      assert s.log.last == Some(i) && !LastLooked(s);
    } else {
      assert s.log.last != Some(i);
    }
  }

  lemma LookKeeps<T, E>(s: State<T, E>, outcome: nat -> Outcome<T, E>, i: nat)
    requires Inv(s, outcome) && Exec(s, outcome, Look(i)).Some?
    ensures Inv(Exec(s, outcome, Look(i)).value, outcome)
  {
    var one := s.wrappers[i].last && HasContinuation(s) && s.hasScheduler;
    assert Exec(s, outcome, Look(i)) == Some(Looked(s, i, one));
    LookKeepsRecordings(s, outcome, i, one);
    LookKeepsCountdown(s, i, one);
    LookKeepsWakeUps(s, i);
  }

  lemma StepKeepsInv<T, E>(s: State<T, E>, outcome: nat -> Outcome<T, E>, e: Event)
    requires Inv(s, outcome) && Exec(s, outcome, e).Some?
    ensures Inv(Exec(s, outcome, e).value, outcome)
  {
    match e
    case Record(i) => RecordKeeps(s, outcome, i);
    case Decrement(i) => DecrementKeeps(s, outcome, i);
    case Look(i) => LookKeeps(s, outcome, i);
    case _ =>
  }

  /** A state some run of when_all over n tasks leads to. */
  ghost predicate Reached<T, E>(
    s: State<T, E>, n: nat, hasScheduler: bool, outcome: nat -> Outcome<T, E>, es: seq<Event>)
  {
    Run(Init(n, hasScheduler), outcome, es) == Some(s)
  }

  lemma {:induction false} RunKeepsSize<T, E>(s: State<T, E>, outcome: nat -> Outcome<T, E>, es: seq<Event>)
    requires |s.wrappers| == |s.results| && Run(s, outcome, es).Some?
    ensures var t := Run(s, outcome, es).value;
            |t.wrappers| == |t.results| == |s.wrappers| && t.hasScheduler == s.hasScheduler
    decreases |es|
  {
    if es != [] {
      RunKeepsSize(Exec(s, outcome, es[0]).value, outcome, es[1..]);
    }
  }

  lemma {:induction false} RunKeepsInv<T, E>(s: State<T, E>, outcome: nat -> Outcome<T, E>, es: seq<Event>)
    requires |s.wrappers| == |s.results| && Inv(s, outcome) && Run(s, outcome, es).Some?
    ensures Inv(Run(s, outcome, es).value, outcome)
    decreases |es|
  {
    if es != [] {
      StepKeepsInv(s, outcome, es[0]);
      RunKeepsInv(Exec(s, outcome, es[0]).value, outcome, es[1..]);
    }
  }

  lemma ReachedInv<T, E>(s: State<T, E>, n: nat, hasScheduler: bool, outcome: nat -> Outcome<T, E>, es: seq<Event>)
    requires Reached(s, n, hasScheduler, outcome, es)
    ensures Inv(s, outcome) && |s.wrappers| == n && s.hasScheduler == hasScheduler
  {
    InitInv(n, hasScheduler, outcome);
    RunKeepsSize(Init(n, hasScheduler), outcome, es);
    RunKeepsInv(Init(n, hasScheduler), outcome, es);
  }

  /** The countdown never underflows: whoever is about to decrement finds it above zero. */
  lemma NoUnderflow<T, E>(
    s: State<T, E>, n: nat, hasScheduler: bool, outcome: nat -> Outcome<T, E>, es: seq<Event>, i: nat)
    requires Reached(s, n, hasScheduler, outcome, es) && i < |s.wrappers| && s.wrappers[i].Recorded?
    ensures s.remaining > 0
  {
    ReachedInv(s, n, hasScheduler, outcome, es);
    LeftZero(s.wrappers);
  }

  /** The continuation is scheduled only after every wrapper is done, and at most twice. */
  lemma ScheduledOnlyWhenDone<T, E>(
    s: State<T, E>, n: nat, hasScheduler: bool, outcome: nat -> Outcome<T, E>, es: seq<Event>)
    requires Reached(s, n, hasScheduler, outcome, es)
    ensures |s.wrappers| == n
    ensures s.scheduled > 0 || s.awaiter.Direct? ==> forall i :: 0 <= i < n ==> Counted(s.wrappers[i])
    ensures s.scheduled <= 2
    ensures s.awaiter.Direct? ==> s.scheduled == 0
  {
    ReachedInv(s, n, hasScheduler, outcome, es);
    LeftZero(s.wrappers);
  }

  /**
   * No lost wake-up: once the wrappers have finished, a suspended awaiter has
   * been scheduled at least once; the only way to miss it is to have no scheduler.
   */
  lemma NoLostWakeUp<T, E>(s: State<T, E>, n: nat, hasScheduler: bool, outcome: nat -> Outcome<T, E>, es: seq<Event>)
    requires Reached(s, n, hasScheduler, outcome, es)
    requires s.awaiter.Waiting? && forall i :: 0 <= i < |s.wrappers| ==> s.wrappers[i].Finished?
    ensures s.scheduled >= 1 <==> hasScheduler
  {
    ReachedInv(s, n, hasScheduler, outcome, es);
    LeftZero(s.wrappers);
  }

  /** The failure an event records, if it does. */
  function Failure<T, E>(outcome: nat -> Outcome<T, E>, e: Event): seq<nat> {
    if e.Record? && outcome(e.i).Failed? then [e.i] else []
  }

  /** The wrappers that fail, in the order in which the events let them record. */
  function Failures<T, E>(outcome: nat -> Outcome<T, E>, es: seq<Event>): seq<nat> {
    if es == [] then []
    else Failure(outcome, es[0]) + Failures(outcome, es[1..])
  }

  lemma FailureRecorded<T, E>(s: State<T, E>, outcome: nat -> Outcome<T, E>, e: Event)
    requires |s.wrappers| == |s.results| && Exec(s, outcome, e).Some?
    ensures Exec(s, outcome, e).value.log.failed == s.log.failed + Failure(outcome, e)
  {
  }

  lemma Regroup(a: seq<nat>, b: seq<nat>, c: seq<nat>)
    ensures (a + b) + c == a + (b + c)
  {
  }

  /** The log of failures is the record of the run. */
  lemma {:induction false} FailuresAreRecorded<T, E>(s: State<T, E>, outcome: nat -> Outcome<T, E>, es: seq<Event>)
    requires |s.wrappers| == |s.results| && Run(s, outcome, es).Some?
    ensures Run(s, outcome, es).value.log.failed == s.log.failed + Failures(outcome, es)
    decreases |es|
  {
    if es == [] {
      assert s.log.failed + [] == s.log.failed;
    } else {
      var e, later := es[0], es[1..];
      FailureRecorded(s, outcome, e);
      FailuresAreRecorded(Exec(s, outcome, e).value, outcome, later);
      Regroup(s.log.failed, Failure(outcome, e), Failures(outcome, later));
    }
  }

  lemma ReachedFailures<T, E>(
    s: State<T, E>, n: nat, hasScheduler: bool, outcome: nat -> Outcome<T, E>, es: seq<Event>)
    requires Reached(s, n, hasScheduler, outcome, es)
    ensures s.log.failed == Failures(outcome, es)
  {
    FailuresAreRecorded(Init(n, hasScheduler), outcome, es);
    assert [] + Failures(outcome, es) == Failures(outcome, es);
  }

  /**
   * What the resumed awaiter returns: the values in index order, whatever the
   * order of completion; or the exception of the first wrapper to record one.
   */
  lemma ResumesWithResults<T, E>(
    s: State<T, E>, n: nat, hasScheduler: bool, outcome: nat -> Outcome<T, E>, es: seq<Event>)
    requires Reached(s, n, hasScheduler, outcome, es) && (s.scheduled > 0 || s.awaiter.Direct?)
    ensures s.exceptions == [] ==> forall i :: 0 <= i < |s.results| ==> s.results[i].Some?
    ensures (forall i :: 0 <= i < n ==> outcome(i).Value?) ==>
              AwaitResume(s) == Value(seq(n, i requires 0 <= i < n => outcome(i).v))
    ensures (exists i :: 0 <= i < n && outcome(i).Failed?) ==>
              var failures := Failures(outcome, es);
              && failures != [] && failures[0] < n
              && outcome(failures[0]).Failed? && AwaitResume(s) == Failed(outcome(failures[0]).e)
  {
    ReachedFailures(s, n, hasScheduler, outcome, es);
    ReachedInv(s, n, hasScheduler, outcome, es);
    ScheduledOnlyWhenDone(s, n, hasScheduler, outcome, es);
    forall i | 0 <= i < n ensures !s.wrappers[i].Working? {
      assert Counted(s.wrappers[i]);
    }
    AllRecorded(s, n, outcome);
  }

  lemma AllRecorded<T, E>(s: State<T, E>, n: nat, outcome: nat -> Outcome<T, E>)
    requires Recordings(s, outcome) && |s.wrappers| == n && forall i :: 0 <= i < n ==> !s.wrappers[i].Working?
    ensures s.exceptions == [] ==> forall i :: 0 <= i < |s.results| ==> s.results[i].Some?
    ensures (forall i :: 0 <= i < n ==> outcome(i).Value?) ==>
              AwaitResume(s) == Value(seq(n, i requires 0 <= i < n => outcome(i).v))
    ensures (exists i :: 0 <= i < n && outcome(i).Failed?) ==>
              && s.log.failed != [] && s.log.failed[0] < n
              && outcome(s.log.failed[0]).Failed? && AwaitResume(s) == Failed(outcome(s.log.failed[0]).e)
  {
    if s.log.failed != [] {
      assert s.log.failed[0] < n && outcome(s.log.failed[0]) == Failed(s.exceptions[0]);
    } else {
      assert s.exceptions == [];
      forall i | 0 <= i < n ensures outcome(i).Value? && s.results[i] == Some(outcome(i).v) {
        assert outcome(i).Failed? ==> i in s.log.failed;
      }
      assert AwaitResume(s).v == seq(n, i requires 0 <= i < n => outcome(i).v);
    }
  }

  /** No interleaving is left out: each wrapper goes on as soon as it can, and so does the awaiter. */
  lemma EveryMoveIsThere<T, E>(
    s: State<T, E>, n: nat, hasScheduler: bool, outcome: nat -> Outcome<T, E>, es: seq<Event>, i: nat)
    requires Reached(s, n, hasScheduler, outcome, es) && i < n
    ensures |s.wrappers| == |s.results| == n
    ensures Exec(s, outcome, Record(i)).Some? <==> s.wrappers[i].Working?
    ensures Exec(s, outcome, Decrement(i)).Some? <==> s.wrappers[i].Recorded?
    ensures Exec(s, outcome, Look(i)).Some? <==> s.wrappers[i].Decremented?
    ensures Exec(s, outcome, Ready).Some? <==> s.awaiter.Starting?
    ensures Exec(s, outcome, Store).Some? <==> s.awaiter.Suspending?
    ensures Exec(s, outcome, Recheck).Some? <==> s.awaiter.Stored?
  {
    ReachedInv(s, n, hasScheduler, outcome, es);
    if s.wrappers[i].Recorded? {
      NoUnderflow(s, n, hasScheduler, outcome, es, i);
    }
  }

  // ---------------------------------------------------- scheduled just once

  ghost predicate NeverScheduledTwice<T(!new), E(!new)>(n: nat, hasScheduler: bool, outcome: nat -> Outcome<T, E>) {
    forall s: State<T, E>, es: seq<Event> :: Reached(s, n, hasScheduler, outcome, es) ==> s.scheduled <= 1
  }

  lemma Chain<T, E>(s: State<T, E>, outcome: nat -> Outcome<T, E>, e: Event, es: seq<Event>)
    requires |s.wrappers| == |s.results| && Exec(s, outcome, e).Some?
    ensures Run(s, outcome, [e] + es) == Run(Exec(s, outcome, e).value, outcome, es)
  {
    assert ([e] + es)[1..] == es;
  }

  /** Wrappers that have recorded and counted down, and have not looked; the rest still works. */
  ghost predicate CountedUpTo<T, E>(s: State<T, E>, i: nat) {
    && i <= |s.wrappers| == |s.results|
    && (forall j :: 0 <= j < i ==> s.wrappers[j].Decremented?)
    && (forall j :: i <= j < |s.wrappers| ==> s.wrappers[j].Working?)
  }

  /** One wrapper after another runs up to its decrement. */
  lemma {:induction false} CountDownFrom<T, E>(s: State<T, E>, outcome: nat -> Outcome<T, E>, i: nat)
    returns (t: State<T, E>, es: seq<Event>)
    requires Inv(s, outcome) && CountedUpTo(s, i) && s.awaiter.Stored?
    ensures Run(s, outcome, es) == Some(t) && Inv(t, outcome)
    ensures CountedUpTo(t, |s.wrappers|) && |t.wrappers| == |s.wrappers| && t.awaiter.Stored?
    ensures t.hasScheduler == s.hasScheduler && t.scheduled == s.scheduled
    decreases |s.wrappers| - i
  {
    if i == |s.wrappers| {
      t, es := s, [];
    } else {
      var s1, s2 := OneCountsDown(s, outcome, i);
      t, es := CountDownFrom(s2, outcome, i + 1);
      Chain(s1, outcome, Decrement(i), es);
      Chain(s, outcome, Record(i), [Decrement(i)] + es);
      es := [Record(i)] + ([Decrement(i)] + es);
    }
  }

  /** What the steps of wrappers up to their decrement leave alone. */
  ghost predicate SameBut<T, E>(s: State<T, E>, t: State<T, E>, i: nat) {
    && |t.wrappers| == |s.wrappers| && |t.results| == |s.results|
    && t.awaiter == s.awaiter && t.hasScheduler == s.hasScheduler && t.scheduled == s.scheduled
    && forall j :: 0 <= j < |s.wrappers| && j != i ==> t.wrappers[j] == s.wrappers[j]
  }

  lemma RecordOf<T, E>(s: State<T, E>, outcome: nat -> Outcome<T, E>, i: nat) returns (t: State<T, E>)
    requires Inv(s, outcome) && i < |s.wrappers| && s.wrappers[i].Working?
    ensures Exec(s, outcome, Record(i)) == Some(t) && Inv(t, outcome)
    ensures SameBut(s, t, i) && t.wrappers[i].Recorded?
  {
    t := Exec(s, outcome, Record(i)).value;
    RecordKeeps(s, outcome, i);
  }

  lemma DecrementOf<T, E>(s: State<T, E>, outcome: nat -> Outcome<T, E>, i: nat) returns (t: State<T, E>)
    requires Inv(s, outcome) && i < |s.wrappers| && s.wrappers[i].Recorded?
    ensures Exec(s, outcome, Decrement(i)) == Some(t) && Inv(t, outcome)
    ensures SameBut(s, t, i) && t.wrappers[i].Decremented?
  {
    LeftZero(s.wrappers);
    t := Exec(s, outcome, Decrement(i)).value;
    DecrementKeeps(s, outcome, i);
  }

  lemma OneCountsDown<T, E>(s: State<T, E>, outcome: nat -> Outcome<T, E>, i: nat)
    returns (s1: State<T, E>, s2: State<T, E>)
    requires Inv(s, outcome) && CountedUpTo(s, i) && i < |s.wrappers|
    ensures |s1.wrappers| == |s1.results|
    ensures Exec(s, outcome, Record(i)) == Some(s1) && Exec(s1, outcome, Decrement(i)) == Some(s2)
    ensures Inv(s2, outcome) && CountedUpTo(s2, i + 1) && SameBut(s, s2, i)
  {
    s1 := RecordOf(s, outcome, i);
    s2 := DecrementOf(s1, outcome, i);
  }

  /** With everybody counted and the handle stored, awaiter and last wrapper both schedule. */
  lemma BothSchedule<T, E>(s: State<T, E>, outcome: nat -> Outcome<T, E>)
    returns (t: State<T, E>, es: seq<Event>)
    requires Inv(s, outcome) && CountedUpTo(s, |s.wrappers|) && |s.wrappers| > 0
    requires s.awaiter.Stored? && s.hasScheduler && s.scheduled == 0
    ensures Run(s, outcome, es) == Some(t) && t.scheduled == 2
  {
    LeftZero(s.wrappers);
    var last := s.log.last.value;
    assert s.wrappers[last] == Decremented(true);
    var s1 := Exec(s, outcome, Recheck).value;
    t := Exec(s1, outcome, Look(last)).value;
    Chain(s1, outcome, Look(last), []);
    Chain(s, outcome, Recheck, [Look(last)]);
    es := [Recheck] + ([Look(last)] + []);
    assert [Look(last)] + [] == [Look(last)];
  }

  lemma {:induction false} RunsCompose<T, E>(
    s: State<T, E>, outcome: nat -> Outcome<T, E>, es: seq<Event>, more: seq<Event>)
    requires |s.wrappers| == |s.results| && Run(s, outcome, es).Some?
    ensures |Run(s, outcome, es).value.wrappers| == |Run(s, outcome, es).value.results|
    ensures Run(s, outcome, es + more) == Run(Run(s, outcome, es).value, outcome, more)
    decreases |es|
  {
    if es == [] {
      assert [] + more == more;
    } else {
      assert (es + more)[1..] == es[1..] + more;
      RunsCompose(Exec(s, outcome, es[0]).value, outcome, es[1..], more);
    }
  }

  /** For every n above zero: the awaiter stores its handle, all wrappers count down, and both sides fire. */
  lemma TwiceScheduled<T, E>(n: nat, outcome: nat -> Outcome<T, E>) returns (t: State<T, E>, es: seq<Event>)
    requires n > 0
    ensures Reached(t, n, true, outcome, es) && t.scheduled == 2
  {
    var s0: State<T, E> := Init(n, true);
    var s1 := Exec(s0, outcome, Ready).value;
    var s2 := Exec(s1, outcome, Store).value;
    InitInv(n, true, outcome);
    StepKeepsInv(s0, outcome, Ready);
    StepKeepsInv(s1, outcome, Store);
    var s3, down := CountDownFrom(s2, outcome, 0);
    var both;
    t, both := BothSchedule(s3, outcome);
    RunsCompose(s2, outcome, down, both);
    Chain(s1, outcome, Store, down + both);
    Chain(s0, outcome, Ready, [Store] + (down + both));
    es := [Ready] + ([Store] + (down + both));
  }

  /** The continuation is scheduled just once in every run exactly when there is nothing to wait for or no scheduler. */
  lemma ScheduledTwiceWhen<T(!new), E(!new)>(n: nat, hasScheduler: bool, outcome: nat -> Outcome<T, E>)
    ensures NeverScheduledTwice(n, hasScheduler, outcome) <==> n == 0 || !hasScheduler
  {
    if n == 0 || !hasScheduler {
      forall s: State<T, E>, es: seq<Event> | Reached(s, n, hasScheduler, outcome, es) ensures s.scheduled <= 1 {
        ReachedInv(s, n, hasScheduler, outcome, es);
      }
    } else {
      var t, es := TwiceScheduled(n, outcome);
      assert Reached(t, n, hasScheduler, outcome, es) && t.scheduled > 1;
    }
  }
}
