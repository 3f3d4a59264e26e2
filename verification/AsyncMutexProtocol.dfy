/**
 * The asynchronous mutex: one step per critical section of `internal_mutex`,
 * and one for the hand-over that `unlock` carries out after leaving it.
 */
module AsyncMutexProtocol {
  import opened AwaiterLists
  import opened Strings

  datatype State = State(
    locked: bool,
    waiters: seq<Id>,
    holders: multiset<Id>,        // coroutines inside the protected section
    handing: seq<Id>,             // waiters chosen by unlock and not yet resumed
    log: Log)

  /** What happened so far; no step looks at it, except that a coroutine asks once. */
  datatype Log = Log(
    seen: set<Id>,
    queued: seq<Id>,              // waiters in the order they enqueued
    removed: set<Id>,             // waiters destroyed while they waited
    owned: seq<Id>,               // coroutines in the order they came to hold the mutex
    released: seq<Id>)            // coroutines in the order they unlocked it

  datatype Event = Lock(a: Id) | TryLock(a: Id, got: bool) | Unlock(a: Id) | HandOver(a: Id) | Destroy(a: Id)

  const INIT := State(false, [], multiset{}, [], Log({}, [], {}, [], []))

  /** `a` goes on as the holder. */
  function Enter(s: State, a: Id): State {
    s.(holders := s.holders + multiset{a}, log := s.log.(owned := s.log.owned + [a]))
  }

  function Acquire(s: State, a: Id): State {
    Enter(s.(locked := true), a)
  }

  /** One step; None when it is not possible in this state. */
  function Exec(s: State, e: Event): Option<State> {
    match e
    case Lock(a) =>
      if a in s.log.seen then None
      else
        var s := s.(log := s.log.(seen := s.log.seen + {a}));
        if !s.locked then Some(Acquire(s, a))
        else Some(s.(waiters := s.waiters + [a], log := s.log.(queued := s.log.queued + [a])))
    case TryLock(a, got) =>
      if a in s.log.seen || got == s.locked then None
      else
        var s := s.(log := s.log.(seen := s.log.seen + {a}));
        Some(if got then Acquire(s, a) else s)
    case Unlock(a) =>
      if a !in s.holders then None
      else
        var s := s.(holders := s.holders - multiset{a}, log := s.log.(released := s.log.released + [a]));
        if s.waiters == [] then Some(s.(locked := false))
        else Some(s.(waiters := s.waiters[1..], handing := s.handing + [s.waiters[0]]))
    case HandOver(a) =>
      if a !in s.handing then None else Some(Enter(s.(handing := Remove(s.handing, a)), a))
    case Destroy(a) =>
      if a in s.waiters
      then Some(s.(waiters := Remove(s.waiters, a), log := s.log.(removed := s.log.removed + {a})))
      else Some(s)
  }

  function Run(s: State, es: seq<Event>): Option<State>
    decreases |es|
  {
    if es == [] then Some(s)
    else
      match Exec(s, es[0])
      case None => None
      case Some(s') => Run(s', es[1..])
  }

  /** Locked means exactly one coroutine has the mutex or is being given it. */
  ghost predicate Ownership(s: State) {
    && |s.holders| + |s.handing| == (if s.locked then 1 else 0)
    && (s.waiters != [] ==> s.locked)
  }

  /** Those of `ids` that are in `among`, in their order. */
  function Only(ids: seq<Id>, among: seq<Id>): seq<Id> {
    if ids == [] then []
    else Only(ids[..|ids| - 1], among) + if ids[|ids| - 1] in among then [ids[|ids| - 1]] else []
  }

  /**
   * The queue that was not destroyed is the waiters that came to hold the mutex,
   * then the one being handed it, then those who wait.
   */
  ghost predicate Fifo(s: State) {
    && Without(s.log.queued, s.log.removed) == Only(s.log.owned, s.log.queued) + s.handing + s.waiters
    && Distinct(s.log.queued) && Distinct(s.log.owned)
    && (forall x :: x in s.log.queued || x in s.log.owned ==> x in s.log.seen)
    && (forall x :: x in s.log.removed ==> x in s.log.queued)
  }

  /** Whoever came to hold the mutex has released it, except the one who holds it. */
  ghost predicate Tenure(s: State) {
    s.log.released <= s.log.owned && s.holders == multiset(s.log.owned[|s.log.released|..])
  }

  lemma StepKeepsOwnership(s: State, e: Event)
    requires Ownership(s) && Exec(s, e).Some?
    ensures Ownership(Exec(s, e).value)
  {
    if e.HandOver? {
      OnlyHandOver(s, e.a);
    }
  }

  lemma OnlyHandOver(s: State, a: Id)
    requires Ownership(s) && a in s.handing
    ensures s.handing == [a] && Remove(s.handing, a) == [] && |s.holders| == 0
  {
    assert |s.handing| == 1;
  }

  lemma OnlySnoc(ids: seq<Id>, id: Id, among: seq<Id>)
    ensures Only(ids + [id], among) == Only(ids, among) + if id in among then [id] else []
  {
    var all := ids + [id];
    assert all[..|all| - 1] == ids && all[|all| - 1] == id;
  }

  lemma {:induction false} OnlyMore(ids: seq<Id>, among: seq<Id>, id: Id)
    requires id !in ids
    ensures Only(ids, among + [id]) == Only(ids, among)
    decreases |ids|
  {
    if ids != [] {
      assert ids[|ids| - 1] in ids;
      OnlyMore(ids[..|ids| - 1], among, id);
    }
  }

  lemma {:induction false} OnlyIn(ids: seq<Id>, among: seq<Id>)
    ensures forall x :: x in Only(ids, among) <==> x in ids && x in among
    decreases |ids|
  {
    if ids != [] {
      var init, last := ids[..|ids| - 1], ids[|ids| - 1];
      assert ids == init + [last];
      OnlyIn(init, among);
    }
  }

  lemma DistinctSnoc(ids: seq<Id>, id: Id)
    requires Distinct(ids) && id !in ids
    ensures Distinct(ids + [id])
  {
  }

  lemma AcquireKeepsFifo(s: State, a: Id)
    requires Fifo(s) && a !in s.log.seen
    ensures Fifo(Acquire(s.(log := s.log.(seen := s.log.seen + {a})), a))
  {
    OnlySnoc(s.log.owned, a, s.log.queued);
    DistinctSnoc(s.log.owned, a);
  }

  lemma QueueKeepsFifo(s: State, a: Id)
    requires Fifo(s) && a !in s.log.seen
    ensures Fifo(s.(waiters := s.waiters + [a],
                    log := s.log.(seen := s.log.seen + {a}, queued := s.log.queued + [a])))
  {
    WithoutSnoc(s.log.queued, a, s.log.removed);
    OnlyMore(s.log.owned, s.log.queued, a);
    DistinctSnoc(s.log.queued, a);
    Assoc(Only(s.log.owned, s.log.queued) + s.handing, s.waiters, [a]);
  }

  lemma UnlockKeepsFifo(s: State, a: Id)
    requires Fifo(s) && a in s.holders
    ensures Fifo(Exec(s, Unlock(a)).value)
  {
    if s.waiters != [] {
      Advance(Only(s.log.owned, s.log.queued), s.handing, s.waiters);
    }
  }

  lemma Advance(first: seq<Id>, handing: seq<Id>, waiters: seq<Id>)
    requires waiters != []
    ensures first + handing + waiters == first + (handing + [waiters[0]]) + waiters[1..]
  {
  }

  lemma HandOverKeepsFifo(s: State, a: Id)
    requires Fifo(s) && Ownership(s) && a in s.handing
    ensures Fifo(Exec(s, HandOver(a)).value)
  {
    var all, first := Without(s.log.queued, s.log.removed), Only(s.log.owned, s.log.queued);
    OnlyHandOver(s, a);
    assert s.handing == [a];
    assert all == first + [a] + [] + s.waiters;
    WithoutDistinct(s.log.queued, s.log.removed);
    WithoutIn(s.log.queued, s.log.removed);
    assert all[|first|] == a && a in all;
    OnlyIn(s.log.owned, s.log.queued);
    NotTwice(first, a, s.waiters);
    OnlySnoc(s.log.owned, a, s.log.queued);
    DistinctSnoc(s.log.owned, a);
  }

  lemma NotTwice(first: seq<Id>, a: Id, last: seq<Id>)
    requires Distinct(first + [a] + [] + last)
    ensures a !in first
  {
    var all := first + [a] + [] + last;
    assert all[|first|] == a;
    assert forall i :: 0 <= i < |first| ==> all[i] == first[i];
  }

  lemma DestroyKeepsFifo(s: State, a: Id)
    requires Fifo(s) && a in s.waiters
    ensures Fifo(Exec(s, Destroy(a)).value)
  {
    var head := Only(s.log.owned, s.log.queued) + s.handing;
    WithoutIn(s.log.queued, s.log.removed);
    assert a in head + s.waiters;
    CancelFromTail(s.log.queued, s.log.removed, head, s.waiters, a);
  }

  lemma StepKeepsFifo(s: State, e: Event)
    requires Fifo(s) && Ownership(s) && Exec(s, e).Some?
    ensures Fifo(Exec(s, e).value)
  {
    match e
    case Lock(a) =>
      if s.locked {
        QueueKeepsFifo(s, a);
      } else {
        AcquireKeepsFifo(s, a);
      }
    case TryLock(a, got) =>
      if got {
        AcquireKeepsFifo(s, a);
      }
    case Unlock(a) => UnlockKeepsFifo(s, a);
    case HandOver(a) => HandOverKeepsFifo(s, a);
    case Destroy(a) =>
      if a in s.waiters {
        DestroyKeepsFifo(s, a);
      }
  }

  lemma EnterKeepsTenure(s: State, a: Id)
    requires Tenure(s)
    ensures Tenure(Enter(s, a))
  {
    var n := |s.log.released|;
    assert (s.log.owned + [a])[n..] == s.log.owned[n..] + [a];
  }

  lemma UnlockKeepsTenure(s: State, a: Id)
    requires Tenure(s) && Ownership(s) && a in s.holders
    ensures Tenure(Exec(s, Unlock(a)).value)
  {
    var n, current := |s.log.released|, s.log.owned[|s.log.released|..];
    assert a in current && |current| == |s.holders| == 1;
    assert s.log.owned[..n + 1] == s.log.owned[..n] + [a];
    assert current == [a] && s.log.owned[n + 1..] == [];
  }

  lemma AcquireKeepsTenure(s: State, a: Id)
    requires Tenure(s)
    ensures Tenure(Acquire(s.(log := s.log.(seen := s.log.seen + {a})), a))
  {
    EnterKeepsTenure(s.(locked := true, log := s.log.(seen := s.log.seen + {a})), a);
  }

  lemma StepKeepsTenure(s: State, e: Event)
    requires Tenure(s) && Ownership(s) && Exec(s, e).Some?
    ensures Tenure(Exec(s, e).value)
  {
    match e
    case Unlock(a) => UnlockKeepsTenure(s, a);
    case HandOver(a) => EnterKeepsTenure(s.(handing := Remove(s.handing, a)), a);
    case Destroy(a) =>
    case Lock(a) =>
      if !s.locked {
        AcquireKeepsTenure(s, a);
      }
    case TryLock(a, got) =>
      if got {
        AcquireKeepsTenure(s, a);
      }
  }

  ghost predicate Inv(s: State) {
    Ownership(s) && Fifo(s) && Tenure(s)
  }

  lemma StepKeepsInv(s: State, e: Event)
    requires Inv(s) && Exec(s, e).Some?
    ensures Inv(Exec(s, e).value)
  {
    StepKeepsOwnership(s, e);
    StepKeepsFifo(s, e);
    StepKeepsTenure(s, e);
  }

  lemma {:induction false} RunKeeps(s: State, es: seq<Event>)
    requires Inv(s) && Run(s, es).Some?
    ensures Inv(Run(s, es).value)
    decreases |es|
  {
    if es != [] {
      StepKeepsInv(s, es[0]);
      RunKeeps(Exec(s, es[0]).value, es[1..]);
    }
  }

  ghost predicate Reached(s: State, es: seq<Event>) {
    Run(INIT, es) == Some(s)
  }

  lemma ReachedInv(s: State, es: seq<Event>)
    requires Reached(s, es)
    ensures Inv(s)
  {
    RunKeeps(INIT, es);
  }

  /**
   * Never two holders, nobody waits for a free mutex; and over time: whoever held
   * the mutex released it before the next one came to hold it.
   */
  lemma MutualExclusion(s: State, es: seq<Event>)
    requires Reached(s, es)
    ensures |s.holders| + |s.handing| == (if s.locked then 1 else 0)
    ensures s.waiters != [] ==> s.locked
    ensures s.log.released <= s.log.owned && |s.log.owned| - |s.log.released| == |s.holders|
    ensures s.holders == multiset(s.log.owned[|s.log.released|..])
  {
    ReachedInv(s, es);
  }

  /**
   * The mutex is handed on in the order of queueing: the waiters that were not
   * destroyed are those who came to hold it, in that order, then the one unlock
   * has chosen, then those still waiting. Nobody comes to hold it twice.
   */
  lemma HandOffInOrder(s: State, es: seq<Event>)
    requires Reached(s, es)
    ensures Without(s.log.queued, s.log.removed) == Only(s.log.owned, s.log.queued) + s.handing + s.waiters
    ensures Distinct(s.log.owned) && |s.handing| <= 1
  {
    ReachedInv(s, es);
  }

  /** While anybody waits or a hand-over is under way, try_lock fails and a new lock queues behind. */
  lemma NobodyOvertakes(s: State, es: seq<Event>, a: Id)
    requires Reached(s, es) && a !in s.log.seen && (s.waiters != [] || |s.handing| > 0)
    ensures Exec(s, TryLock(a, true)) == None
    ensures Exec(s, Lock(a)).value.waiters == s.waiters + [a] && Exec(s, Lock(a)).value.holders == s.holders
  {
    ReachedInv(s, es);
  }

  /** A coroutine that has not asked yet: try_lock gets the mutex exactly when nobody has it or is being given it. */
  lemma TryLockWhenFree(s: State, es: seq<Event>, a: Id)
    requires Reached(s, es) && a !in s.log.seen
    ensures Exec(s, TryLock(a, true)).Some? <==> |s.holders| + |s.handing| == 0
    ensures Exec(s, TryLock(a, false)).Some? <==> |s.holders| + |s.handing| == 1
    ensures |s.holders| + |s.handing| == 0 ==>
              var t := Exec(s, TryLock(a, true)).value;
              t.locked && t.holders == multiset{a} && t.waiters == s.waiters && t.handing == s.handing
    ensures |s.holders| + |s.handing| == 1 ==>
              Exec(s, TryLock(a, false)).value == s.(log := s.log.(seen := s.log.seen + {a}))
  {
    MutualExclusion(s, es);
  }

  /** And lock gets it then too, and waits behind everybody else otherwise. */
  lemma LockOrQueue(s: State, es: seq<Event>, a: Id)
    requires Reached(s, es) && a !in s.log.seen
    ensures Exec(s, Lock(a)).Some?
    ensures var t := Exec(s, Lock(a)).value;
            if |s.holders| + |s.handing| == 0 then t.locked && t.holders == multiset{a} && t.waiters == s.waiters
            else t.locked && t.holders == s.holders && t.handing == s.handing && t.waiters == s.waiters + [a]
  {
    MutualExclusion(s, es);
  }

  /** No interleaving is left out: the holder can unlock, the waiter chosen go on, any awaiter be destroyed. */
  lemma EveryMoveIsThere(s: State, es: seq<Event>, a: Id)
    requires Reached(s, es)
    ensures Exec(s, Unlock(a)).Some? <==> a in s.holders
    ensures Exec(s, HandOver(a)).Some? <==> a in s.handing
    ensures Exec(s, Destroy(a)).Some?
    ensures a in s.handing ==>
              var t := Exec(s, HandOver(a)).value;
              t.holders == multiset{a} && t.handing == [] && t.locked && t.waiters == s.waiters
  {
    ReachedInv(s, es);
    if a in s.handing {
      OnlyHandOver(s, a);
    }
  }

  lemma WaitersDistinct(s: State)
    requires Fifo(s)
    ensures Distinct(s.waiters)
  {
    WithoutDistinct(s.log.queued, s.log.removed);
    var front := Only(s.log.owned, s.log.queued) + s.handing;
    assert forall i :: 0 <= i < |s.waiters| ==> (front + s.waiters)[|front| + i] == s.waiters[i];
  }

  /** A waiter destroyed leaves the queue; the others stay, in order, and nothing else happens. */
  lemma DestroyedLeaves(s: State, es: seq<Event>, a: Id)
    requires Reached(s, es) && a in s.waiters
    ensures var t := Exec(s, Destroy(a)).value;
            && LostOne(s.waiters, t.waiters, a) && a !in t.waiters
            && t == s.(waiters := t.waiters, log := s.log.(removed := s.log.removed + {a}))
  {
    ReachedInv(s, es);
    WaitersDistinct(s);
    RemoveTakesOne(s.waiters, a);
  }

  lemma {:induction false} RemovedStays(s: State, es: seq<Event>)
    requires Run(s, es).Some?
    ensures s.log.removed <= Run(s, es).value.log.removed
    decreases |es|
  {
    if es != [] {
      RemovedStays(Exec(s, es[0]).value, es[1..]);
    }
  }

  /** Whoever is destroyed while waiting never comes to hold the mutex and is never chosen. */
  lemma DestroyedForGood(s: State, es: seq<Event>, a: Id, later: seq<Event>, t: State)
    requires Reached(s, es) && a in s.waiters
    requires Run(s, [Destroy(a)] + later) == Some(t)
    ensures a !in t.waiters && a !in t.handing && a !in t.holders && a !in t.log.owned
  {
    ReachedInv(s, es);
    assert ([Destroy(a)] + later)[1..] == later;
    var after := Exec(s, Destroy(a)).value;
    StepKeepsInv(s, Destroy(a));
    RunKeeps(after, later);
    RemovedStays(after, later);
    RemovedIsOut(t, a);
  }

  lemma RemovedIsOut(s: State, a: Id)
    requires Inv(s) && a in s.log.removed
    ensures a !in s.waiters && a !in s.handing && a !in s.holders && a !in s.log.owned
  {
    WithoutIn(s.log.queued, s.log.removed);
    var kept := Without(s.log.queued, s.log.removed);
    assert a !in kept;
    OnlyIn(s.log.owned, s.log.queued);
    assert forall x :: x in Only(s.log.owned, s.log.queued) ==> x in kept;
    assert forall x :: x in s.holders ==> x in s.log.owned;
  }

  /** acquire_for_notify, and the condition variable's waiter that goes on as the holder. */
  function AcquireForNotify(s: State, a: Id): State {
    Acquire(s, a)
  }

  /** It takes the mutex whoever holds it: exclusion survives exactly when the mutex was free. */
  lemma NotifyNeedsFreeMutex(s: State, es: seq<Event>, a: Id)
    requires Reached(s, es)
    ensures |AcquireForNotify(s, a).holders| + |AcquireForNotify(s, a).handing| == 1 <==> !s.locked
  {
    MutualExclusion(s, es);
  }

  // ------------------------------------------------------------ the object

  lemma {:induction false} RunSnoc(s: State, es: seq<Event>, e: Event)
    requires Run(s, es).Some?
    ensures Run(s, es + [e]) == Exec(Run(s, es).value, e)
    decreases |es|
  {
    if es == [] {
      assert ([] + [e])[1..] == [];
      var r := Exec(s, e);
      assert r.Some? ==> Run(r.value, []) == r;
    } else {
      assert (es + [e])[1..] == es[1..] + [e];
      RunSnoc(Exec(s, es[0]).value, es[1..], e);
    }
  }

  class AsyncMutex {
    var locked: bool
    var waiters: seq<Id>
    ghost var holders: multiset<Id>
    ghost var handing: seq<Id>
    ghost var log: Log
    ghost var trace: seq<Event>

    ghost function View(): State
      reads this
    {
      State(locked, waiters, holders, handing, log)
    }

    ghost predicate Valid()
      reads this
    {
      Reached(View(), trace)
    }

    constructor ()
      ensures Valid() && View() == INIT
    {
      locked, waiters := false, [];
      holders, handing, log, trace := multiset{}, [], Log({}, [], {}, [], []), [];
    }

    /** Takes the ghost part of the step `e`. */
    ghost method Follow(before: State, e: Event)
      requires Reached(before, trace) && Exec(before, e).Some?
      requires locked == Exec(before, e).value.locked && waiters == Exec(before, e).value.waiters
      modifies this`holders, this`handing, this`log, this`trace
      ensures Valid() && Some(View()) == Exec(before, e) && trace == old(trace) + [e]
    {
      RunSnoc(INIT, trace, e);
      var s := Exec(before, e).value;
      holders, handing, log, trace := s.holders, s.handing, s.log, trace + [e];
    }

    /** after_suspend: acquires at once, or queues. */
    method Lock(a: Id) returns (owns: bool)
      requires Valid() && a !in log.seen
      modifies this
      ensures Valid() && Some(View()) == old(Exec(View(), Event.Lock(a)))
      ensures owns == !old(locked) && locked
      ensures owns ==> holders == multiset{a} && waiters == old(waiters)
      ensures !owns ==> holders == old(holders) && handing == old(handing) && waiters == old(waiters) + [a]
    {
      MutualExclusion(View(), trace);
      ghost var before := View();
      owns := !locked;
      if !locked {
        locked := true;
      } else {
        waiters := waiters + [a];
      }
      Follow(before, Event.Lock(a));
    }

    method TryLock(a: Id) returns (got: bool)
      requires Valid() && a !in log.seen
      modifies this
      ensures Valid() && Some(View()) == old(Exec(View(), Event.TryLock(a, got)))
      ensures got == !old(locked) && locked && waiters == old(waiters)
      ensures got ==> old(waiters) == [] && holders == multiset{a}
      ensures !got ==> holders == old(holders) && handing == old(handing)
    {
      MutualExclusion(View(), trace);
      ghost var before := View();
      got := !locked;
      if got {
        locked := true;
      }
      Follow(before, Event.TryLock(a, got));
    }

    /** The rest of unlock, behind the critical section: the waiter chosen goes on as the holder. */
    ghost method GoOn(a: Id)
      requires Valid() && a in handing
      modifies this`holders, this`handing, this`log, this`trace
      ensures Valid() && holders == multiset{a} && handing == []
    {
      EveryMoveIsThere(View(), trace, a);
      Follow(View(), HandOver(a));
    }

    /** Called by the holder; the mutex is free afterwards or belongs to the first waiter. */
    method Unlock(a: Id)
      requires Valid() && a in holders
      modifies this
      ensures Valid()
      ensures handing == []
      ensures old(waiters) == [] ==> !locked && waiters == [] && holders == multiset{}
      ensures old(waiters) != [] ==> locked && waiters == old(waiters)[1..] && holders == multiset{old(waiters)[0]}
    {
      MutualExclusion(View(), trace);
      assert holders == multiset{a} + (holders - multiset{a});
      ghost var before := View();
      var next := None;
      if waiters != [] {
        next := Some(waiters[0]);
        waiters := waiters[1..];
      } else {
        locked := false;
      }
      Follow(before, Event.Unlock(a));
      if next.Some? {
        GoOn(next.value);
      }
    }

    /** The destructor of a queued awaiter. */
    method Destroy(a: Id)
      requires Valid()
      modifies this
      ensures Valid() && locked == old(locked) && holders == old(holders) && handing == old(handing)
      ensures a in old(waiters) ==> LostOne(old(waiters), waiters, a) && a !in waiters
      ensures a !in old(waiters) ==> waiters == old(waiters)
    {
      ghost var before := View();
      if a in waiters {
        DestroyedLeaves(View(), trace, a);
      }
      if a !in waiters {
        RemoveAbsent(waiters, a);
      }
      waiters := Remove(waiters, a);
      Follow(before, Event.Destroy(a));
    }
  }
}
