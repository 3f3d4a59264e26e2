/** What holds of the channel after any run of any number of readers and writers. */
module ChannelTheorems {
  import opened AwaiterLists
  import opened Strings
  import opened ChannelProtocol
  import opened ChannelProofs

  ghost predicate Inv<T>(s: State<T>, val: Id -> T) {
    Shape(s) && Accounts(s) && History(s, val) && Delivered(s) && Answered(s)
  }

  lemma InitInv<T>(capacity: nat, val: Id -> T)
    ensures Inv(Init(capacity), val)
  {
    var s: State<T> := Init(capacity);
    assert Tally(s) == multiset{};
  }

  lemma StepKeepsInv<T>(s: State<T>, val: Id -> T, e: Event)
    requires Inv(s, val) && Exec(s, val, e).Some?
    ensures Inv(Exec(s, val, e).value, val)
  {
    WaitingIsWritten(s, val);
    ShapeKept(s, val, e);
    AccountsKept(s, val, e);
    HistoryKept(s, val, e);
    DeliveredKept(s, val, e);
    AnsweredKept(s, val, e);
  }

  lemma {:induction false} RunKeepsInv<T>(s: State<T>, val: Id -> T, es: seq<Event>)
    requires Inv(s, val) && Run(s, val, es).Some?
    ensures Inv(Run(s, val, es).value, val)
    decreases |es|
  {
    if es != [] {
      StepKeepsInv(s, val, es[0]);
      RunKeepsInv(Exec(s, val, es[0]).value, val, es[1..]);
    }
  }

  /** A state some run of a fresh channel leads to. */
  ghost predicate Reached<T>(s: State<T>, capacity: nat, val: Id -> T, es: seq<Event>) {
    Run(Init(capacity), val, es) == Some(s)
  }

  lemma ReachedInv<T>(s: State<T>, capacity: nat, val: Id -> T, es: seq<Event>)
    requires Reached(s, capacity, val, es)
    ensures Inv(s, val)
  {
    InitInv(capacity, val);
    RunKeepsInv(Init(capacity), val, es);
  }

  /**
   * Conservation: before clean_up, the values of the uncancelled writes, in
   * order, are those taken by reads, then the buffer, then the waiting writers;
   * and every value taken has reached its reader or is on its way to it.
   */
  lemma Conservation<T>(s: State<T>, capacity: nat, val: Id -> T, es: seq<Event>)
    requires Reached(s, capacity, val, es) && !s.phase.Closed?
    ensures Values(val, Without(s.log.wrote, s.log.removed)) == s.log.got + s.buffer + Values(val, s.writers)
    ensures Without(s.log.read, s.log.removed) == s.log.gotBy + s.readers
    ensures |s.log.gotBy| == |s.log.got|
    ensures forall k :: 0 <= k < |s.log.gotBy| ==> AnsweredWith(s, s.log.gotBy[k], s.log.got[k])
    ensures |s.buffer| <= capacity
    ensures s.readers != [] ==> s.buffer == [] && s.writers == []
    ensures s.writers != [] ==> |s.buffer| == capacity
  {
    ReachedInv(s, capacity, val, es);
    CapacityKept(Init(capacity), val, es);
    ValuesAppend(val, s.log.accepted, s.writers);
  }

  lemma {:induction false} CapacityKept<T>(s: State<T>, val: Id -> T, es: seq<Event>)
    requires Run(s, val, es).Some?
    ensures Run(s, val, es).value.capacity == s.capacity
    ensures s.phase.Closed? ==> Run(s, val, es).value.phase.Closed?
    decreases |es|
  {
    if es != [] {
      var s' := Exec(s, val, es[0]).value;
      assert s'.capacity == s.capacity && (s.phase.Closed? ==> s'.phase.Closed?);
      CapacityKept(s', val, es[1..]);
    }
  }

  /** `r` is some k-th of the reads `asked`, and `v` the value of the k-th of the writes `written`. */
  ghost predicate InTurn<T>(val: Id -> T, written: seq<Id>, asked: seq<Id>, r: Id, v: T) {
    exists k :: 0 <= k < |asked| && k < |written| && asked[k] == r && v == val(written[k])
  }

  /** The first `n` of the reads `asked` have, or are about to be given, the values of the writes with their numbers. */
  ghost predicate AnsweredInTurn<T>(s: State<T>, val: Id -> T, written: seq<Id>, asked: seq<Id>, n: nat) {
    && n <= |asked| && n <= |written|
    && forall k :: 0 <= k < n ==> AnsweredWith(s, asked[k], val(written[k]))
  }

  /**
   * Order, in every state, also after close: the k-th uncancelled read gets the
   * value of the k-th uncancelled write. Every read that took a value gets it,
   * and no reader has a value otherwise.
   */
  lemma InOrder<T>(s: State<T>, capacity: nat, val: Id -> T, es: seq<Event>)
    requires Reached(s, capacity, val, es)
    ensures AnsweredInTurn(
              s, val, Without(s.log.wrote, s.log.removed), Without(s.log.read, s.log.removed), |s.log.gotBy|)
    ensures forall r :: r in s.results ==>
              r in s.resumed
              && InTurn(val, Without(s.log.wrote, s.log.removed), Without(s.log.read, s.log.removed), r, s.results[r])
  {
    ReachedInv(s, capacity, val, es);
    OrderedAlways(s, val);
    forall r | r in s.results ensures InTurn(val, Wrote(s), Read(s), r, s.results[r]) {
      TookInTurn(s.log, val, Wrote(s), Read(s), r, s.results[r]);
    }
    forall k | 0 <= k < |s.log.gotBy| ensures AnsweredWith(s, Read(s)[k], val(Wrote(s)[k])) {
      assert AnsweredWith(s, s.log.gotBy[k], s.log.got[k]);
      GotWasWritten(s.log, val, Wrote(s), k);
    }
  }

  lemma GotWasWritten<T>(log: Log<T>, val: Id -> T, written: seq<Id>, k: nat)
    requires k < |log.got| && log.accepted <= written && log.got <= Values(val, log.accepted)
    ensures k < |written| && log.got[k] == val(written[k])
  {
    assert Values(val, log.accepted)[k] == log.got[k];
  }

  /** Before clean_up a read goes on exactly with its value: resumed and answered are the same. */
  lemma ResumedReadsHaveValues<T>(s: State<T>, capacity: nat, val: Id -> T, es: seq<Event>, r: Id)
    requires Reached(s, capacity, val, es) && !s.phase.Closed? && r in s.log.read
    ensures r in s.resumed <==> r in s.results
    ensures r in s.resumed ==>
              InTurn(val, Without(s.log.wrote, s.log.removed), Without(s.log.read, s.log.removed), r, s.results[r])
  {
    ReachedInv(s, capacity, val, es);
    InOrder(s, capacity, val, es);
    if r in s.resumed {
      ResumedIsServed(s, val, r);
      var k :| 0 <= k < |s.log.gotBy| && s.log.gotBy[k] == r;
      assert AnsweredWith(s, r, s.log.got[k]);
      if Owed(r, Some(s.log.got[k])) in s.owed {
        var i :| 0 <= i < |s.owed| && s.owed[i] == Owed(r, Some(s.log.got[k]));
        OwedNotResumed(s, i);
      }
    }
  }

  lemma ResumedIsServed<T>(s: State<T>, val: Id -> T, r: Id)
    requires Accounts(s) && Conserved(s, val) && r in s.log.read && r in s.resumed
    ensures r in s.log.gotBy
  {
    WithoutIn(s.log.read, s.log.removed);
    assert r in Read(s);
    assert Tally(s)[r] <= 1;
    assert r in multiset(s.resumed);
    assert r in s.readers ==> r in multiset(s.readers);
  }

  /** And a write goes on exactly because its value was taken: before clean_up nobody else is resumed. */
  lemma ResumedWritesWereTaken<T>(s: State<T>, capacity: nat, val: Id -> T, es: seq<Event>, w: Id)
    requires Reached(s, capacity, val, es) && !s.phase.Closed? && w in s.log.wrote
    ensures w in s.resumed ==> w in s.log.accepted
    ensures w in s.log.accepted ==> w in s.resumed || w in OwedIds(s.owed)
    ensures w in s.log.accepted <==> w !in s.writers && w !in s.log.removed
  {
    ReachedInv(s, capacity, val, es);
    WithoutIn(s.log.wrote, s.log.removed);
    WithoutDistinct(s.log.wrote, s.log.removed);
    assert w in Wrote(s) <==> w in s.log.accepted || w in s.writers;
    assert Tally(s)[w] <= 1;
    if w in s.log.accepted {
      if w in s.writers {
        InTail(s.log.accepted, s.writers, w);
      }
      AcceptedMovedOn(s, w);
    }
    if w in s.resumed {
      assert w in multiset(s.resumed) && w in Tally(s);
      assert w in s.writers ==> w in multiset(s.writers);
    }
  }

  lemma AcceptedMovedOn<T>(s: State<T>, w: Id)
    requires Accounts(s) && Read(s) == s.log.gotBy + s.readers
    requires w in s.log.wrote && w !in s.log.removed && w !in s.writers
    ensures w in s.resumed || w in OwedIds(s.owed)
  {
    WithoutIn(s.log.read, s.log.removed);
    assert forall x :: x in s.readers ==> x in Read(s);
    assert w in Tally(s);
    assert w in multiset(OwedIds(s.owed)) ==> w in OwedIds(s.owed);
  }

  lemma TookInTurn<T>(log: Log<T>, val: Id -> T, written: seq<Id>, asked: seq<Id>, r: Id, v: T)
    requires Took(log, r, v) && log.accepted <= written && log.gotBy <= asked && log.got <= Values(val, log.accepted)
    ensures InTurn(val, written, asked, r, v)
  {
    var k :| 0 <= k < |log.gotBy| && k < |log.got| && log.gotBy[k] == r && log.got[k] == v;
    assert Values(val, log.accepted)[k] == v;
    assert asked[k] == r && written[k] == log.accepted[k];
  }

  lemma OrderedAlways<T>(s: State<T>, val: Id -> T)
    requires History(s, val)
    ensures Ordered(s, val)
  {
  }

  lemma TallyDistinct(ids: seq<Id>, tally: multiset<Id>)
    requires multiset(ids) <= tally && forall x :: tally[x] <= 1
    ensures Distinct(ids)
  {
    forall i, j | 0 <= i < j < |ids| ensures ids[i] != ids[j] {
      var x := ids[j];
      assert ids == ids[..j] + [x] + ids[j + 1..];
      assert multiset(ids) == multiset(ids[..j]) + multiset{x} + multiset(ids[j + 1..]);
      assert multiset(ids)[x] <= tally[x] <= 1;
      assert x !in multiset(ids[..j]);
      assert ids[i] in ids[..j];
    }
  }

  /** No awaiter is resumed twice, whether by a hand-off, by a later push or by close. */
  lemma ResumedAtMostOnce<T>(s: State<T>, capacity: nat, val: Id -> T, es: seq<Event>)
    requires Reached(s, capacity, val, es)
    ensures Distinct(s.resumed)
    ensures forall i, j :: 0 <= i < |s.owed| && 0 <= j < |s.resumed| ==> s.owed[i].id != s.resumed[j]
  {
    ReachedInv(s, capacity, val, es);
    TallyDistinct(s.resumed, Tally(s));
    forall i, j | 0 <= i < |s.owed| && 0 <= j < |s.resumed| ensures s.owed[i].id != s.resumed[j] {
      assert OwedIds(s.owed)[i] == s.owed[i].id;
      assert s.resumed[j] in multiset(s.resumed);
      assert s.owed[i].id in multiset(OwedIds(s.owed));
      assert Tally(s)[s.resumed[j]] <= 1;
    }
  }

  /**
   * After clean_up both lists stay empty for ever, and every awaiter the channel
   * ever took up has been cancelled, resumed, or is about to be.
   */
  lemma AfterClose<T>(s: State<T>, capacity: nat, val: Id -> T, es: seq<Event>, later: seq<Event>)
    requires Reached(s, capacity, val, es) && s.phase.Closed? && Run(s, val, later).Some?
    ensures var t := Run(s, val, later).value;
            && t.readers == [] && t.writers == [] && t.buffer == []
            && forall x :: x in t.log.wrote || x in t.log.read ==>
                 x in t.log.removed || x in t.resumed || x in OwedIds(t.owed)
  {
    ReachedInv(s, capacity, val, es);
    RunKeepsInv(s, val, later);
    CapacityKept(s, val, later);
    var t := Run(s, val, later).value;
    assert t.phase.Closed? && t.holder == None;
    forall x | (x in t.log.wrote || x in t.log.read) && x !in t.log.removed
      ensures x in t.resumed || x in OwedIds(t.owed)
    {
      assert x in Tally(t);
      assert Tally(t) == multiset(OwedIds(t.owed)) + multiset(t.resumed);
    }
  }

  // ----------------------------------------------------------- cancellation

  lemma WaitersDistinct<T>(s: State<T>)
    requires Accounts(s)
    ensures Distinct(s.readers) && Distinct(s.writers)
  {
    var tally := Tally(s);
    assert multiset(s.readers) <= tally && multiset(s.writers) <= tally;
    TallyDistinct(s.readers, tally);
    TallyDistinct(s.writers, tally);
  }

  /** A reader destroyed while it waits leaves the list; the others stay, in order, and nothing else happens. */
  lemma CancelledReaderLeaves<T>(s: State<T>, capacity: nat, val: Id -> T, es: seq<Event>, r: Id)
    requires Reached(s, capacity, val, es) && s.holder.None? && r in s.readers
    ensures var after := Exec(s, val, CancelReader(r));
            && after.Some?
            && LostOne(s.readers, after.value.readers, r) && r !in after.value.readers
            && after.value == s.(readers := after.value.readers, log := s.log.(removed := s.log.removed + {r}))
  {
    ReachedInv(s, capacity, val, es);
    WaitersDistinct(s);
    RemoveTakesOne(s.readers, r);
  }

  lemma CancelledWriterLeaves<T>(s: State<T>, capacity: nat, val: Id -> T, es: seq<Event>, w: Id)
    requires Reached(s, capacity, val, es) && s.holder.None? && w in s.writers
    ensures var after := Exec(s, val, CancelWriter(w));
            && after.Some?
            && LostOne(s.writers, after.value.writers, w) && w !in after.value.writers
            && after.value == s.(writers := after.value.writers, log := s.log.(removed := s.log.removed + {w}))
  {
    ReachedInv(s, capacity, val, es);
    WaitersDistinct(s);
    RemoveTakesOne(s.writers, w);
  }

  lemma {:induction false} RemovedStays<T>(s: State<T>, val: Id -> T, es: seq<Event>)
    requires Run(s, val, es).Some?
    ensures s.log.removed <= Run(s, val, es).value.log.removed
    decreases |es|
  {
    if es != [] {
      RemovedStays(Exec(s, val, es[0]).value, val, es[1..]);
    }
  }

  /** The channel holds nothing of `x` any more, and has given it nothing. */
  ghost predicate OutOfIt<T>(s: State<T>, x: Id) {
    && x !in s.readers && x !in s.writers
    && x !in s.resumed && x !in OwedIds(s.owed) && x !in s.results
    && x !in s.log.gotBy && x !in s.log.accepted
  }

  lemma RemovedIsOut<T>(s: State<T>, val: Id -> T, x: Id)
    requires Inv(s, val) && x in s.log.removed
    ensures OutOfIt(s, x)
  {
    WithoutIn(s.log.wrote, s.log.removed);
    WithoutIn(s.log.read, s.log.removed);
    OrderedAlways(s, val);
    assert x !in Tally(s);
    assert x !in multiset(s.readers) && x !in multiset(s.writers) && x !in multiset(s.resumed);
    assert x !in multiset(OwedIds(s.owed));
    assert x in s.log.accepted ==> x in Wrote(s);
    assert x in s.log.gotBy ==> x in Read(s);
  }

  /**
   * Whoever is destroyed while waiting is out of it for good: however the run
   * goes on, it is never resumed, owed a resumption or given a value, and no
   * value of its own is ever taken.
   */
  lemma CancelledForGood<T>(
    s: State<T>, capacity: nat, val: Id -> T, es: seq<Event>, x: Id, later: seq<Event>, t: State<T>)
    requires Reached(s, capacity, val, es) && s.holder.None?
    requires x in s.readers || x in s.writers
    requires Run(s, val, [if x in s.readers then CancelReader(x) else CancelWriter(x)] + later) == Some(t)
    ensures OutOfIt(t, x)
  {
    var e := if x in s.readers then CancelReader(x) else CancelWriter(x);
    ReachedInv(s, capacity, val, es);
    RunFirst(s, val, e, later);
    CancelRemoves(s, val, x, e);
    var after := Exec(s, val, e).value;
    RunKeepsInv(after, val, later);
    RemovedStays(after, val, later);
    RemovedIsOut(t, val, x);
  }

  lemma RunFirst<T>(s: State<T>, val: Id -> T, e: Event, later: seq<Event>)
    ensures Run(s, val, [e] + later) ==
            match Exec(s, val, e)
            case None => None
            case Some(s') => Run(s', val, later)
  {
    assert ([e] + later)[1..] == later;
  }

  lemma CancelRemoves<T>(s: State<T>, val: Id -> T, x: Id, e: Event)
    requires Inv(s, val) && s.holder.None?
    requires (x in s.readers && e == CancelReader(x)) || (x in s.writers && e == CancelWriter(x))
    ensures var after := Exec(s, val, e);
            after.Some? && Inv(after.value, val) && x in after.value.log.removed
  {
    StepKeepsInv(s, val, e);
  }

  /** No interleaving is left out: what the lock and the lists allow can happen next. */
  lemma EveryMoveIsThere<T>(s: State<T>, val: Id -> T, x: Id)
    ensures Exec(s, val, BeginRead(x)).Some? <==> s.holder.None? && x !in s.log.seen
    ensures Exec(s, val, BeginWrite(x)).Some? <==> s.holder.None? && x !in s.log.seen
    ensures Exec(s, val, Finish).Some? <==> s.holder.Some?
    ensures forall i :: 0 <= i < |s.owed| ==> Exec(s, val, Resume(i)).Some?
    ensures Exec(s, val, CancelReader(x)).Some? <==> s.holder.None?
    ensures Exec(s, val, CancelWriter(x)).Some? <==> s.holder.None?
    ensures Exec(s, val, CloseFlag).Some? <==> s.phase.Open?
    ensures Exec(s, val, CleanUp).Some? <==> s.phase.Closing? && s.holder.None?
  {
  }

  // ---------------------------------------------- the order of what was asked

  /** The push that holds the lock after the events: begun on an open channel and not finished. */
  function Pending(es: seq<Event>): Option<Push> {
    if es == [] then None
    else
      var init, last := es[..|es| - 1], es[|es| - 1];
      if last.BeginRead? then (if CloseFlag in init then None else Some(Reading(last.r)))
      else if last.BeginWrite? then (if CloseFlag in init then None else Some(Writing(last.w)))
      else if last.Finish? then None
      else Pending(init)
  }

  /** The pushes finished, in order. */
  function Finished(es: seq<Event>): seq<Push> {
    if es == [] then []
    else
      var init := es[..|es| - 1];
      Finished(init) + if es[|es| - 1].Finish? && Pending(init).Some? then [Pending(init).value] else []
  }

  function ReadsOf(ps: seq<Push>): seq<Id> {
    if ps == [] then []
    else ReadsOf(ps[..|ps| - 1]) + if ps[|ps| - 1].Reading? then [ps[|ps| - 1].id] else []
  }

  function WritesOf(ps: seq<Push>): seq<Id> {
    if ps == [] then []
    else WritesOf(ps[..|ps| - 1]) + if ps[|ps| - 1].Writing? then [ps[|ps| - 1].id] else []
  }

  /** What the events say of the order of requests is what the log says. */
  ghost predicate Chronicled<T>(s: State<T>, es: seq<Event>) {
    && (s.phase.Open? <==> CloseFlag !in es)
    && s.holder == Pending(es)
    && s.log.read == ReadsOf(Finished(es))
    && s.log.wrote == WritesOf(Finished(es))
  }

  lemma PushesSnoc(ps: seq<Push>, p: Push)
    ensures ReadsOf(ps + [p]) == ReadsOf(ps) + if p.Reading? then [p.id] else []
    ensures WritesOf(ps + [p]) == WritesOf(ps) + if p.Writing? then [p.id] else []
  {
    assert (ps + [p])[..|ps|] == ps;
  }

  lemma EventsSnoc(es: seq<Event>, e: Event)
    ensures Pending(es + [e]) ==
            if e.BeginRead? then (if CloseFlag in es then None else Some(Reading(e.r)))
            else if e.BeginWrite? then (if CloseFlag in es then None else Some(Writing(e.w)))
            else if e.Finish? then None
            else Pending(es)
    ensures Finished(es + [e]) == Finished(es) + if e.Finish? && Pending(es).Some? then [Pending(es).value] else []
    ensures CloseFlag in es + [e] <==> CloseFlag in es || e == CloseFlag
  {
    assert (es + [e])[..|es|] == es;
  }

  /** What a step does to the phase, the lock and the order of requests. */
  lemma StepTakesUp<T>(s: State<T>, val: Id -> T, e: Event, t: State<T>)
    requires Exec(s, val, e) == Some(t)
    ensures t.holder ==
            if e.BeginRead? then (if s.phase.Open? then Some(Reading(e.r)) else None)
            else if e.BeginWrite? then (if s.phase.Open? then Some(Writing(e.w)) else None)
            else if e.Finish? then None
            else s.holder
    ensures t.log.read == s.log.read + if e.Finish? && s.holder.value.Reading? then [s.holder.value.id] else []
    ensures t.log.wrote == s.log.wrote + if e.Finish? && s.holder.value.Writing? then [s.holder.value.id] else []
    ensures t.phase.Open? <==> s.phase.Open? && e != CloseFlag
  {
  }

  lemma ChronicleStep<T>(s: State<T>, val: Id -> T, es: seq<Event>, e: Event, t: State<T>)
    requires Chronicled(s, es) && Exec(s, val, e) == Some(t)
    ensures Chronicled(t, es + [e])
  {
    EventsSnoc(es, e);
    StepTakesUp(s, val, e, t);
    if e.Finish? {
      PushesSnoc(Finished(es), s.holder.value);
    } else {
      assert Finished(es + [e]) == Finished(es);
    }
  }

  lemma FirstStep<T>(s: State<T>, val: Id -> T, es: seq<Event>) returns (e: Event, later: seq<Event>, t: State<T>)
    requires es != [] && Run(s, val, es).Some?
    ensures es == [e] + later && Exec(s, val, e) == Some(t) && Run(s, val, es) == Run(t, val, later)
  {
    e, later := es[0], es[1..];
    t := Exec(s, val, e).value;
  }

  lemma OneMoreEvent(before: seq<Event>, e: Event, later: seq<Event>)
    ensures before + [e] + later == before + ([e] + later)
  {
  }

  lemma {:induction false} ChronicleRun<T>(s: State<T>, val: Id -> T, before: seq<Event>, es: seq<Event>)
    requires Chronicled(s, before) && Run(s, val, es).Some?
    ensures Chronicled(Run(s, val, es).value, before + es)
    decreases |es|
  {
    if es == [] {
      assert before + es == before;
    } else {
      var e, later, t := FirstStep(s, val, es);
      ChronicleStep(s, val, before, e, t);
      ChronicleRun(t, val, before + [e], later);
      OneMoreEvent(before, e, later);
    }
  }

  /** The order in which reads and writes are numbered is that of their critical sections. */
  lemma OrderIsChronological<T>(s: State<T>, capacity: nat, val: Id -> T, es: seq<Event>)
    requires Reached(s, capacity, val, es)
    ensures s.log.read == ReadsOf(Finished(es)) && s.log.wrote == WritesOf(Finished(es))
  {
    ChronicleRun(Init(capacity), val, [], es);
    assert [] + es == es;
  }

  /**
   * close_when_empty looks only at the buffer. For which capacities is an empty
   * buffer a sign that nobody is waiting to write? Exactly for those above zero.
   */
  ghost predicate EmptyMeansNoWriter<T(!new)>(capacity: nat, val: Id -> T) {
    forall s: State<T>, es: seq<Event> :: Reached(s, capacity, val, es) && s.buffer == [] ==> s.writers == []
  }

  lemma WhenEmptyNobodyWrites<T(!new)>(capacity: nat, val: Id -> T)
    ensures EmptyMeansNoWriter(capacity, val) <==> capacity >= 1
  {
    if capacity >= 1 {
      forall s: State<T>, es: seq<Event> | Reached(s, capacity, val, es) && s.buffer == [] ensures s.writers == [] {
        ReachedInv(s, capacity, val, es);
        CapacityKept(Init(capacity), val, es);
      }
    } else {
      var s0: State<T> := Init(0);
      var s1 := Exec(s0, val, BeginWrite(7)).value;
      var s2 := Exec(s1, val, Finish).value;
      assert Run(s2, val, []) == Some(s2);
      assert [BeginWrite(7), Finish][1..] == [Finish];
      assert [Finish][1..] == [];
      assert Run(s1, val, [Finish]) == Some(s2);
      assert Run(s0, val, [BeginWrite(7), Finish]) == Some(s2);
      assert Reached(s2, 0, val, [BeginWrite(7), Finish]) && s2.writers == [7];
    }
  }
}
