/**
 * The channel object. Each method is one undisturbed pass through the source's
 * function: the object stays in step with a run of the state machine, so
 * everything proved of runs holds of it.
 */
module Channels {
  import opened AwaiterLists
  import opened Strings
  import opened ChannelProtocol
  import opened ChannelTheorems

  lemma {:induction false} RunSnoc<T>(s: State<T>, val: Id -> T, es: seq<Event>, e: Event)
    requires Run(s, val, es).Some?
    ensures Run(s, val, es + [e]) == Exec(Run(s, val, es).value, val, e)
    decreases |es|
  {
    if es == [] {
      assert [e][1..] == [];
      var r := Exec(s, val, e);
      assert r.Some? ==> Run(r.value, val, []) == r;
    } else {
      assert (es + [e])[1..] == es[1..] + [e];
      RunSnoc(Exec(s, val, es[0]).value, val, es[1..], e);
    }
  }

  /** Carries out the resumptions owed, in order. */
  function Settle<T>(s: State<T>): (r: State<T>)
    ensures r.owed == []
    decreases |s.owed|
  {
    if s.owed == [] then s else Settle(ResumeOne(s, 0))
  }

  lemma SettleOne<T>(s: State<T>)
    requires |s.owed| == 1
    ensures Settle(s) == ResumeOne(s, 0)
  {
    assert Settle(ResumeOne(s, 0)) == ResumeOne(s, 0);
  }

  lemma SettleTwo<T>(s: State<T>, w: Id, r: Id, v: T)
    requires s.owed == [Owed(w, None), Owed(r, Some(v))] || s.owed == [Owed(r, Some(v)), Owed(w, None)]
    ensures Settle(s) == s.(owed := [], results := s.results[r := v],
                            resumed := s.resumed + [s.owed[0].id] + [s.owed[1].id])
  {
    var s1 := ResumeOne(s, 0);
    assert s1.owed == [s.owed[1]];
    var s2 := ResumeOne(s1, 0);
    assert Settle(s1) == Settle(s2) == s2;
  }

  function Resumes(n: nat): seq<Event> {
    seq(n, i => Resume(0))
  }

  lemma {:induction false} SettleReached<T>(s: State<T>, capacity: nat, val: Id -> T, es: seq<Event>)
    requires Reached(s, capacity, val, es)
    ensures Reached(Settle(s), capacity, val, es + Resumes(|s.owed|))
    decreases |s.owed|
  {
    if s.owed == [] {
      assert es + Resumes(0) == es;
    } else {
      RunSnoc(Init(capacity), val, es, Resume(0));
      SettleReached(ResumeOne(s, 0), capacity, val, es + [Resume(0)]);
      assert es + [Resume(0)] + Resumes(|s.owed| - 1) == es + Resumes(|s.owed|);
    }
  }

  /** One undisturbed push: its critical section, then the resumptions it decided. */
  function Call<T>(s: State<T>, val: Id -> T, p: Push): State<T> {
    var begun := Begin(s, p);
    if begun.holder.None? then begun
    else if p.Reading? then Settle(TakeRead(begun, val, p.id))
    else Settle(TakeWrite(begun, val, p.id))
  }

  function CallEvents<T>(s: State<T>, val: Id -> T, p: Push): seq<Event> {
    var begun := Begin(s, p);
    var first := if p.Reading? then BeginRead(p.id) else BeginWrite(p.id);
    if begun.holder.None? then [first]
    else [first, Finish] + Resumes(|Exec(begun, val, Finish).value.owed|)
  }

  lemma CallReached<T>(s: State<T>, capacity: nat, val: Id -> T, es: seq<Event>, p: Push)
    requires Reached(s, capacity, val, es) && s.holder.None? && p.id !in s.log.seen
    ensures Reached(Call(s, val, p), capacity, val, es + CallEvents(s, val, p))
  {
    var first := if p.Reading? then BeginRead(p.id) else BeginWrite(p.id);
    RunSnoc(Init(capacity), val, es, first);
    var begun := Begin(s, p);
    if begun.holder.Some? {
      RunSnoc(Init(capacity), val, es + [first], Finish);
      var taken := Exec(begun, val, Finish).value;
      SettleReached(taken, capacity, val, es + [first] + [Finish]);
      assert es + [first] + [Finish] + Resumes(|taken.owed|) == es + CallEvents(s, val, p);
    }
  }

  // What one undisturbed push comes to, branch by branch.

  lemma ReadFull<T>(s: State<T>, val: Id -> T, r: Id)
    requires s.phase.Open? && s.owed == [] && s.buffer != [] && s.writers != []
    ensures var t := Call(s, val, Reading(r));
            t == s.(holder := None, buffer := s.buffer[1..] + [val(s.writers[0])], writers := s.writers[1..],
                    results := s.results[r := s.buffer[0]], resumed := s.resumed + [s.writers[0]] + [r], log := t.log)
  {
    SettleTwo(TakeRead(Begin(s, Reading(r)), val, r), s.writers[0], r, s.buffer[0]);
  }

  lemma ReadBuffered<T>(s: State<T>, val: Id -> T, r: Id)
    requires s.phase.Open? && s.owed == [] && s.buffer != [] && s.writers == []
    ensures var t := Call(s, val, Reading(r));
            t == s.(holder := None, buffer := s.buffer[1..],
                    results := s.results[r := s.buffer[0]], resumed := s.resumed + [r], log := t.log)
  {
    SettleOne(TakeRead(Begin(s, Reading(r)), val, r));
  }

  lemma ReadDirect<T>(s: State<T>, val: Id -> T, r: Id)
    requires s.phase.Open? && s.owed == [] && s.buffer == [] && s.writers != []
    ensures var t := Call(s, val, Reading(r));
            t == s.(holder := None, writers := s.writers[1..], results := s.results[r := val(s.writers[0])],
                    resumed := s.resumed + [r] + [s.writers[0]], log := t.log)
  {
    SettleTwo(TakeRead(Begin(s, Reading(r)), val, r), s.writers[0], r, val(s.writers[0]));
  }

  lemma ReadWaits<T>(s: State<T>, val: Id -> T, r: Id)
    requires s.phase.Open? && s.owed == [] && s.buffer == [] && s.writers == []
    ensures var t := Call(s, val, Reading(r)); t == s.(holder := None, readers := s.readers + [r], log := t.log)
  {
  }

  lemma WriteDirect<T>(s: State<T>, val: Id -> T, w: Id)
    requires s.phase.Open? && s.owed == [] && s.readers != []
    ensures var t := Call(s, val, Writing(w));
            t == s.(holder := None, readers := s.readers[1..], results := s.results[s.readers[0] := val(w)],
                    resumed := s.resumed + [s.readers[0]] + [w], log := t.log)
  {
    SettleTwo(TakeWrite(Begin(s, Writing(w)), val, w), w, s.readers[0], val(w));
  }

  lemma WriteBuffered<T>(s: State<T>, val: Id -> T, w: Id)
    requires s.phase.Open? && s.owed == [] && s.readers == [] && |s.buffer| < s.capacity
    ensures var t := Call(s, val, Writing(w));
            t == s.(holder := None, buffer := s.buffer + [val(w)], resumed := s.resumed + [w], log := t.log)
  {
    SettleOne(TakeWrite(Begin(s, Writing(w)), val, w));
  }

  lemma WriteWaits<T>(s: State<T>, val: Id -> T, w: Id)
    requires s.phase.Open? && s.owed == [] && s.readers == [] && |s.buffer| >= s.capacity
    ensures var t := Call(s, val, Writing(w)); t == s.(holder := None, writers := s.writers + [w], log := t.log)
  {
  }

  lemma PushThrows<T>(s: State<T>, val: Id -> T, p: Push)
    requires !s.phase.Open?
    ensures var t := Call(s, val, p); t == s.(holder := None, log := t.log)
  {
  }

  function Emptied<T>(s: State<T>): State<T> {
    s.(phase := Closed, resumed := s.resumed + s.writers + s.readers, writers := [], readers := [], buffer := [])
  }

  lemma CloseReached<T>(s: State<T>, capacity: nat, val: Id -> T, es: seq<Event>)
    requires Reached(s, capacity, val, es) && s.holder.None? && s.phase.Open?
    ensures Reached(Emptied(s), capacity, val, es + [CloseFlag, CleanUp])
  {
    RunSnoc(Init(capacity), val, es, CloseFlag);
    RunSnoc(Init(capacity), val, es + [CloseFlag], CleanUp);
    assert es + [CloseFlag] + [CleanUp] == es + [CloseFlag, CleanUp];
  }

  lemma ClosedIsEmpty<T>(s: State<T>, capacity: nat, val: Id -> T, es: seq<Event>)
    requires Reached(s, capacity, val, es) && s.phase.Closed?
    ensures s.buffer == [] && s.writers == [] && s.readers == []
  {
    ReachedInv(s, capacity, val, es);
  }

  class Channel<T(!new)> {
    const capacity: nat
    const value: Id -> T          // the value each writer carries
    var isActive: bool
    var buffer: seq<T>
    var writerList: seq<Id>
    var readerList: seq<Id>
    var results: map<Id, T>       // what resume(value) stored in readers
    var resumed: seq<Id>          // awaiters handed to the scheduler, in order
    ghost var log: Log<T>
    ghost var trace: seq<Event>

    ghost function View(): State<T>
      reads this
    {
      State(capacity, if isActive then Open else Closed, None, buffer, writerList, readerList,
            [], results, resumed, log)
    }

    /** The object is where its trace leads. */
    ghost predicate Valid()
      reads this
    {
      Reached(View(), capacity, value, trace)
    }

    constructor (capacity: nat, value: Id -> T)
      ensures Valid() && trace == [] && this.capacity == capacity && this.value == value
    {
      this.capacity := capacity;
      this.value := value;
      isActive := true;
      buffer, writerList, readerList := [], [], [];
      results, resumed := map[], [];
      log := Log({}, [], [], {}, [], [], []);
      trace := [];
    }

    method ResumeReader(r: Id, v: T)
      modifies this`results, this`resumed
      ensures results == old(results)[r := v] && resumed == old(resumed) + [r]
    {
      results := results[r := v];
      resumed := resumed + [r];
    }

    method ResumeWriter(w: Id)
      modifies this`resumed
      ensures resumed == old(resumed) + [w]
    {
      resumed := resumed + [w];
    }

    /** Takes the ghost part of a push. */
    ghost method Follow(before: State<T>, p: Push)
      requires Reached(before, capacity, value, trace) && before.holder.None? && p.id !in before.log.seen
      requires View().(log := Call(before, value, p).log) == Call(before, value, p)
      modifies this`log, this`trace
      ensures Valid() && View() == Call(before, value, p)
      ensures trace == old(trace) + CallEvents(before, value, p)
    {
      CallReached(before, capacity, value, trace, p);
      log, trace := Call(before, value, p).log, trace + CallEvents(before, value, p);
    }

    /** False stands for ChannelClosedException. */
    method TryPushReader(r: Id) returns (ok: bool)
      requires Valid() && r !in log.seen
      modifies this
      ensures Valid() && ok == old(isActive)
      ensures View() == Call(old(View()), value, Reading(r))
      ensures trace == old(trace) + CallEvents(old(View()), value, Reading(r))
    {
      ghost var before := View();
      ok := isActive;
      if ok {
        PushReader(r);
      } else {
        PushThrows(before, value, Reading(r));
      }
      Follow(before, Reading(r));
    }

    /** try_push_reader behind its check: the four branches. */
    method PushReader(r: Id)
      requires isActive
      modifies this`buffer, this`writerList, this`readerList, this`results, this`resumed
      ensures View().(log := Call(old(View()), value, Reading(r)).log) == Call(old(View()), value, Reading(r))
    {
      ghost var s := View();
      if buffer != [] {
        var v := buffer[0];
        if writerList != [] {
          ReadFull(s, value, r);
          var writer := writerList[0];
          writerList := writerList[1..];
          buffer := buffer[1..] + [value(writer)];
          ResumeWriter(writer);
        } else {
          ReadBuffered(s, value, r);
          buffer := buffer[1..];
        }
        ResumeReader(r, v);
      } else if writerList != [] {
        ReadDirect(s, value, r);
        var writer := writerList[0];
        writerList := writerList[1..];
        ResumeReader(r, value(writer));
        ResumeWriter(writer);
      } else {
        ReadWaits(s, value, r);
        readerList := readerList + [r];
      }
    }

    method TryPushWriter(w: Id) returns (ok: bool)
      requires Valid() && w !in log.seen
      modifies this
      ensures Valid() && ok == old(isActive)
      ensures View() == Call(old(View()), value, Writing(w))
      ensures trace == old(trace) + CallEvents(old(View()), value, Writing(w))
    {
      ghost var before := View();
      ok := isActive;
      if ok {
        PushWriter(w);
      } else {
        PushThrows(before, value, Writing(w));
      }
      Follow(before, Writing(w));
    }

    /** try_push_writer behind its check: the three branches. */
    method PushWriter(w: Id)
      requires isActive
      modifies this`buffer, this`writerList, this`readerList, this`results, this`resumed
      ensures View().(log := Call(old(View()), value, Writing(w)).log) == Call(old(View()), value, Writing(w))
    {
      ghost var s := View();
      if readerList != [] {
        WriteDirect(s, value, w);
        var reader := readerList[0];
        readerList := readerList[1..];
        ResumeReader(reader, value(w));
        ResumeWriter(w);
      } else if |buffer| < capacity {
        WriteBuffered(s, value, w);
        buffer := buffer + [value(w)];
        ResumeWriter(w);
      } else {
        WriteWaits(s, value, w);
        writerList := writerList + [w];
      }
    }

    /** A waiting reader is destroyed: it leaves the list, and nothing else changes. */
    method RemoveReader(r: Id)
      requires Valid()
      modifies this`readerList, this`log, this`trace
      ensures r in old(readerList) ==> LostOne(old(readerList), readerList, r) && r !in readerList
      ensures r !in old(readerList) ==> readerList == old(readerList)
      ensures Valid() && Some(View()) == old(Exec(View(), value, CancelReader(r)))
      ensures trace == old(trace) + [CancelReader(r)]
    {
      RunSnoc(Init(capacity), value, trace, CancelReader(r));
      trace := trace + [CancelReader(r)];
      if r in readerList {
        CancelledReaderLeaves(View(), capacity, value, old(trace), r);
        log := Cancel(View(), r).log;
        readerList := Remove(readerList, r);
      }
    }

    /** A waiting writer is destroyed: it leaves the list, and nothing else changes. */
    method RemoveWriter(w: Id)
      requires Valid()
      modifies this`writerList, this`log, this`trace
      ensures w in old(writerList) ==> LostOne(old(writerList), writerList, w) && w !in writerList
      ensures w !in old(writerList) ==> writerList == old(writerList)
      ensures Valid() && Some(View()) == old(Exec(View(), value, CancelWriter(w)))
      ensures trace == old(trace) + [CancelWriter(w)]
    {
      RunSnoc(Init(capacity), value, trace, CancelWriter(w));
      trace := trace + [CancelWriter(w)];
      if w in writerList {
        CancelledWriterLeaves(View(), capacity, value, old(trace), w);
        log := Cancel(View(), w).log;
        writerList := Remove(writerList, w);
      }
    }

    /** The second call does nothing; the first resumes everybody who waits. */
    method Close()
      requires Valid()
      modifies this
      ensures Valid() && !isActive && buffer == [] && writerList == [] && readerList == []
      ensures old(isActive) ==> trace == old(trace) + [CloseFlag, CleanUp]
      ensures old(isActive) ==> resumed == old(resumed + writerList + readerList)
      ensures !old(isActive) ==> View() == old(View())
      ensures results == old(results)
    {
      ghost var s := View();
      if isActive {
        CloseReached(s, capacity, value, trace);
        trace := trace + [CloseFlag, CleanUp];
        isActive := false;
        CleanUpLists();
        assert View() == Emptied(s);
      } else {
        ClosedIsEmpty(s, capacity, value, trace);
      }
    }

    method CleanUpLists()
      modifies this`resumed, this`writerList, this`readerList, this`buffer
      ensures resumed == old(resumed) + old(writerList) + old(readerList)
      ensures writerList == [] && readerList == [] && buffer == []
    {
      for i := 0 to |writerList|
        modifies this`resumed
        invariant resumed == old(resumed) + writerList[..i]
      {
        ResumeWriter(writerList[i]);
      }
      for i := 0 to |readerList|
        modifies this`resumed
        invariant resumed == old(resumed) + writerList + readerList[..i]
      {
        ResumeUnsafe(readerList[i]);
      }
      writerList, readerList, buffer := [], [], [];
    }

    method ResumeUnsafe(r: Id)
      modifies this`resumed
      ensures resumed == old(resumed) + [r]
    {
      resumed := resumed + [r];
    }

    /** One look of close_when_empty; only for a positive capacity does it say that nobody waits to write. */
    method LooksEmpty() returns (empty: bool)
      requires Valid()
      ensures empty == (buffer == [])
      ensures empty && capacity >= 1 ==> writerList == []
    {
      ReachedInv(View(), capacity, value, trace);
      empty := buffer == [];
    }
  }
}
