/** What every step of the channel keeps, and what follows for whole runs. */
module ChannelProofs {
  import opened AwaiterLists
  import opened Strings
  import opened ChannelProtocol

  function Values<T>(val: Id -> T, ids: seq<Id>): seq<T> {
    seq(|ids|, i requires 0 <= i < |ids| => val(ids[i]))
  }

  lemma ValuesAppend<T>(val: Id -> T, a: seq<Id>, b: seq<Id>)
    ensures Values(val, a + b) == Values(val, a) + Values(val, b)
  {
  }

  // ----------------------------------------------------------- invariants

  /** Who can be waiting when. */
  predicate Shape<T>(s: State<T>) {
    && |s.buffer| <= s.capacity
    && (s.readers != [] ==> s.buffer == [] && s.writers == [])
    && (s.writers != [] ==> |s.buffer| == s.capacity)
    && (s.phase.Closed? ==> s.holder.None? && s.buffer == [] && s.writers == [] && s.readers == [])
  }

  lemma ShapeKept<T>(s: State<T>, val: Id -> T, e: Event)
    requires Shape(s) && Exec(s, val, e).Some?
    ensures Shape(Exec(s, val, e).value)
  {
  }

  ghost function OwedIds<T>(owed: seq<Owed<T>>): seq<Id> {
    seq(|owed|, i requires 0 <= i < |owed| => owed[i].id)
  }

  /** Every awaiter the channel knows of, with multiplicity. */
  ghost function Tally<T>(s: State<T>): multiset<Id> {
    multiset(s.writers) + multiset(s.readers) + multiset(OwedIds(s.owed)) + multiset(s.resumed)
    + (if s.holder.Some? then multiset{s.holder.value.id} else multiset{})
  }

  ghost function Held<T>(s: State<T>): Option<Id> {
    if s.holder.Some? then Some(s.holder.value.id) else None
  }

  ghost predicate Accounted(
    tally: multiset<Id>, held: Option<Id>, seen: set<Id>, wrote: seq<Id>, read: seq<Id>, removed: set<Id>)
  {
    && (forall x :: tally[x] <= 1)
    && (forall x :: x in tally ==> x in seen)
    && (forall x :: x in wrote || x in read ==> x in seen && (x in removed || x in tally))
    && (forall x :: x in removed ==> x !in tally && (x in wrote || x in read))
    && (held.Some? ==> held.value in tally && held.value !in wrote && held.value !in read)
    && Distinct(wrote) && Distinct(read)
    && (forall x :: x in wrote ==> x !in read)
  }

  /** No awaiter is in two places; none that was taken up is lost. */
  ghost predicate Accounts<T>(s: State<T>) {
    Accounted(Tally(s), Held(s), s.log.seen, s.log.wrote, s.log.read, s.log.removed)
  }

  lemma OwedAppend<T>(owed: seq<Owed<T>>, a: Owed<T>, b: Owed<T>)
    ensures multiset(OwedIds(owed + [a])) == multiset(OwedIds(owed)) + multiset{a.id}
    ensures multiset(OwedIds(owed + [a, b])) == multiset(OwedIds(owed)) + multiset{a.id, b.id}
  {
    assert OwedIds(owed + [a]) == OwedIds(owed) + [a.id];
    assert OwedIds(owed + [a, b]) == OwedIds(owed) + [a.id, b.id];
  }

  lemma HeadTally(ids: seq<Id>)
    requires ids != []
    ensures multiset(ids) == multiset{ids[0]} + multiset(ids[1..])
  {
    assert ids == [ids[0]] + ids[1..];
  }

  lemma TakeReadTallyFull<T>(s: State<T>, val: Id -> T, r: Id)
    requires s.holder == Some(Reading(r)) && s.buffer != [] && s.writers != []
    ensures Tally(TakeRead(s, val, r)) == Tally(s)
  {
    HeadTally(s.writers);
    OwedAppend(s.owed, Owed(s.writers[0], None), Owed(r, Some(s.buffer[0])));
  }

  lemma TakeReadTallyDirect<T>(s: State<T>, val: Id -> T, r: Id)
    requires s.holder == Some(Reading(r)) && s.buffer == [] && s.writers != []
    ensures Tally(TakeRead(s, val, r)) == Tally(s)
  {
    HeadTally(s.writers);
    OwedAppend(s.owed, Owed(r, Some(val(s.writers[0]))), Owed(s.writers[0], None));
  }

  lemma TakeReadTally<T>(s: State<T>, val: Id -> T, r: Id)
    requires s.holder == Some(Reading(r))
    ensures Tally(TakeRead(s, val, r)) == Tally(s)
  {
    if s.writers != [] {
      if s.buffer != [] {
        TakeReadTallyFull(s, val, r);
      } else {
        TakeReadTallyDirect(s, val, r);
      }
    } else if s.buffer != [] {
      OwedAppend(s.owed, Owed(r, Some(s.buffer[0])), Owed(r, None));
    }
  }

  lemma TakeWriteTallyDirect<T>(s: State<T>, val: Id -> T, w: Id)
    requires s.holder == Some(Writing(w)) && s.readers != []
    ensures Tally(TakeWrite(s, val, w)) == Tally(s)
  {
    HeadTally(s.readers);
    OwedAppend(s.owed, Owed(s.readers[0], Some(val(w))), Owed(w, None));
  }

  lemma TakeWriteTally<T>(s: State<T>, val: Id -> T, w: Id)
    requires s.holder == Some(Writing(w))
    ensures Tally(TakeWrite(s, val, w)) == Tally(s)
  {
    if s.readers != [] {
      TakeWriteTallyDirect(s, val, w);
    } else {
      OwedAppend(s.owed, Owed(w, None), Owed(w, None));
    }
  }

  lemma ResumeTally<T>(s: State<T>, i: nat)
    requires i < |s.owed|
    ensures Tally(ResumeOne(s, i)) == Tally(s)
  {
    var ids := OwedIds(s.owed);
    assert ids == ids[..i] + [ids[i]] + ids[i + 1..];
    assert OwedIds(s.owed[..i] + s.owed[i + 1..]) == ids[..i] + ids[i + 1..];
  }

  lemma CancelTallyReader<T>(s: State<T>, id: Id)
    requires Tally(s)[id] <= 1 && id in s.readers
    ensures Tally(Cancel(s, id).(readers := Remove(s.readers, id))) == Tally(s)[id := 0]
  {
    RemoveTally(s.readers, id);
  }

  lemma CancelTallyWriter<T>(s: State<T>, id: Id)
    requires Tally(s)[id] <= 1 && id in s.writers
    ensures Tally(Cancel(s, id).(writers := Remove(s.writers, id))) == Tally(s)[id := 0]
  {
    RemoveTally(s.writers, id);
  }

  lemma BeginAccounted(
    t: multiset<Id>, id: Id, open: bool, seen: set<Id>, wrote: seq<Id>, read: seq<Id>, removed: set<Id>)
    requires Accounted(t, None, seen, wrote, read, removed) && id !in seen
    ensures if open then Accounted(t + multiset{id}, Some(id), seen + {id}, wrote, read, removed)
            else Accounted(t, None, seen + {id}, wrote, read, removed)
  {
    assert id !in t;
  }

  lemma FinishAccounted(t: multiset<Id>, id: Id, seen: set<Id>, wrote: seq<Id>, read: seq<Id>, removed: set<Id>)
    requires Accounted(t, Some(id), seen, wrote, read, removed)
    ensures Accounted(t, None, seen, wrote + [id], read, removed)
    ensures Accounted(t, None, seen, wrote, read + [id], removed)
  {
  }

  lemma CancelAccounted(t: multiset<Id>, id: Id, seen: set<Id>, wrote: seq<Id>, read: seq<Id>, removed: set<Id>)
    requires Accounted(t, None, seen, wrote, read, removed) && (id in wrote || id in read)
    ensures Accounted(t[id := 0], None, seen, wrote, read, removed + {id})
  {
  }

  lemma BeginKeepsAccounts<T>(s: State<T>, p: Push)
    requires Accounts(s) && s.holder.None? && p.id !in s.log.seen
    ensures Accounts(Begin(s, p))
  {
    BeginAccounted(Tally(s), p.id, s.phase.Open?, s.log.seen, s.log.wrote, s.log.read, s.log.removed);
    assert Tally(Begin(s, p)) == if s.phase.Open? then Tally(s) + multiset{p.id} else Tally(s);
  }

  lemma AccountsFrom<T>(s: State<T>, t: multiset<Id>, held: Option<Id>, wrote: seq<Id>, read: seq<Id>)
    requires Tally(s) == t && Held(s) == held && s.log.wrote == wrote && s.log.read == read
    requires Accounted(t, held, s.log.seen, wrote, read, s.log.removed)
    ensures Accounts(s)
  {
  }

  lemma TakeReadLog<T>(s: State<T>, val: Id -> T, r: Id)
    ensures var s' := TakeRead(s, val, r);
            && s'.holder == None && s'.log.seen == s.log.seen && s'.log.removed == s.log.removed
            && s'.log.wrote == s.log.wrote && s'.log.read == s.log.read + [r]
  {
  }

  lemma TakeWriteLog<T>(s: State<T>, val: Id -> T, w: Id)
    ensures var s' := TakeWrite(s, val, w);
            && s'.holder == None && s'.log.seen == s.log.seen && s'.log.removed == s.log.removed
            && s'.log.wrote == s.log.wrote + [w] && s'.log.read == s.log.read
  {
  }

  lemma TakeReadKeepsAccounts<T>(s: State<T>, val: Id -> T, r: Id)
    requires Accounts(s) && s.holder == Some(Reading(r))
    ensures Accounts(TakeRead(s, val, r))
  {
    var t, s' := Tally(s), TakeRead(s, val, r);
    FinishAccounted(t, r, s.log.seen, s.log.wrote, s.log.read, s.log.removed);
    TakeReadTally(s, val, r);
    TakeReadLog(s, val, r);
    AccountsFrom(s', t, None, s.log.wrote, s.log.read + [r]);
  }

  lemma TakeWriteKeepsAccounts<T>(s: State<T>, val: Id -> T, w: Id)
    requires Accounts(s) && s.holder == Some(Writing(w))
    ensures Accounts(TakeWrite(s, val, w))
  {
    var t, s' := Tally(s), TakeWrite(s, val, w);
    FinishAccounted(t, w, s.log.seen, s.log.wrote, s.log.read, s.log.removed);
    TakeWriteTally(s, val, w);
    TakeWriteLog(s, val, w);
    AccountsFrom(s', t, None, s.log.wrote + [w], s.log.read);
  }

  lemma MoveKeepsAccounts<T>(s: State<T>, s': State<T>)
    requires Accounts(s) && Tally(s') == Tally(s) && s'.holder == s.holder && s'.log == s.log
    ensures Accounts(s')
  {
  }

  lemma CleanUpTally<T>(s: State<T>, val: Id -> T)
    requires Exec(s, val, CleanUp).Some?
    ensures Tally(Exec(s, val, CleanUp).value) == Tally(s)
  {
  }

  lemma CancelReaderKeepsAccounts<T>(s: State<T>, id: Id)
    requires Accounts(s) && s.holder.None? && id in s.log.read && id in s.readers
    ensures Accounts(Cancel(s, id).(readers := Remove(s.readers, id)))
  {
    var t, s' := Tally(s), Cancel(s, id).(readers := Remove(s.readers, id));
    assert t[id] <= 1;
    CancelAccounted(t, id, s.log.seen, s.log.wrote, s.log.read, s.log.removed);
    CancelTallyReader(s, id);
    AccountsFrom(s', t[id := 0], None, s.log.wrote, s.log.read);
  }

  lemma CancelWriterKeepsAccounts<T>(s: State<T>, id: Id)
    requires Accounts(s) && s.holder.None? && id in s.log.wrote && id in s.writers
    ensures Accounts(Cancel(s, id).(writers := Remove(s.writers, id)))
  {
    var t, s' := Tally(s), Cancel(s, id).(writers := Remove(s.writers, id));
    assert t[id] <= 1;
    CancelAccounted(t, id, s.log.seen, s.log.wrote, s.log.read, s.log.removed);
    CancelTallyWriter(s, id);
    AccountsFrom(s', t[id := 0], None, s.log.wrote, s.log.read);
  }

  lemma AccountsKept<T>(s: State<T>, val: Id -> T, e: Event)
    requires Accounts(s) && Exec(s, val, e).Some?
    requires forall x :: x in s.writers ==> x in s.log.wrote
    requires forall x :: x in s.readers ==> x in s.log.read
    ensures Accounts(Exec(s, val, e).value)
  {
    match e
    case BeginRead(r) => BeginKeepsAccounts(s, Reading(r));
    case BeginWrite(w) => BeginKeepsAccounts(s, Writing(w));
    case Finish =>
      match s.holder.value {
        case Reading(r) => TakeReadKeepsAccounts(s, val, r);
        case Writing(w) => TakeWriteKeepsAccounts(s, val, w);
      }
    case CancelReader(r) =>
      if r in s.readers {
        CancelReaderKeepsAccounts(s, r);
      }
    case CancelWriter(w) =>
      if w in s.writers {
        CancelWriterKeepsAccounts(s, w);
      }
    case _ => MovesKeepAccounts(s, val, e);
  }

  /** Resumptions and the two steps of close move awaiters about and lose none. */
  lemma MovesKeepTally<T>(s: State<T>, val: Id -> T, e: Event)
    requires Exec(s, val, e).Some? && (e.Resume? || e.CloseFlag? || e.CleanUp?)
    ensures var s' := Exec(s, val, e).value;
            Tally(s') == Tally(s) && s'.holder == s.holder && s'.log == s.log
  {
    if e.Resume? {
      ResumeTally(s, e.i);
    } else if e.CleanUp? {
      CleanUpTally(s, val);
    }
  }

  lemma MovesKeepAccounts<T>(s: State<T>, val: Id -> T, e: Event)
    requires Accounts(s) && Exec(s, val, e).Some? && (e.Resume? || e.CloseFlag? || e.CleanUp?)
    ensures Accounts(Exec(s, val, e).value)
  {
    MovesKeepTally(s, val, e);
    MoveKeepsAccounts(s, Exec(s, val, e).value);
  }

  // ------------------------------------------------- order and conservation

  /**
   * The uncancelled writes `wrote` are those whose value has left their awaiter,
   * then those waiting; the values that left are the ones taken by reads, then
   * the buffer; the uncancelled reads `read` are those served, then those waiting.
   */
  ghost predicate Balanced<T>(
    val: Id -> T, wrote: seq<Id>, read: seq<Id>, accepted: seq<Id>, got: seq<T>, gotBy: seq<Id>,
    buffer: seq<T>, writers: seq<Id>, readers: seq<Id>)
  {
    && wrote == accepted + writers
    && Values(val, accepted) == got + buffer
    && read == gotBy + readers
    && |gotBy| == |got|
  }

  function Wrote<T>(s: State<T>): seq<Id> {
    Without(s.log.wrote, s.log.removed)
  }

  function Read<T>(s: State<T>): seq<Id> {
    Without(s.log.read, s.log.removed)
  }

  ghost predicate Conserved<T>(s: State<T>, val: Id -> T) {
    Balanced(val, Wrote(s), Read(s), s.log.accepted, s.log.got, s.log.gotBy, s.buffer, s.writers, s.readers)
  }

  /** Values were taken in the order written, by the reads in the order they asked. */
  ghost predicate Ordered<T>(s: State<T>, val: Id -> T) {
    && s.log.accepted <= Wrote(s)
    && s.log.got <= Values(val, s.log.accepted)
    && s.log.gotBy <= Read(s)
    && |s.log.gotBy| == |s.log.got|
  }

  ghost predicate History<T>(s: State<T>, val: Id -> T) {
    if s.phase.Closed? then Ordered(s, val) else Conserved(s, val)
  }

  lemma BalancedFull<T>(
    val: Id -> T, wrote: seq<Id>, read: seq<Id>, accepted: seq<Id>, got: seq<T>, gotBy: seq<Id>,
    buffer: seq<T>, writers: seq<Id>, r: Id)
    requires Balanced(val, wrote, read, accepted, got, gotBy, buffer, writers, []) && buffer != [] && writers != []
    ensures Balanced(val, wrote, read + [r], accepted + [writers[0]], got + [buffer[0]], gotBy + [r],
                     buffer[1..] + [val(writers[0])], writers[1..], [])
  {
    assert writers == [writers[0]] + writers[1..];
    assert buffer == [buffer[0]] + buffer[1..];
    ValuesAppend(val, accepted, [writers[0]]);
  }

  lemma BalancedBuffered<T>(
    val: Id -> T, wrote: seq<Id>, read: seq<Id>, accepted: seq<Id>, got: seq<T>, gotBy: seq<Id>,
    buffer: seq<T>, r: Id)
    requires Balanced(val, wrote, read, accepted, got, gotBy, buffer, [], []) && buffer != []
    ensures Balanced(val, wrote, read + [r], accepted, got + [buffer[0]], gotBy + [r], buffer[1..], [], [])
  {
    assert buffer == [buffer[0]] + buffer[1..];
  }

  lemma BalancedFromWriter<T>(
    val: Id -> T, wrote: seq<Id>, read: seq<Id>, accepted: seq<Id>, got: seq<T>, gotBy: seq<Id>,
    writers: seq<Id>, r: Id)
    requires Balanced(val, wrote, read, accepted, got, gotBy, [], writers, []) && writers != []
    ensures Balanced(val, wrote, read + [r], accepted + [writers[0]], got + [val(writers[0])], gotBy + [r],
                     [], writers[1..], [])
  {
    assert writers == [writers[0]] + writers[1..];
    ValuesAppend(val, accepted, [writers[0]]);
  }

  lemma BalancedToReader<T>(
    val: Id -> T, wrote: seq<Id>, read: seq<Id>, accepted: seq<Id>, got: seq<T>, gotBy: seq<Id>,
    readers: seq<Id>, w: Id)
    requires Balanced(val, wrote, read, accepted, got, gotBy, [], [], readers) && readers != []
    ensures Balanced(val, wrote + [w], read, accepted + [w], got + [val(w)], gotBy + [readers[0]], [], [], readers[1..])
  {
    assert readers == [readers[0]] + readers[1..];
    ValuesAppend(val, accepted, [w]);
  }

  lemma TakeReadKeepsHistory<T>(s: State<T>, val: Id -> T, r: Id)
    requires Shape(s) && Conserved(s, val) && r !in s.log.removed
    ensures Conserved(TakeRead(s, val, r), val)
  {
    WithoutSnoc(s.log.read, r, s.log.removed);
    if s.buffer != [] && s.writers != [] {
      BalancedFull(val, Wrote(s), Read(s), s.log.accepted, s.log.got, s.log.gotBy, s.buffer, s.writers, r);
    } else if s.buffer != [] {
      BalancedBuffered(val, Wrote(s), Read(s), s.log.accepted, s.log.got, s.log.gotBy, s.buffer, r);
    } else if s.writers != [] {
      BalancedFromWriter(val, Wrote(s), Read(s), s.log.accepted, s.log.got, s.log.gotBy, s.writers, r);
    }
  }

  lemma TakeWriteKeepsHistory<T>(s: State<T>, val: Id -> T, w: Id)
    requires Shape(s) && Conserved(s, val) && w !in s.log.removed
    ensures Conserved(TakeWrite(s, val, w), val)
  {
    WithoutSnoc(s.log.wrote, w, s.log.removed);
    if s.readers != [] {
      BalancedToReader(val, Wrote(s), Read(s), s.log.accepted, s.log.got, s.log.gotBy, s.readers, w);
    } else if |s.buffer| < s.capacity {
      ValuesAppend(val, s.log.accepted, [w]);
    }
  }

  lemma WaitingIsWritten<T>(s: State<T>, val: Id -> T)
    requires Shape(s) && History(s, val)
    ensures forall x :: x in s.writers ==> x in s.log.wrote
    ensures forall x :: x in s.readers ==> x in s.log.read
  {
    WithoutIn(s.log.wrote, s.log.removed);
    WithoutIn(s.log.read, s.log.removed);
    if !s.phase.Closed? {
      assert forall x :: x in s.writers ==> x in Wrote(s);
      assert forall x :: x in s.readers ==> x in Read(s);
    }
  }

  lemma CancelReaderKeepsHistory<T>(s: State<T>, val: Id -> T, r: Id)
    requires Accounts(s) && Conserved(s, val) && r in s.readers && r in s.log.read
    ensures Conserved(Cancel(s, r).(readers := Remove(s.readers, r)), val)
  {
    CancelFromTail(s.log.read, s.log.removed, s.log.gotBy, s.readers, r);
    CancelElsewhere(s.log.wrote, s.log.removed, r);
  }

  lemma CancelWriterKeepsHistory<T>(s: State<T>, val: Id -> T, w: Id)
    requires Accounts(s) && Conserved(s, val) && w in s.writers && w in s.log.wrote
    ensures Conserved(Cancel(s, w).(writers := Remove(s.writers, w)), val)
  {
    CancelFromTail(s.log.wrote, s.log.removed, s.log.accepted, s.writers, w);
    CancelElsewhere(s.log.read, s.log.removed, w);
  }

  lemma FinishKeepsHistory<T>(s: State<T>, val: Id -> T)
    requires Shape(s) && Accounts(s) && Conserved(s, val) && s.holder.Some?
    ensures Conserved(Exec(s, val, Finish).value, val)
  {
    assert s.holder.value.id !in s.log.removed;
    match s.holder.value {
      case Reading(r) => TakeReadKeepsHistory(s, val, r);
      case Writing(w) => TakeWriteKeepsHistory(s, val, w);
    }
  }

  lemma CancelKeepsHistory<T>(s: State<T>, val: Id -> T, e: Event, id: Id)
    requires Shape(s) && Accounts(s) && History(s, val) && s.holder.None?
    requires (e == CancelReader(id) && id in s.readers) || (e == CancelWriter(id) && id in s.writers)
    ensures History(Exec(s, val, e).value, val)
  {
    WaitingIsWritten(s, val);
    if e.CancelReader? {
      CancelReaderKeepsHistory(s, val, id);
    } else {
      CancelWriterKeepsHistory(s, val, id);
    }
  }

  lemma QuietKeepsHistory<T>(s: State<T>, s': State<T>, val: Id -> T)
    requires History(s, val) && (s.phase.Closed? ==> s'.phase.Closed?)
    requires s'.log == s.log.(seen := s'.log.seen)
    requires s'.phase.Closed? || (s'.buffer == s.buffer && s'.writers == s.writers && s'.readers == s.readers)
    ensures History(s', val)
  {
  }

  lemma HistoryKept<T>(s: State<T>, val: Id -> T, e: Event)
    requires Shape(s) && Accounts(s) && History(s, val) && Exec(s, val, e).Some?
    ensures History(Exec(s, val, e).value, val)
  {
    var s' := Exec(s, val, e).value;
    if e.Finish? {
      FinishKeepsHistory(s, val);
    } else if e.CancelReader? && e.r in s.readers {
      CancelKeepsHistory(s, val, e, e.r);
    } else if e.CancelWriter? && e.w in s.writers {
      CancelKeepsHistory(s, val, e, e.w);
    } else {
      QuietHistory(s, val, e);
      QuietKeepsHistory(s, s', val);
    }
  }

  /** The steps that neither take a value nor cancel anybody. */
  lemma QuietHistory<T>(s: State<T>, val: Id -> T, e: Event)
    requires Shape(s) && Exec(s, val, e).Some? && !e.Finish?
    requires !(e.CancelReader? && e.r in s.readers) && !(e.CancelWriter? && e.w in s.writers)
    ensures var s' := Exec(s, val, e).value;
            && (s.phase.Closed? ==> s'.phase.Closed?) && s'.log == s.log.(seen := s'.log.seen)
            && (s'.phase.Closed? || (s'.buffer == s.buffer && s'.writers == s.writers && s'.readers == s.readers))
  {
  }

  // ------------------------------------------------------- delivered values

  ghost predicate Took<T>(log: Log<T>, r: Id, v: T) {
    exists k :: 0 <= k < |log.gotBy| && k < |log.got| && log.gotBy[k] == r && log.got[k] == v
  }

  /** Every value a reader is resumed with is the one it took. */
  ghost predicate Delivered<T>(s: State<T>) {
    && (forall i :: 0 <= i < |s.owed| ==> s.owed[i].value.Some? ==> Took(s.log, s.owed[i].id, s.owed[i].value.value))
    && (forall r :: r in s.results ==> Took(s.log, r, s.results[r]))
  }

  lemma TookMore<T>(log: Log<T>, log': Log<T>, r: Id, v: T)
    requires Took(log, r, v) && log.got <= log'.got && log.gotBy <= log'.gotBy
    ensures Took(log', r, v)
  {
    var k :| 0 <= k < |log.gotBy| && k < |log.got| && log.gotBy[k] == r && log.got[k] == v;
    assert log'.gotBy[k] == r && log'.got[k] == v;
  }

  lemma OwedMore<T>(s: State<T>, s': State<T>, added: seq<Owed<T>>)
    requires Delivered(s) && s'.owed == s.owed + added && s'.results == s.results
    requires s.log.got <= s'.log.got && s.log.gotBy <= s'.log.gotBy
    requires forall i :: 0 <= i < |added| ==> added[i].value.Some? ==> Took(s'.log, added[i].id, added[i].value.value)
    ensures Delivered(s')
  {
    forall i | 0 <= i < |s'.owed| && s'.owed[i].value.Some?
      ensures Took(s'.log, s'.owed[i].id, s'.owed[i].value.value)
    {
      if i < |s.owed| {
        TookMore(s.log, s'.log, s.owed[i].id, s.owed[i].value.value);
      } else {
        assert s'.owed[i] == added[i - |s.owed|];
      }
    }
    forall r | r in s'.results ensures Took(s'.log, r, s'.results[r]) {
      TookMore(s.log, s'.log, r, s.results[r]);
    }
  }

  lemma TakeReadDelivers<T>(s: State<T>, val: Id -> T, r: Id)
    requires Delivered(s) && |s.log.gotBy| == |s.log.got|
    ensures Delivered(TakeRead(s, val, r))
  {
    var s' := TakeRead(s, val, r);
    var k := |s.log.got|;
    if s.buffer != [] || s.writers != [] {
      assert s'.log.gotBy[k] == r && Took(s'.log, r, s'.log.got[k]);
    }
    OwedMore(s, s', s'.owed[|s.owed|..]);
  }

  lemma TakeWriteDelivers<T>(s: State<T>, val: Id -> T, w: Id)
    requires Delivered(s) && |s.log.gotBy| == |s.log.got|
    ensures Delivered(TakeWrite(s, val, w))
  {
    var s' := TakeWrite(s, val, w);
    var k := |s.log.got|;
    if s.readers != [] {
      assert s'.log.gotBy[k] == s.readers[0] && Took(s'.log, s.readers[0], val(w));
    }
    OwedMore(s, s', s'.owed[|s.owed|..]);
  }

  lemma DeliveredKept<T>(s: State<T>, val: Id -> T, e: Event)
    requires Delivered(s) && |s.log.gotBy| == |s.log.got| && Exec(s, val, e).Some?
    ensures Delivered(Exec(s, val, e).value)
  {
    if e.Finish? {
      match s.holder.value {
        case Reading(r) => TakeReadDelivers(s, val, r);
        case Writing(w) => TakeWriteDelivers(s, val, w);
      }
    } else {
      var s' := Exec(s, val, e).value;
      assert s'.log.got == s.log.got && s'.log.gotBy == s.log.gotBy;
      assert forall r, v :: Took(s.log, r, v) ==> Took(s'.log, r, v);
    }
  }

  // ------------------------------------------------- every read is answered

  /** `r` has its value, or the resumption that brings it is still to come. */
  ghost predicate AnsweredWith<T>(s: State<T>, r: Id, v: T) {
    Owed(r, Some(v)) in s.owed || (r in s.results && s.results[r] == v)
  }

  /** Whoever took a value is resumed with it; only resumed readers have results. */
  ghost predicate Answered<T>(s: State<T>) {
    && |s.log.gotBy| == |s.log.got|
    && (forall k :: 0 <= k < |s.log.gotBy| ==> AnsweredWith(s, s.log.gotBy[k], s.log.got[k]))
    && (forall r :: r in s.results ==> r in s.resumed)
  }

  /** A push that hands nothing out, or hands `v` to `r`. */
  lemma AnsweredMore<T>(s: State<T>, s': State<T>, r: Id, v: T)
    requires Answered(s) && s.owed <= s'.owed && s'.results == s.results && s'.resumed == s.resumed
    requires (s'.log.got == s.log.got && s'.log.gotBy == s.log.gotBy)
             || (s'.log.got == s.log.got + [v] && s'.log.gotBy == s.log.gotBy + [r] && Owed(r, Some(v)) in s'.owed)
    ensures Answered(s')
  {
    forall k | 0 <= k < |s'.log.gotBy| ensures AnsweredWith(s', s'.log.gotBy[k], s'.log.got[k]) {
      if k < |s.log.gotBy| {
        assert AnsweredWith(s, s.log.gotBy[k], s.log.got[k]);
      } else {
        assert AnsweredWith(s', r, v);
      }
    }
  }

  lemma TakeReadAnswers<T>(s: State<T>, val: Id -> T, r: Id)
    requires Answered(s)
    ensures Answered(TakeRead(s, val, r))
  {
    var s' := TakeRead(s, val, r);
    var v := if s.buffer != [] then s.buffer[0] else val(if s.writers != [] then s.writers[0] else r);
    if s.buffer != [] || s.writers != [] {
      assert Owed(r, Some(v)) in s'.owed[|s.owed|..];
    }
    AnsweredMore(s, s', r, v);
  }

  lemma TakeWriteAnswers<T>(s: State<T>, val: Id -> T, w: Id)
    requires Answered(s)
    ensures Answered(TakeWrite(s, val, w))
  {
    var s' := TakeWrite(s, val, w);
    var r := if s.readers != [] then s.readers[0] else w;
    if s.readers != [] {
      assert Owed(r, Some(val(w))) in s'.owed[|s.owed|..];
    }
    AnsweredMore(s, s', r, val(w));
  }

  lemma OwedNotResumed<T>(s: State<T>, i: nat)
    requires Accounts(s) && i < |s.owed|
    ensures s.owed[i].id !in s.resumed
  {
    assert OwedIds(s.owed)[i] == s.owed[i].id;
    assert s.owed[i].id in multiset(OwedIds(s.owed));
    assert Tally(s)[s.owed[i].id] <= 1;
  }

  lemma OwedElsewhere<T>(owed: seq<Owed<T>>, i: nat, o: Owed<T>)
    requires i < |owed| && o in owed && o != owed[i]
    ensures o in owed[..i] + owed[i + 1..]
  {
    var j :| 0 <= j < |owed| && owed[j] == o;
    var rest := owed[..i] + owed[i + 1..];
    if j < i {
      assert rest[j] == o;
    } else {
      assert rest[j - 1] == o;
    }
  }

  /** A resumption answers its own reader and leaves the answers of the others alone. */
  lemma ResumeAnswers<T>(s: State<T>, i: nat)
    requires Answered(s) && Accounts(s) && i < |s.owed|
    ensures Answered(ResumeOne(s, i))
  {
    var s' := ResumeOne(s, i);
    var o := s.owed[i];
    OwedNotResumed(s, i);
    forall k | 0 <= k < |s'.log.gotBy| ensures AnsweredWith(s', s'.log.gotBy[k], s'.log.got[k]) {
      var r, v := s.log.gotBy[k], s.log.got[k];
      assert AnsweredWith(s, r, v);
      if Owed(r, Some(v)) in s.owed && o != Owed(r, Some(v)) {
        OwedElsewhere(s.owed, i, Owed(r, Some(v)));
      }
    }
  }

  lemma FinishAnswers<T>(s: State<T>, val: Id -> T)
    requires Answered(s) && s.holder.Some?
    ensures Answered(Exec(s, val, Finish).value)
  {
    match s.holder.value
    case Reading(r) => TakeReadAnswers(s, val, r);
    case Writing(w) => TakeWriteAnswers(s, val, w);
  }

  lemma QuietStep<T>(s: State<T>, val: Id -> T, e: Event)
    requires Exec(s, val, e).Some? && !e.Finish? && !e.Resume?
    ensures var s' := Exec(s, val, e).value;
            && s'.owed == s.owed && s'.results == s.results && s.resumed <= s'.resumed
            && s'.log.got == s.log.got && s'.log.gotBy == s.log.gotBy
  {
  }

  lemma QuietAnswers<T>(s: State<T>, s': State<T>)
    requires Answered(s) && s'.owed == s.owed && s'.results == s.results && s.resumed <= s'.resumed
    requires s'.log.got == s.log.got && s'.log.gotBy == s.log.gotBy
    ensures Answered(s')
  {
    forall k | 0 <= k < |s'.log.gotBy| ensures AnsweredWith(s', s'.log.gotBy[k], s'.log.got[k]) {
      assert AnsweredWith(s, s.log.gotBy[k], s.log.got[k]);
    }
  }

  lemma AnsweredKept<T>(s: State<T>, val: Id -> T, e: Event)
    requires Answered(s) && Accounts(s) && Exec(s, val, e).Some?
    ensures Answered(Exec(s, val, e).value)
  {
    if e.Finish? {
      FinishAnswers(s, val);
    } else if e.Resume? {
      ResumeAnswers(s, e.i);
    } else {
      QuietStep(s, val, e);
      QuietAnswers(s, Exec(s, val, e).value);
    }
  }
}
