/**
 * The channel as a state machine: one step per critical section of
 * `channel_lock`, per atomic access to the closed flag and per resumption. Any
 * number of readers and writers interleave their steps in any order; `val` gives
 * the value each writer carries.
 */
module ChannelProtocol {
  import opened AwaiterLists
  import opened Strings

  datatype Push = Reading(id: Id) | Writing(id: Id)

  /** A resumption decided under the lock and carried out after it is released. */
  datatype Owed<T> = Owed(id: Id, value: Option<T>)

  datatype Phase = Open | Closing | Closed

  datatype State<T> = State(
    capacity: nat,
    phase: Phase,
    holder: Option<Push>,         // a push that passed check_closed and holds the lock
    buffer: seq<T>,
    writers: seq<Id>,
    readers: seq<Id>,
    owed: seq<Owed<T>>,
    results: map<Id, T>,          // values handed to resumed readers
    resumed: seq<Id>,             // resumptions carried out, in order
    log: Log<T>)

  /** What happened so far; no step looks at it. */
  datatype Log<T> = Log(
    seen: set<Id>,                // awaiters that have suspended
    wrote: seq<Id>,               // writes in the order the channel took them up
    read: seq<Id>,                // reads in the order the channel took them up
    removed: set<Id>,             // awaiters cancelled while they waited
    accepted: seq<Id>,            // writes whose value left their awaiter
    got: seq<T>,                  // values taken by reads, in order
    gotBy: seq<Id>)               // the reads that took them

  datatype Event = BeginRead(r: Id) | BeginWrite(w: Id) | Finish | Resume(i: nat)
                 | CancelReader(r: Id) | CancelWriter(w: Id) | CloseFlag | CleanUp

  function Init<T>(capacity: nat): State<T> {
    State(capacity, Open, None, [], [], [], [], map[], [], Log({}, [], [], {}, [], [], []))
  }

  /** Lock, then check_closed: throws (and unlocks) when the channel is no longer open. */
  function Begin<T>(s: State<T>, p: Push): State<T> {
    s.(holder := if s.phase.Open? then Some(p) else None, log := s.log.(seen := s.log.seen + {p.id}))
  }

  /** The rest of try_push_reader, up to the unlock. */
  function TakeRead<T>(s: State<T>, val: Id -> T, r: Id): State<T> {
    var s := s.(holder := None, log := s.log.(read := s.log.read + [r]));
    if s.buffer != [] then
      var v := s.buffer[0];
      var log := s.log.(got := s.log.got + [v], gotBy := s.log.gotBy + [r]);
      if s.writers != [] then
        var w := s.writers[0];
        s.(buffer := s.buffer[1..] + [val(w)], writers := s.writers[1..],
           owed := s.owed + [Owed(w, None), Owed(r, Some(v))], log := log.(accepted := log.accepted + [w]))
      else
        s.(buffer := s.buffer[1..], owed := s.owed + [Owed(r, Some(v))], log := log)
    else if s.writers != [] then
      var w := s.writers[0];
      s.(writers := s.writers[1..], owed := s.owed + [Owed(r, Some(val(w))), Owed(w, None)],
         log := s.log.(got := s.log.got + [val(w)], gotBy := s.log.gotBy + [r], accepted := s.log.accepted + [w]))
    else
      s.(readers := s.readers + [r])
  }

  /** The rest of try_push_writer, up to the unlock. */
  function TakeWrite<T>(s: State<T>, val: Id -> T, w: Id): State<T> {
    var s := s.(holder := None, log := s.log.(wrote := s.log.wrote + [w]));
    if s.readers != [] then
      var r := s.readers[0];
      s.(readers := s.readers[1..], owed := s.owed + [Owed(r, Some(val(w))), Owed(w, None)],
         log := s.log.(got := s.log.got + [val(w)], gotBy := s.log.gotBy + [r], accepted := s.log.accepted + [w]))
    else if |s.buffer| < s.capacity then
      s.(buffer := s.buffer + [val(w)], owed := s.owed + [Owed(w, None)],
         log := s.log.(accepted := s.log.accepted + [w]))
    else
      s.(writers := s.writers + [w])
  }

  function ResumeOne<T>(s: State<T>, i: nat): State<T>
    requires i < |s.owed|
  {
    var o := s.owed[i];
    s.(owed := s.owed[..i] + s.owed[i + 1..], resumed := s.resumed + [o.id],
       results := if o.value.Some? then s.results[o.id := o.value.value] else s.results)
  }

  function Cancel<T>(s: State<T>, id: Id): State<T> {
    s.(log := s.log.(removed := s.log.removed + {id}))
  }

  /** One step; None when the step is not possible in this state. */
  function Exec<T>(s: State<T>, val: Id -> T, e: Event): Option<State<T>> {
    match e
    case BeginRead(r) => if s.holder.None? && r !in s.log.seen then Some(Begin(s, Reading(r))) else None
    case BeginWrite(w) => if s.holder.None? && w !in s.log.seen then Some(Begin(s, Writing(w))) else None
    case Finish =>
      (match s.holder
       case None => None
       case Some(Reading(r)) => Some(TakeRead(s, val, r))
       case Some(Writing(w)) => Some(TakeWrite(s, val, w)))
    case Resume(i) => if i < |s.owed| then Some(ResumeOne(s, i)) else None
    case CancelReader(r) =>
      if s.holder.Some? then None
      else if r in s.readers then Some(Cancel(s, r).(readers := Remove(s.readers, r))) else Some(s)
    case CancelWriter(w) =>
      if s.holder.Some? then None
      else if w in s.writers then Some(Cancel(s, w).(writers := Remove(s.writers, w))) else Some(s)
    case CloseFlag => if s.phase.Open? then Some(s.(phase := Closing)) else None
    case CleanUp =>
      if s.phase.Closing? && s.holder.None?
      then Some(s.(phase := Closed, resumed := s.resumed + s.writers + s.readers,
                   writers := [], readers := [], buffer := []))
      else None
  }

  /** A run: the state after the events, or None when some event was not possible. */
  function Run<T>(s: State<T>, val: Id -> T, es: seq<Event>): Option<State<T>>
    decreases |es|
  {
    if es == [] then Some(s)
    else
      match Exec(s, val, es[0])
      case None => None
      case Some(s') => Run(s', val, es[1..])
  }
}
