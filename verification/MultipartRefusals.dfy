/**
 * When the multipart parser refuses: exactly when a header line it has reached
 * does not decode or a callback it has made is refused.
 */
module MultipartRefusals {
  import opened Http
  import opened Multipart
  import opened MultipartRoundTrip
  import opened Search
  import opened Strings

  // ------------------------------------------------- the agreeable client

  /** A form entry, and whether all its header lines so far decoded. */
  datatype Checked<F> = Checked(file: F, fine: bool)

  /** The same form read by a client that never refuses; what would have been refused is only remembered. */
  function Agreeable<F(!new)>(c: Config<F>): Config<Checked<F>> {
    Config(c.boundary, Checked(c.blank, true),
           (x: Checked<F>, line: string) =>
             (Checked(c.decode(x.file, line).0, x.fine && c.decode(x.file, line).1), true),
           (log: seq<Event<Checked<F>>>) => true)
  }

  function Plain<F>(e: Event<Checked<F>>): Event<F> {
    match e
    case Header(x) => Header(x.file)
    case Content(data) => Content(data)
  }

  function PlainLog<F>(log: seq<Event<Checked<F>>>): seq<Event<F>> {
    seq(|log|, i requires 0 <= i < |log| => Plain(log[i]))
  }

  function PlainParser<F>(q: Parser<Checked<F>>): Parser<F> {
    Parser(q.state, q.valid, q.file.file, q.window, PlainLog(q.log))
  }

  predicate FineEvents<F>(log: seq<Event<Checked<F>>>) {
    forall i :: 0 <= i < |log| && log[i].Header? ==> log[i].file.fine
  }

  predicate AllAccepted<F(!new)>(c: Config<F>, log: seq<Event<F>>) {
    forall k :: 1 <= k <= |log| ==> c.accept(log[..k])
  }

  /** Every header line the agreeable client has met decodes, and its callbacks are all welcome. */
  predicate NothingRefused<F(!new)>(c: Config<F>, q: Parser<Checked<F>>) {
    && (q.state.Headers? ==> q.file.fine)
    && FineEvents(q.log)
    && AllAccepted(c, PlainLog(q.log))
  }

  // -------------------------------------------------------- one step alike

  lemma PlainSnoc<F>(log: seq<Event<Checked<F>>>, e: Event<Checked<F>>)
    ensures PlainLog(log + [e]) == PlainLog(log) + [Plain(e)]
  {
  }

  lemma AcceptedSnoc<F(!new)>(c: Config<F>, log: seq<Event<F>>, e: Event<F>)
    ensures AllAccepted(c, log + [e]) <==> AllAccepted(c, log) && c.accept(log + [e])
  {
    var all := log + [e];
    assert all[..|all|] == all;
    assert forall k :: 1 <= k <= |log| ==> all[..k] == log[..k];
  }

  lemma FineSnoc<F>(log: seq<Event<Checked<F>>>, e: Event<Checked<F>>)
    ensures FineEvents(log + [e]) <==> FineEvents(log) && (e.Header? ==> e.file.fine)
  {
    var all := log + [e];
    assert all[|log|] == e && forall i :: 0 <= i < |log| ==> all[i] == log[i];
  }

  /** A callback: both clients make it, and go on alike if it is welcome. */
  lemma EmitAlike<F(!new)>(c: Config<F>, q: Parser<Checked<F>>, e: Event<Checked<F>>)
    requires FineEvents(q.log) && AllAccepted(c, PlainLog(q.log))
    ensures var q', p' := Emit(Agreeable(c), q, e), Emit(c, PlainParser(q), Plain(e));
            && p'.log == PlainLog(q'.log)
            && (AllAccepted(c, PlainLog(q'.log)) <==> c.accept(p'.log))
            && (c.accept(p'.log) ==> p' == PlainParser(q'))
            && (!c.accept(p'.log) ==> !p'.valid)
            && (FineEvents(q'.log) <==> (e.Header? ==> e.file.fine))
            && q' == q.(log := q.log + [e])
  {
    PlainSnoc(q.log, e);
    AcceptedSnoc(c, PlainLog(q.log), Plain(e));
    FineSnoc(q.log, e);
  }

  /** How the two clients stand to each other: alike, or the one refused at something the other has met. */
  ghost predicate Alike<F(!new)>(c: Config<F>, p: Parser<F>, ok: bool, q: Parser<Checked<F>>, agreed: bool) {
    if NothingRefused(c, q) then p == PlainParser(q) && ok == agreed
    else !ok && !p.valid && p.log <= PlainLog(q.log)
  }

  function Goes(v: Verdict): bool {
    v.More? || v.ret
  }

  lemma {:induction false} HeaderLinesAlike<F(!new)>(c: Config<F>, q: Parser<Checked<F>>)
    requires q.state.Headers? && NothingRefused(c, q)
    ensures var (p', v), (q', u) := HeaderLines(c, PlainParser(q)), HeaderLines(Agreeable(c), q);
            Alike(c, p', Goes(v), q', Goes(u)) && (NothingRefused(c, q') ==> v == u)
    decreases |q.window|
  {
    var pos := Find(q.window, CRLF);
    if pos == |q.window| {
    } else if pos == 0 {
      EmitAlike(c, q, Header(q.file));
    } else {
      var q1 := HeaderLine(Agreeable(c), q, pos).0;
      if q1.file.fine {
        HeaderLinesAlike(c, q1);
      } else {
        LinesStayRefused(c, q1);
      }
    }
  }

  /** Once a header line did not decode, the entry is never fine again. */
  lemma {:induction false} LinesStayRefused<F(!new)>(c: Config<F>, q: Parser<Checked<F>>)
    requires q.state.Headers? && !q.file.fine
    ensures var q' := HeaderLines(Agreeable(c), q).0;
            !NothingRefused(c, q') && q.log <= q'.log
    decreases |q.window|
  {
    var pos := Find(q.window, CRLF);
    if pos == |q.window| {
    } else if pos == 0 {
      FineSnoc(q.log, Header(q.file));
    } else {
      LinesStayRefused(c, HeaderLine(Agreeable(c), q, pos).0);
    }
  }

  /** Content handed over, by both clients. */
  lemma DeliverAlike<F(!new)>(c: Config<F>, q: Parser<Checked<F>>, data: string)
    requires q.state.Body? && NothingRefused(c, q)
    ensures var q', p' := Emit(Agreeable(c), q, Content(data)), Emit(c, PlainParser(q), Content(data));
            && q'.state.Body? && q'.window == q.window
            && (if c.accept(p'.log) then NothingRefused(c, q') && p' == PlainParser(q')
                else !p'.valid && p'.log == PlainLog(q'.log)
                     && forall q'': Parser<Checked<F>> :: q''.log == q'.log ==> !NothingRefused(c, q''))
  {
    EmitAlike(c, q, Content(data));
  }

  lemma BodyAlike<F(!new)>(c: Config<F>, q: Parser<Checked<F>>)
    requires q.state.Body? && NothingRefused(c, q)
    ensures var (p', v), (q', u) := BodyStep(c, PlainParser(q)), BodyStep(Agreeable(c), q);
            Alike(c, p', Goes(v), q', Goes(u)) && (NothingRefused(c, q') ==> v == u)
  {
    var delim := c.CrlfDashBoundary();
    if |delim| <= |q.window| {
      var pos := Find(q.window, delim);
      DeliverAlike(c, q, q.window[..if pos < |q.window| then pos else |q.window| - |delim|]);
    }
  }

  lemma StepAlike<F(!new)>(c: Config<F>, q: Parser<Checked<F>>)
    requires q.window != "" && NothingRefused(c, q)
    ensures var (p', v), (q', u) := Step(c, PlainParser(q)), Step(Agreeable(c), q);
            Alike(c, p', Goes(v), q', Goes(u)) && (NothingRefused(c, q') ==> v == u)
            && (!NothingRefused(c, q') ==> v == Stop(false))
  {
    match q.state
    case Headers =>
      if Find(q.window, CRLF) <= HEADER_MAX_LENGTH {
        HeaderLinesAlike(c, q);
      }
    case Body => BodyAlike(c, q);
    case _ =>
  }

  // ------------------------------------------------------- whole runs alike

  lemma {:induction false} HeaderLinesGrow<F(!new)>(c: Config<F>, q: Parser<Checked<F>>)
    requires q.state.Headers?
    ensures q.log <= HeaderLines(Agreeable(c), q).0.log
    decreases |q.window|
  {
    var pos := Find(q.window, CRLF);
    if pos < |q.window| && pos > 0 {
      HeaderLinesGrow(c, HeaderLine(Agreeable(c), q, pos).0);
    }
  }

  lemma StepGrows<F(!new)>(c: Config<F>, q: Parser<Checked<F>>)
    requires q.window != ""
    ensures q.log <= Step(Agreeable(c), q).0.log
  {
    if q.state.Headers? {
      HeaderLinesGrow(c, q);
    }
  }

  lemma RefusedLog<F(!new)>(c: Config<F>, a: seq<Event<Checked<F>>>, b: seq<Event<Checked<F>>>)
    requires a <= b
    ensures FineEvents(b) ==> FineEvents(a)
    ensures AllAccepted(c, PlainLog(b)) ==> AllAccepted(c, PlainLog(a))
    ensures PlainLog(a) <= PlainLog(b)
  {
    var x, y := PlainLog(a), PlainLog(b);
    assert forall i :: 0 <= i < |a| ==> a[i] == b[i];
    assert forall k :: 1 <= k <= |x| ==> x[..k] == y[..k];
  }

  /** What was a reason to refuse stays one. */
  lemma StepStaysRefused<F(!new)>(c: Config<F>, q: Parser<Checked<F>>)
    requires q.window != "" && !NothingRefused(c, q)
    ensures !NothingRefused(c, Step(Agreeable(c), q).0)
  {
    var q' := Step(Agreeable(c), q).0;
    StepGrows(c, q);
    RefusedLog(c, q.log, q'.log);
    if q.state.Headers? && !q.file.fine && Find(q.window, CRLF) <= HEADER_MAX_LENGTH {
      LinesStayRefused(c, q);
    }
  }

  lemma {:induction false} RunStaysRefused<F(!new)>(c: Config<F>, q: Parser<Checked<F>>)
    ensures var q' := Run(Agreeable(c), q).0;
            q.log <= q'.log && (!NothingRefused(c, q) ==> !NothingRefused(c, q'))
    decreases |q.window|, if q.state.Entry? then 1 else 0
  {
    if q.window != "" {
      StepGrows(c, q);
      if !NothingRefused(c, q) {
        StepStaysRefused(c, q);
      }
      var (q', u) := Step(Agreeable(c), q);
      if u.More? {
        RunStaysRefused(c, q');
      }
    }
  }

  lemma {:induction false} RunAlike<F(!new)>(c: Config<F>, q: Parser<Checked<F>>)
    requires NothingRefused(c, q)
    ensures var (p', ok), (q', agreed) := Run(c, PlainParser(q)), Run(Agreeable(c), q);
            Alike(c, p', ok, q', agreed)
    decreases |q.window|, if q.state.Entry? then 1 else 0
  {
    if q.window != "" {
      StepAlike(c, q);
      var (q', u) := Step(Agreeable(c), q);
      if u.More? {
        if NothingRefused(c, q') {
          RunAlike(c, q');
        } else {
          RunStaysRefused(c, q');
          RefusedLog(c, q'.log, Run(Agreeable(c), q').0.log);
        }
      }
    }
  }

  lemma {:induction false} FeedStaysRefused<F(!new)>(c: Config<F>, q: Parser<Checked<F>>, frags: seq<string>)
    ensures var q' := Feed(Agreeable(c), q, frags).0;
            q.log <= q'.log && (!NothingRefused(c, q) ==> !NothingRefused(c, q'))
    decreases |frags|
  {
    if frags != [] {
      RunStaysRefused(c, q.(window := q.window + frags[0]));
      var (q', agreed) := Parse(Agreeable(c), q, frags[0]);
      if agreed {
        FeedStaysRefused(c, q', frags[1..]);
      }
    }
  }

  /**
   * For any input, cut anywhere: as long as nothing is a reason to refuse, the
   * parser is where it would be with the agreeable client; from the first reason
   * on it has refused, and the form is not valid.
   */
  lemma {:induction false} FeedAlike<F(!new)>(c: Config<F>, q: Parser<Checked<F>>, frags: seq<string>)
    requires NothingRefused(c, q)
    ensures var (p', ok), (q', agreed) := Feed(c, PlainParser(q), frags), Feed(Agreeable(c), q, frags);
            Alike(c, p', ok, q', agreed)
    decreases |frags|
  {
    if frags != [] {
      RunAlike(c, q.(window := q.window + frags[0]));
      var (q', agreed) := Parse(Agreeable(c), q, frags[0]);
      if agreed {
        if NothingRefused(c, q') {
          FeedAlike(c, q', frags[1..]);
        } else {
          FeedStaysRefused(c, q', frags[1..]);
          RefusedLog(c, q'.log, Feed(Agreeable(c), q', frags[1..]).0.log);
        }
      }
    }
  }

  // ---------------------------------------------------------- printed bodies

  /** What the format can carry, whatever the decoder and the client say to it. */
  ghost predicate Framed<F(!new)>(c: Config<F>, parts: seq<Part>) {
    && BoundaryOk(c.boundary)
    && (forall i :: 0 <= i < |parts| ==>
          && (forall j :: 0 <= j < |parts[i].headers| ==> LineOk(parts[i].headers[j]))
          && !Occurs(parts[i].content, c.CrlfDashBoundary()))
  }

  /** The agreeable client remembers whether the lines decode. */
  lemma {:induction false} DecodesAlike<F(!new)>(c: Config<F>, x: Checked<F>, lines: seq<string>)
    ensures var (x', ok) := DecodeAll(Agreeable(c), x, lines);
            && ok && (x'.fine <==> x.fine && DecodeAll(c, x.file, lines).1)
            && (x'.fine ==> x'.file == DecodeAll(c, x.file, lines).0)
    decreases |lines|
  {
    if lines != [] {
      var x1 := Agreeable(c).decode(x, lines[0]).0;
      DecodesAlike(c, x1, lines[1..]);
    }
  }

  lemma FitsAgreeable<F(!new)>(c: Config<F>, parts: seq<Part>)
    requires Framed(c, parts)
    ensures Fits(Agreeable(c), parts)
  {
    forall i | 0 <= i < |parts| ensures PartOk(Agreeable(c), parts[i]) {
      DecodesAlike(c, Checked(c.blank, true), parts[i].headers);
    }
  }

  ghost predicate Decodes<F(!new)>(c: Config<F>, part: Part) {
    DecodeAll(c, c.blank, part.headers).1
  }

  /**
   * Refusal, exactly. A printed body is fed up to any point, in any fragments.
   * The agreeable client meets some of its entries (the last one perhaps in
   * part), each with the mark whether its header lines decode. The parser goes
   * on if and only if all it has met is fine and every callback was accepted;
   * then it has told its client just this. Otherwise the form is not valid and
   * the client was told no more than the beginning of it.
   */
  lemma RefusesExactly<F(!new)>(c: Config<F>, items: seq<UploadFormData>, frags: seq<string>, rest: string)
    requires items != [] && Framed(c, PartsOf(items))
    requires Flatten(frags) + rest == Serialized(items, c.boundary)
    ensures var (p, ok), q := Feed(c, Start(c), frags), Feed(Agreeable(c), Start(Agreeable(c)), frags).0;
            && Assemble(q.log).Some?
            && BeginningOf(Assemble(q.log).value, Expected(Agreeable(c), PartsOf(items)))
            && (q.valid <==> |rest| <= 2)
            && (ok <==> NothingRefused(c, q))
            && (ok ==> p == PlainParser(q))
            && (!ok ==> !p.valid && p.log <= PlainLog(q.log))
  {
    FitsAgreeable(c, PartsOf(items));
    MultipartRoundTrip.MultipartRoundTrip(Agreeable(c), items, frags, rest);
    var q := Start(Agreeable(c));
    assert PlainParser(q) == Start(c);
    FeedAlike(c, q, frags);
  }

  lemma {:induction false} AssembledFine<F>(log: seq<Event<Checked<F>>>)
    requires Assemble(log).Some?
    ensures FineEvents(log) <==> forall i :: 0 <= i < |Assemble(log).value| ==> Assemble(log).value[i].file.fine
    decreases |log|
  {
    if log != [] {
      var init, last := log[..|log| - 1], log[|log| - 1];
      assert log == init + [last];
      AssembledFine(init);
      FineSnoc(init, last);
      AssembledSnoc(Assemble(init).value, last, Assemble(log).value);
    }
  }

  lemma AssembledSnoc<F>(rs: seq<Received<Checked<F>>>, e: Event<Checked<F>>, all: seq<Received<Checked<F>>>)
    requires e.Header? ==> all == rs + [Received(e.file, "")]
    requires e.Content? ==>
               rs != [] && |all| == |rs| && all[..|rs| - 1] == rs[..|rs| - 1]
               && all[|rs| - 1].file == rs[|rs| - 1].file
    ensures (forall i :: 0 <= i < |all| ==> all[i].file.fine) <==>
            (forall i :: 0 <= i < |rs| ==> rs[i].file.fine) && (e.Header? ==> e.file.fine)
  {
    if e.Header? {
      assert all[|rs|] == Received(e.file, "") && forall i :: 0 <= i < |rs| ==> all[i] == rs[i];
    } else {
      assert forall i :: 0 <= i < |rs| - 1 ==> all[i] == all[..|rs| - 1][i] == rs[..|rs| - 1][i] == rs[i];
    }
  }

  lemma EndsBehindHeaders<F(!new)>(c: Config<F>, items: seq<UploadFormData>, frags: seq<string>)
    requires items != [] && Fits(c, PartsOf(items)) && Flatten(frags) == Serialized(items, c.boundary)
    ensures !Feed(c, Start(c), frags).0.state.Headers?
  {
    assert Flatten(frags) + "" == Flatten(frags);
    StartsOnTrack(c, items);
    var place := FeedKeeps(c, PartsOf(items), Start(c), AtStart, frags, "");
    assert place.AtEnd?;
  }

  /** A whole body is taken if and only if every header line of every item decodes and every callback is accepted. */
  lemma WholeBodyRefused<F(!new)>(c: Config<F>, items: seq<UploadFormData>, frags: seq<string>)
    requires items != [] && Framed(c, PartsOf(items))
    requires Flatten(frags) == Serialized(items, c.boundary)
    ensures var (p, ok), q := Feed(c, Start(c), frags), Feed(Agreeable(c), Start(Agreeable(c)), frags).0;
            && (ok <==> (forall i :: 0 <= i < |items| ==> Decodes(c, PartsOf(items)[i]))
                        && AllAccepted(c, PlainLog(q.log)))
            && p.valid == ok
            && (ok ==> p.log == PlainLog(q.log))
  {
    var parts, q := PartsOf(items), Feed(Agreeable(c), Start(Agreeable(c)), frags).0;
    assert Flatten(frags) + "" == Flatten(frags);
    RefusesExactly(c, items, frags, "");
    FitsAgreeable(c, parts);
    MultipartRoundTrip.MultipartRoundTrip(Agreeable(c), items, frags, "");
    AssembledFine(q.log);
    forall i | 0 <= i < |items|
      ensures Assemble(q.log).value[i].file.fine <==> Decodes(c, parts[i])
    {
      DecodesAlike(c, Checked(c.blank, true), parts[i].headers);
    }
    EndsBehindHeaders(Agreeable(c), items, frags);
  }
}
