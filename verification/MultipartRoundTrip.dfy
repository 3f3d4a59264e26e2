/**
 * Feeding a printed body to the parser in arbitrary fragments: every callback
 * arrives, in order, and nothing else does.
 */
module MultipartRoundTrip {
  import opened Http
  import opened Multipart
  import opened Search
  import opened Strings

  // ------------------------------------------------ what the client receives

  datatype Received<F> = Received(file: F, content: string)

  /** The entries a client assembles from its callbacks; None if content came before any header. */
  function Assemble<F>(log: seq<Event<F>>): Option<seq<Received<F>>> {
    if log == [] then Some([])
    else
      match Assemble(log[..|log| - 1])
      case None => None
      case Some(rs) =>
        match log[|log| - 1]
        case Header(file) => Some(rs + [Received(file, "")])
        case Content(data) =>
          if rs == [] then None
          else var last := rs[|rs| - 1];
               Some(rs[..|rs| - 1] + [last.(content := last.content + data)])
  }

  function DecodeAll<F(!new)>(c: Config<F>, file: F, lines: seq<string>): (F, bool) {
    if lines == [] then (file, true)
    else
      var (file', ok) := c.decode(file, lines[0]);
      if ok then DecodeAll(c, file', lines[1..]) else (file', false)
  }

  function HeadersOf(item: UploadFormData): seq<string> {
    ["Content-Disposition: form-data; name=\"" + item.name + "\""
     + (if item.filename != "" then "; filename=\"" + item.filename + "\"" else "")]
    + (if item.contentType != "" then ["Content-Type: " + item.contentType] else [])
  }

  /** An item as the framing sees it. */
  datatype Part = Part(headers: seq<string>, content: string)

  function PartsOf(items: seq<UploadFormData>): seq<Part> {
    seq(|items|, i requires 0 <= i < |items| => Part(HeadersOf(items[i]), items[i].content))
  }

  function FileOf<F(!new)>(c: Config<F>, part: Part): F {
    DecodeAll(c, c.blank, part.headers).0
  }

  function Expected<F(!new)>(c: Config<F>, parts: seq<Part>): seq<Received<F>> {
    seq(|parts|, i requires 0 <= i < |parts| => Received(FileOf(c, parts[i]), parts[i].content))
  }

  // ------------------------------------------------------------ assumptions

  predicate IsBoundaryChar(ch: char) {
    '0' <= ch <= '9' || 'A' <= ch <= 'Z' || 'a' <= ch <= 'z' || ch == '-' || ch == '_'
  }

  predicate BoundaryOk(boundary: string) {
    forall i :: 0 <= i < |boundary| ==> IsBoundaryChar(boundary[i])
  }

  ghost predicate LineOk(line: string) {
    line != "" && |line| < HEADER_MAX_LENGTH && !Occurs(line, CRLF)
  }

  /** What the format can carry: short single-line headers that decode, content free of the delimiter. */
  ghost predicate PartOk<F(!new)>(c: Config<F>, part: Part) {
    && (forall i :: 0 <= i < |part.headers| ==> LineOk(part.headers[i]))
    && DecodeAll(c, c.blank, part.headers).1
    && !Occurs(part.content, c.CrlfDashBoundary())
  }

  ghost predicate Fits<F(!new)>(c: Config<F>, parts: seq<Part>) {
    && BoundaryOk(c.boundary)
    && (forall i :: 0 <= i < |parts| ==> PartOk(c, parts[i]))
    && (forall log :: c.accept(log))
  }

  // ---------------------------------------- the body as the parser meets it

  function Lines(lines: seq<string>): string {
    if lines == [] then "" else lines[0] + (CRLF + Lines(lines[1..]))
  }

  /** Everything after the header lines of `item`, whose content from here on is `left`. */
  function BodyText(delim: string, left: string, todo: seq<Part>): string
    decreases |todo|, 1
  {
    left + delim + TailText(delim, todo)
  }

  function HeadersText(delim: string, lines: seq<string>, content: string, todo: seq<Part>): string
    decreases |todo|, 2
  {
    Lines(lines) + (CRLF + BodyText(delim, content, todo))
  }

  /** Everything after a delimiter that is followed by the parts `todo`. */
  function TailText(delim: string, todo: seq<Part>): string
    decreases |todo|, 0
  {
    if todo == [] then DASH + CRLF
    else CRLF + HeadersText(delim, todo[0].headers, todo[0].content, todo[1..])
  }

  lemma OneLine(first: string)
    ensures Lines([first]) == first + CRLF
  {
    assert Lines([first]) == first + (CRLF + "");
  }

  lemma TwoLines(first: string, second: string)
    ensures Lines([first, second]) == first + CRLF + (second + CRLF)
  {
    OneLine(second);
    assert [first, second][1..] == [second];
    assert first + (CRLF + (second + CRLF)) == first + CRLF + (second + CRLF);
  }

  lemma ItemBeginSplits(item: UploadFormData, boundary: string)
    ensures ItemBegin(item, boundary) == DASH + boundary + CRLF + (Lines(HeadersOf(item)) + CRLF)
  {
    var first := HeadersOf(item)[0];
    if item.contentType == "" {
      assert HeadersOf(item) == [first];
      OneLine(first);
    } else {
      var second := "Content-Type: " + item.contentType;
      assert HeadersOf(item) == [first, second];
      TwoLines(first, second);
    }
    BeginLines(item, boundary);
  }

  /** The opening of an item, regrouped. */
  lemma BeginLines(item: UploadFormData, boundary: string)
    ensures var disposition := HeadersOf(item)[0];
            var contentType := if item.contentType != "" then "Content-Type: " + item.contentType + CRLF else "";
            ItemBegin(item, boundary) == DASH + boundary + CRLF + (disposition + CRLF + contentType + CRLF)
  {
  }

  lemma SerializedUnfolds(items: seq<UploadFormData>, boundary: string)
    requires items != []
    ensures Serialized(items, boundary)
         == ItemBegin(items[0], boundary) + (items[0].content + CRLF) + Serialized(items[1..], boundary)
  {
    var parts := Items(items, boundary);
    assert parts[1..] == Items(items[1..], boundary);
  }

  /** Pure regrouping of one item's text, with every literal abstracted. */
  lemma Regroup(crlf: string, opening: string, lines: string, content: string, rest: string)
    ensures crlf + (opening + crlf + (lines + crlf) + (content + crlf) + rest)
         == crlf + opening + (crlf + (lines + (crlf + (content + (crlf + rest)))))
  {
  }

  lemma FramingStep(headers: seq<string>, content: string, todo: seq<Part>, opening: string, rest: string)
    requires CRLF + rest == CRLF + opening + TailText(CRLF + opening, todo)
    ensures CRLF + (opening + CRLF + (Lines(headers) + CRLF) + (content + CRLF) + rest)
         == CRLF + opening + (CRLF + HeadersText(CRLF + opening, headers, content, todo))
  {
    var delim := CRLF + opening;
    Regroup(CRLF, opening, Lines(headers), content, rest);
    assert BodyText(delim, content, todo) == content + (CRLF + rest) by {
      assert (content + delim) + TailText(delim, todo) == content + (delim + TailText(delim, todo));
    }
  }

  /** The printed body is a delimiter (less its leading CRLF) followed by the text after a delimiter. */
  lemma {:induction false} Framing(items: seq<UploadFormData>, boundary: string)
    ensures CRLF + Serialized(items, boundary)
         == CRLF + (DASH + boundary) + TailText(CRLF + (DASH + boundary), PartsOf(items))
  {
    if items == [] {
      assert Flatten(Items(items, boundary)) == "";
    } else {
      Framing(items[1..], boundary);
      SerializedUnfolds(items, boundary);
      ItemBeginSplits(items[0], boundary);
      assert PartsOf(items)[1..] == PartsOf(items[1..]);
      FramingStep(HeadersOf(items[0]), items[0].content, PartsOf(items[1..]), DASH + boundary,
                  Serialized(items[1..], boundary));
    }
  }

  // --------------------------------------------------------- the invariant

  /** Where in the body the parser stands: what is still to come. */
  datatype Place =
    | AtStart
    | AtEntry(part: Part, todo: seq<Part>)
    | InHeaders(lines: seq<string>, part: Part, todo: seq<Part>)
    | InBody(given: string, left: string, part: Part, todo: seq<Part>)
    | AtBoundary(todo: seq<Part>)
    | AtEnd

  /** The parts already delivered when `n` are still to come. */
  function Done(parts: seq<Part>, n: nat): seq<Part>
    requires n <= |parts|
  {
    parts[..|parts| - n]
  }

  ghost predicate Within(parts: seq<Part>, part: Part, todo: seq<Part>) {
    |todo| < |parts| && parts[|parts| - |todo| - 1..] == [part] + todo
  }

  /** The parser in state `p`, with `rest` not yet fed to it, is where it should be in the body of `parts`. */
  ghost predicate OnTrack<F(!new)>(c: Config<F>, parts: seq<Part>, p: Parser<F>, place: Place, rest: string)
  {
    var delim := c.CrlfDashBoundary();
    var unread := p.window + rest;
    match place
    case AtStart =>
      !p.valid && p.state.Initial? && p.log == [] && parts != []
      && unread == c.DashBoundaryCrlf() + HeadersText(delim, parts[0].headers, parts[0].content, parts[1..])
    case AtEntry(part, todo) =>
      !p.valid && p.state.Entry? && Within(parts, part, todo)
      && Assemble(p.log) == Some(Expected(c, Done(parts, |todo| + 1)))
      && unread == HeadersText(delim, part.headers, part.content, todo)
    case InHeaders(lines, part, todo) =>
      !p.valid && p.state.Headers? && Within(parts, part, todo)
      && Assemble(p.log) == Some(Expected(c, Done(parts, |todo| + 1)))
      && (forall i :: 0 <= i < |lines| ==> LineOk(lines[i]))
      && DecodeAll(c, p.file, lines) == (FileOf(c, part), true)
      && unread == HeadersText(delim, lines, part.content, todo)
    case InBody(given, left, part, todo) =>
      !p.valid && p.state.Body? && Within(parts, part, todo)
      && given + left == part.content && !Occurs(left, delim)
      && Assemble(p.log) == Some(Expected(c, Done(parts, |todo| + 1)) + [Received(FileOf(c, part), given)])
      && unread == BodyText(delim, left, todo)
    case AtBoundary(todo) =>
      !p.valid && p.state.Boundary? && |todo| < |parts| && parts[|parts| - |todo|..] == todo
      && Assemble(p.log) == Some(Expected(c, Done(parts, |todo|)))
      && unread == TailText(delim, todo)
    case AtEnd =>
      p.valid && Assemble(p.log) == Some(Expected(c, parts))
      && (if p.state.Boundary? then unread == CRLF || unread == CRLF[1..] || unread == ""
          else p.state.Entry? && unread == "")
  }

  lemma DelimiterNeverOverlaps<F(!new)>(c: Config<F>)
    requires BoundaryOk(c.boundary)
    ensures NoOverlap(c.CrlfDashBoundary())
  {
    var delim := c.CrlfDashBoundary();
    forall i | 0 < i < |delim| ensures delim[i] != delim[0] {
      if i >= 4 {
        assert IsBoundaryChar(c.boundary[i - 4]);
      }
    }
  }

  lemma TailIsLong(delim: string, todo: seq<Part>)
    ensures |TailText(delim, todo)| >= 4
  {
  }

  lemma HeadersAreLong(delim: string, lines: seq<string>, content: string, todo: seq<Part>)
    ensures |HeadersText(delim, lines, content, todo)| >= 6
  {
    TailIsLong(delim, todo);
    assert |BodyText(delim, content, todo)| >= 4;
  }

  lemma WithinOk<F(!new)>(c: Config<F>, parts: seq<Part>, part: Part, todo: seq<Part>)
    requires Fits(c, parts) && Within(parts, part, todo)
    ensures PartOk(c, part)
  {
    var k := |parts| - |todo| - 1;
    assert parts[k..][0] == part;
    assert PartOk(c, parts[k]);
  }

  lemma OpeningWindow(w: string, rest: string, d: string, text: string)
    requires d != "" && w + rest == d + text
    ensures Find(w, d) == if |d| <= |w| then 0 else |w|
    ensures |d| <= |w| ==> w[|d|..] + rest == text
    ensures |w| < |d| ==> |rest| > |text|
  {
    var u := w + rest;
    assert u[..|d|] == d;
    assert OccursAt(u, d, 0);
    FindIs(u, d, 0);
    FindInPrefix(w, rest, d);
    if |d| <= |w| {
      assert w[|d|..] + rest == u[|d|..];
    }
  }

  lemma KeepStart<F(!new)>(c: Config<F>, parts: seq<Part>, p: Parser<F>, rest: string)
    requires p.window != "" && OnTrack(c, parts, p, AtStart, rest)
    ensures var (p', v) := Step(c, p);
            if v.More? then OnTrack(c, parts, p', AtEntry(parts[0], parts[1..]), rest)
            else v == Stop(true) && p' == p && |rest| > 2
  {
    var text := HeadersText(c.CrlfDashBoundary(), parts[0].headers, parts[0].content, parts[1..]);
    OpeningWindow(p.window, rest, c.DashBoundaryCrlf(), text);
    HeadersAreLong(c.CrlfDashBoundary(), parts[0].headers, parts[0].content, parts[1..]);
    if |c.DashBoundaryCrlf()| <= |p.window| {
      assert Expected(c, Done(parts, |parts|)) == [];
    }
  }

  /** The empty line ends the headers; half of it is left in the window. */
  lemma EmptyLineStep(w: string, rest: string, body: string)
    requires w + rest == CRLF + body && |body| > 0
    ensures Find(w, CRLF) == if 2 <= |w| then 0 else |w|
    ensures 2 <= |w| ==> w[2..] + rest == body
  {
    var u := w + rest;
    assert u[..2] == CRLF && u[2..] == body;
    FindIs(u, CRLF, 0);
    FindInPrefix(w, rest, CRLF);
    if 2 <= |w| {
      assert w[2..] + rest == u[2..];
    }
  }

  lemma KeepEmptyLine<F(!new)>(
    c: Config<F>, parts: seq<Part>, p: Parser<F>, rest: string, part: Part, todo: seq<Part>)
    requires Fits(c, parts)
    requires OnTrack(c, parts, p, InHeaders([], part, todo), rest)
    ensures var (p', v) := HeaderLines(c, p);
            if v.More? then OnTrack(c, parts, p', InBody("", part.content, part, todo), rest)
            else v == Stop(true) && p' == p && |rest| > 2
  {
    var body := BodyText(c.CrlfDashBoundary(), part.content, todo);
    assert p.window + rest == CRLF + body;
    EmptyLineStep(p.window, rest, body);
    if 2 <= |p.window| {
      WithinOk(c, parts, part, todo);
      var log := p.log + [Header(p.file)];
      assert log[..|log| - 1] == p.log;
    }
  }

  /** With its first line decoded and taken off the window, the parser stands before the other lines. */
  lemma LineTaken<F(!new)>(
    c: Config<F>, parts: seq<Part>, p: Parser<F>, rest: string,
    lines: seq<string>, part: Part, todo: seq<Part>, window: string)
    requires OnTrack(c, parts, p, InHeaders(lines, part, todo), rest) && lines != []
    requires window + rest == HeadersText(c.CrlfDashBoundary(), lines[1..], part.content, todo)
    ensures c.decode(p.file, lines[0]).1
    ensures OnTrack(c, parts, p.(file := c.decode(p.file, lines[0]).0, window := window),
                    InHeaders(lines[1..], part, todo), rest)
  {
    assert DecodeAll(c, p.file, lines).1;
  }

  /** A header line is taken whole, or left in the window. */
  lemma KeepFirstLine<F(!new)>(
    c: Config<F>, parts: seq<Part>, p: Parser<F>, rest: string,
    lines: seq<string>, part: Part, todo: seq<Part>)
    requires OnTrack(c, parts, p, InHeaders(lines, part, todo), rest) && lines != []
    ensures |lines[0]| + 2 <= |p.window| ==>
              var p1 := p.(file := c.decode(p.file, lines[0]).0, window := p.window[|lines[0]| + 2..]);
              && HeaderLines(c, p) == HeaderLines(c, p1)
              && OnTrack(c, parts, p1, InHeaders(lines[1..], part, todo), rest)
    ensures |lines[0]| + 2 > |p.window| ==> HeaderLines(c, p) == (p, Stop(true)) && |rest| > 2
  {
    var line := lines[0];
    FirstLineStep(c, parts, p, rest, lines, part, todo);
    if |line| + 2 <= |p.window| {
      var window := p.window[|line| + 2..];
      LineTaken(c, parts, p, rest, lines, part, todo, window);
      OneHeaderLine(c, p, line);
    }
  }

  lemma FirstLineStep<F(!new)>(
    c: Config<F>, parts: seq<Part>, p: Parser<F>, rest: string,
    lines: seq<string>, part: Part, todo: seq<Part>)
    requires OnTrack(c, parts, p, InHeaders(lines, part, todo), rest) && lines != []
    ensures LineOk(lines[0])
    ensures Find(p.window, CRLF) == if |lines[0]| + 2 <= |p.window| then |lines[0]| else |p.window|
    ensures |lines[0]| + 2 <= |p.window| ==>
              p.window[..|lines[0]|] == lines[0]
              && p.window[|lines[0]| + 2..] + rest
                 == HeadersText(c.CrlfDashBoundary(), lines[1..], part.content, todo)
    ensures |p.window| < |lines[0]| + 2 ==> |rest| > 2
  {
    var more := HeadersText(c.CrlfDashBoundary(), lines[1..], part.content, todo);
    FirstOfLines(c.CrlfDashBoundary(), lines, part.content, todo);
    LineStep(p.window, rest, lines[0], more);
  }

  lemma FirstOfLines(delim: string, lines: seq<string>, content: string, todo: seq<Part>)
    requires lines != []
    ensures HeadersText(delim, lines, content, todo) ==
            lines[0] + CRLF + HeadersText(delim, lines[1..], content, todo)
    ensures |HeadersText(delim, lines[1..], content, todo)| >= 2
  {
    RegroupLine(lines[0], CRLF, Lines(lines[1..]), CRLF + BodyText(delim, content, todo));
  }

  lemma RegroupLine(line: string, crlf: string, lines: string, rest: string)
    ensures line + (crlf + lines) + rest == line + crlf + (lines + rest)
  {
  }

  /** One turn of the inner loop. */
  lemma OneHeaderLine<F(!new)>(c: Config<F>, p: Parser<F>, line: string)
    requires p.state.Headers? && line != "" && |line| + 2 <= |p.window| && p.window[..|line|] == line
    requires Find(p.window, CRLF) == |line| && c.decode(p.file, line).1
    ensures HeaderLines(c, p) ==
            HeaderLines(c, p.(file := c.decode(p.file, line).0, window := p.window[|line| + 2..]))
  {
  }

  /** Reading header lines from a partly arrived text; ends in the body or waits for more. */
  lemma {:induction false} KeepHeaders<F(!new)>(
    c: Config<F>, parts: seq<Part>, p: Parser<F>, rest: string,
    lines: seq<string>, part: Part, todo: seq<Part>)
    returns (lines': seq<string>)
    requires Fits(c, parts)
    requires OnTrack(c, parts, p, InHeaders(lines, part, todo), rest)
    ensures var (p', v) := HeaderLines(c, p);
            if v.More? then OnTrack(c, parts, p', InBody("", part.content, part, todo), rest)
            else v == Stop(true) && OnTrack(c, parts, p', InHeaders(lines', part, todo), rest) && |rest| > 2
    decreases |lines|
  {
    lines' := lines;
    if lines == [] {
      KeepEmptyLine(c, parts, p, rest, part, todo);
    } else {
      KeepFirstLine(c, parts, p, rest, lines, part, todo);
      if |lines[0]| + 2 <= |p.window| {
        var p1 := p.(file := c.decode(p.file, lines[0]).0, window := p.window[|lines[0]| + 2..]);
        lines' := KeepHeaders(c, parts, p1, rest, lines[1..], part, todo);
      }
    }
  }

  lemma LineStep(w: string, rest: string, line: string, more: string)
    requires LineOk(line) && w + rest == line + CRLF + more && |more| >= 2
    ensures Find(w, CRLF) == if |line| + 2 <= |w| then |line| else |w|
    ensures |line| + 2 <= |w| ==> w[..|line|] == line && w[|line| + 2..] + rest == more
    ensures |w| < |line| + 2 ==> |rest| > 2
  {
    var u := w + rest;
    DelimiterFirst(line, CRLF, more);
    FindInPrefix(w, rest, CRLF);
    if |line| + 2 <= |w| {
      assert w[..|line|] == u[..|line|];
      assert w[|line| + 2..] + rest == u[|line| + 2..];
    }
  }

  /** No header line is long enough for the length check, however little of it has arrived. */
  lemma LengthCheckPasses<F(!new)>(
    c: Config<F>, parts: seq<Part>, p: Parser<F>, rest: string,
    lines: seq<string>, part: Part, todo: seq<Part>)
    requires OnTrack(c, parts, p, InHeaders(lines, part, todo), rest)
    ensures Find(p.window, CRLF) <= HEADER_MAX_LENGTH
  {
    var u := p.window + rest;
    var body := BodyText(c.CrlfDashBoundary(), part.content, todo);
    if lines == [] {
      assert u[..2] == CRLF;
      FindIs(u, CRLF, 0);
      FindInPrefix(p.window, rest, CRLF);
    } else {
      LineStep(p.window, rest, lines[0], Lines(lines[1..]) + (CRLF + body));
    }
  }

  /** The content that arrives next in a log is appended to the entry being assembled. */
  lemma AssembleContent<F>(log: seq<Event<F>>, rs: seq<Received<F>>, file: F, given: string, data: string)
    requires Assemble(log) == Some(rs + [Received(file, given)])
    ensures Assemble(log + [Content(data)]) == Some(rs + [Received(file, given + data)])
  {
    var log' := log + [Content(data)];
    assert log'[..|log'| - 1] == log;
    var all := rs + [Received(file, given)];
    assert all[..|all| - 1] == rs;
  }

  lemma DoneGrows<F(!new)>(c: Config<F>, parts: seq<Part>, part: Part, todo: seq<Part>)
    requires Within(parts, part, todo)
    ensures Expected(c, Done(parts, |todo| + 1)) + [Received(FileOf(c, part), part.content)]
         == Expected(c, Done(parts, |todo|))
    ensures parts[|parts| - |todo|..] == todo
  {
    var tail := parts[|parts| - |todo| - 1..];
    assert tail[0] == part && tail[1..] == todo;
    assert parts[|parts| - |todo|..] == tail[1..];
    assert Done(parts, |todo|) == Done(parts, |todo| + 1) + [part];
  }

  /** What a body step sees in a window over content, delimiter and tail. */
  lemma BodyWindow(w: string, rest: string, left: string, delim: string, tail: string)
    requires NoOverlap(delim) && !Occurs(left, delim) && w + rest == left + delim + tail && |tail| >= 4
    ensures Find(w, delim) == if |left| + |delim| <= |w| then |left| else |w|
    ensures |left| + |delim| <= |w| ==> w[..|left|] == left && w[|left| + |delim|..] + rest == tail
    ensures |w| < |left| + |delim| ==> |rest| > 2
    ensures |delim| <= |w| < |left| + |delim| ==>
              var len := |w| - |delim|;
              && w[..len] == left[..len] && w[len..] + rest == left[len..] + delim + tail
              && !Occurs(left[len..], delim)
  {
    var u := w + rest;
    DelimiterFirst(left, delim, tail);
    FindInPrefix(w, rest, delim);
    if |left| + |delim| <= |w| {
      assert w[..|left|] == u[..|left|];
      assert w[|left| + |delim|..] + rest == u[|left| + |delim|..];
    } else if |delim| <= |w| {
      var len := |w| - |delim|;
      assert w[..len] == u[..len] == left[..len];
      assert w[len..] + rest == u[len..] == left[len..] + delim + tail;
      if Occurs(left[len..], delim) {
        assert left[len..|left|] == left[len..];
        OccursInPart(left, delim, len, |left|);
      }
    }
  }

  /** With the rest of its content handed over and the delimiter passed, an entry is done. */
  lemma ContentDone<F(!new)>(
    c: Config<F>, parts: seq<Part>, p: Parser<F>, rest: string,
    given: string, left: string, part: Part, todo: seq<Part>, window: string)
    requires OnTrack(c, parts, p, InBody(given, left, part, todo), rest)
    requires window + rest == TailText(c.CrlfDashBoundary(), todo)
    ensures OnTrack(c, parts, p.(log := p.log + [Content(left)], window := window, state := Boundary),
                    AtBoundary(todo), rest)
  {
    AssembleContent(p.log, Expected(c, Done(parts, |todo| + 1)), FileOf(c, part), given, left);
    DoneGrows(c, parts, part, todo);
  }

  /** Some of the content handed over. */
  lemma ContentGiven<F(!new)>(
    c: Config<F>, parts: seq<Part>, p: Parser<F>, rest: string,
    given: string, left: string, part: Part, todo: seq<Part>, piece: string, more: string, window: string)
    requires OnTrack(c, parts, p, InBody(given, left, part, todo), rest)
    requires left == piece + more && !Occurs(more, c.CrlfDashBoundary())
    requires window + rest == BodyText(c.CrlfDashBoundary(), more, todo)
    ensures OnTrack(c, parts, p.(log := p.log + [Content(piece)], window := window),
                    InBody(given + piece, more, part, todo), rest)
  {
    AssembleContent(p.log, Expected(c, Done(parts, |todo| + 1)), FileOf(c, part), given, piece);
    assert (given + piece) + more == given + left;
  }

  lemma KeepBodyWhole<F(!new)>(
    c: Config<F>, parts: seq<Part>, p: Parser<F>, rest: string,
    given: string, left: string, part: Part, todo: seq<Part>)
    requires Fits(c, parts)
    requires OnTrack(c, parts, p, InBody(given, left, part, todo), rest)
    requires |left| + |c.CrlfDashBoundary()| <= |p.window|
    ensures var (p', v) := BodyStep(c, p);
            v.More? && OnTrack(c, parts, p', AtBoundary(todo), rest)
  {
    var delim := c.CrlfDashBoundary();
    DelimiterNeverOverlaps(c);
    TailIsLong(delim, todo);
    BodyWindow(p.window, rest, left, delim, TailText(delim, todo));
    var window := p.window[|left| + |delim|..];
    assert BodyStep(c, p) == (p.(log := p.log + [Content(left)], window := window, state := Boundary), More);
    ContentDone(c, parts, p, rest, given, left, part, todo, window);
  }

  lemma KeepBodyPiece<F(!new)>(
    c: Config<F>, parts: seq<Part>, p: Parser<F>, rest: string,
    given: string, left: string, part: Part, todo: seq<Part>)
    requires Fits(c, parts)
    requires OnTrack(c, parts, p, InBody(given, left, part, todo), rest)
    requires |c.CrlfDashBoundary()| < |p.window| < |left| + |c.CrlfDashBoundary()|
    ensures var now := |p.window| - |c.CrlfDashBoundary()|;
            var (p', v) := BodyStep(c, p);
            && v == Stop(true) && |rest| > 2
            && OnTrack(c, parts, p', InBody(given + left[..now], left[now..], part, todo), rest)
  {
    var delim := c.CrlfDashBoundary();
    var now := |p.window| - |delim|;
    DelimiterNeverOverlaps(c);
    TailIsLong(delim, todo);
    BodyWindow(p.window, rest, left, delim, TailText(delim, todo));
    var piece, more, window := left[..now], left[now..], p.window[now..];
    assert left == piece + more;
    assert BodyStep(c, p) == (p.(log := p.log + [Content(piece)], window := window), Stop(true));
    ContentGiven(c, parts, p, rest, given, left, part, todo, piece, more, window);
  }

  lemma KeepBody<F(!new)>(
    c: Config<F>, parts: seq<Part>, p: Parser<F>, rest: string,
    given: string, left: string, part: Part, todo: seq<Part>)
    returns (place: Place)
    requires Fits(c, parts)
    requires OnTrack(c, parts, p, InBody(given, left, part, todo), rest)
    ensures place.AtBoundary? || place.InBody?
    ensures var (p', v) := BodyStep(c, p);
            OnTrack(c, parts, p', place, rest) && v != Stop(false)
            && (v.Stop? ==> |rest| > 2) && (place.InBody? ==> v.Stop?)
  {
    var delim := c.CrlfDashBoundary();
    place := InBody(given, left, part, todo);
    if |left| + |delim| <= |p.window| {
      KeepBodyWhole(c, parts, p, rest, given, left, part, todo);
      place := AtBoundary(todo);
    } else if |delim| < |p.window| {
      KeepBodyPiece(c, parts, p, rest, given, left, part, todo);
      var now := |p.window| - |delim|;
      place := InBody(given + left[..now], left[now..], part, todo);
    } else {
      DelimiterNeverOverlaps(c);
      TailIsLong(delim, todo);
      BodyWindow(p.window, rest, left, delim, TailText(delim, todo));
    }
  }

  lemma KeepBoundary<F(!new)>(
    c: Config<F>, parts: seq<Part>, p: Parser<F>, rest: string, todo: seq<Part>)
    returns (place: Place)
    requires p.window != "" && OnTrack(c, parts, p, AtBoundary(todo), rest)
    ensures var (p', v) := BoundaryStep(p);
            OnTrack(c, parts, p', place, rest) && v != Stop(false)
            && (v.More? ==> !place.AtBoundary?) && (v.Stop? ==> |rest| > 2)
            && !place.InBody? && !place.AtStart? && !place.InHeaders?
  {
    var delim := c.CrlfDashBoundary();
    var w := p.window;
    var u := w + rest;
    TailIsLong(delim, todo);
    place := AtBoundary(todo);
    if |w| >= 2 {
      assert w[..2] == u[..2];
      assert w[2..] + rest == u[2..];
      if todo == [] {
        assert u[..2] == DASH;
        assert "" + rest == rest;
        assert rest == if |w| == 2 then CRLF else if |w| == 3 then CRLF[1..] else "" by {
          assert rest == u[|w|..];
        }
        assert Done(parts, 0) == parts;
        place := AtEnd;
      } else {
        assert u[..2] == CRLF;
        assert parts[|parts| - |todo|..] == [todo[0]] + todo[1..];
        place := AtEntry(todo[0], todo[1..]);
      }
    }
  }

  lemma StepKeeps<F(!new)>(c: Config<F>, parts: seq<Part>, p: Parser<F>, place: Place, rest: string)
    returns (place': Place)
    requires Fits(c, parts) && p.window != "" && OnTrack(c, parts, p, place, rest)
    ensures var (p', v) := Step(c, p);
            OnTrack(c, parts, p', place', rest) && v != Stop(false)
            && (v.Stop? ==> |rest| > 2 || place'.AtEnd?)
  {
    match place
    case AtStart =>
      KeepStart(c, parts, p, rest);
      place' := if Step(c, p).1.More? then AtEntry(parts[0], parts[1..]) else AtStart;
    case AtEntry(part, todo) =>
      WithinOk(c, parts, part, todo);
      place' := InHeaders(part.headers, part, todo);
    case InHeaders(lines, part, todo) =>
      WithinOk(c, parts, part, todo);
      LengthCheckPasses(c, parts, p, rest, lines, part, todo);
      var lines' := KeepHeaders(c, parts, p, rest, lines, part, todo);
      place' := if Step(c, p).1.More? then InBody("", part.content, part, todo) else InHeaders(lines', part, todo);
    case InBody(given, left, part, todo) =>
      place' := KeepBody(c, parts, p, rest, given, left, part, todo);
    case AtBoundary(todo) =>
      place' := KeepBoundary(c, parts, p, rest, todo);
    case AtEnd =>
      place' := AtEnd;
      assert p.state.Boundary?;
  }

  /** A whole call of the parser: it never refuses, and stops short of the end only for lack of input. */
  lemma {:induction false} RunKeeps<F(!new)>(c: Config<F>, parts: seq<Part>, p: Parser<F>, place: Place, rest: string)
    returns (place': Place)
    requires Fits(c, parts) && OnTrack(c, parts, p, place, rest)
    ensures var (p', ok) := Run(c, p);
            ok && OnTrack(c, parts, p', place', rest) && (|rest| > 2 || place'.AtEnd?)
    decreases |p.window|, if p.state.Entry? then 1 else 0
  {
    place' := place;
    if p.window == "" {
      PlaceIsLong(c, parts, p, place, rest);
    } else {
      var next := StepKeeps(c, parts, p, place, rest);
      var (p', v) := Step(c, p);
      if v.More? {
        place' := RunKeeps(c, parts, p', next, rest);
      } else {
        place' := next;
      }
    }
  }

  lemma PlaceIsLong<F(!new)>(c: Config<F>, parts: seq<Part>, p: Parser<F>, place: Place, rest: string)
    requires OnTrack(c, parts, p, place, rest)
    ensures |p.window + rest| > 2 || place.AtEnd?
  {
    var delim := c.CrlfDashBoundary();
    match place
    case AtStart => HeadersAreLong(delim, parts[0].headers, parts[0].content, parts[1..]);
    case AtEntry(part, todo) => HeadersAreLong(delim, part.headers, part.content, todo);
    case InHeaders(lines, part, todo) => HeadersAreLong(delim, lines, part.content, todo);
    case InBody(_, _, _, todo) => TailIsLong(delim, todo);
    case AtBoundary(todo) => TailIsLong(delim, todo);
    case AtEnd =>
  }

  lemma {:induction false} FeedKeeps<F(!new)>(
    c: Config<F>, parts: seq<Part>, p: Parser<F>, place: Place, frags: seq<string>, rest: string)
    returns (place': Place)
    requires Fits(c, parts) && OnTrack(c, parts, p, place, Flatten(frags) + rest)
    requires |Flatten(frags) + rest| > 2 || place.AtEnd?
    ensures var (p', ok) := Feed(c, p, frags);
            ok && OnTrack(c, parts, p', place', rest) && (|rest| > 2 || place'.AtEnd?)
    decreases |frags|
  {
    place' := place;
    if frags == [] {
      assert Flatten(frags) + rest == rest;
    } else {
      var later := Flatten(frags[1..]) + rest;
      assert (p.window + frags[0]) + later == p.window + (Flatten(frags) + rest);
      var next := RunKeeps(c, parts, p.(window := p.window + frags[0]), place, later);
      place' := FeedKeeps(c, parts, Parse(c, p, frags[0]).0, next, frags[1..], rest);
    }
  }

  lemma StartsOnTrack<F(!new)>(c: Config<F>, items: seq<UploadFormData>)
    requires items != []
    ensures OnTrack(c, PartsOf(items), Start(c), AtStart, Serialized(items, c.boundary))
    ensures |Serialized(items, c.boundary)| > 2
  {
    var parts := PartsOf(items);
    var opening := DASH + c.boundary;
    var body := Serialized(items, c.boundary);
    Framing(items, c.boundary);
    assert CRLF + opening == c.CrlfDashBoundary();
    OpenBody(CRLF, opening, c.CrlfDashBoundary(), body,
             HeadersText(c.CrlfDashBoundary(), parts[0].headers, parts[0].content, parts[1..]));
    HeadersAreLong(c.CrlfDashBoundary(), parts[0].headers, parts[0].content, parts[1..]);
    assert "" + body == body;
  }

  lemma OpenBody(crlf: string, opening: string, delim: string, body: string, text: string)
    requires delim == crlf + opening && crlf + body == delim + (crlf + text)
    ensures body == opening + crlf + text
  {
    assert body == (crlf + body)[|crlf|..];
    assert (crlf + opening + (crlf + text))[|crlf|..] == opening + crlf + text;
  }

  /** Received so far: the first of the entries expected, the last of them perhaps with only part of its content. */
  ghost predicate BeginningOf<F(!new)>(got: seq<Received<F>>, whole: seq<Received<F>>) {
    && |got| <= |whole|
    && (forall i :: 0 <= i < |got| - 1 ==> got[i] == whole[i])
    && (got != [] ==>
          var last, item := got[|got| - 1], whole[|got| - 1];
          last.file == item.file && last.content <= item.content)
  }

  lemma WholeEntries<F(!new)>(c: Config<F>, parts: seq<Part>, n: nat)
    requires n <= |parts|
    ensures BeginningOf(Expected(c, Done(parts, n)), Expected(c, parts))
  {
  }

  lemma PartOfAnEntry<F(!new)>(c: Config<F>, parts: seq<Part>, part: Part, todo: seq<Part>, given: string, left: string)
    requires Within(parts, part, todo) && given + left == part.content
    ensures BeginningOf(Expected(c, Done(parts, |todo| + 1)) + [Received(FileOf(c, part), given)], Expected(c, parts))
  {
    var n := |parts| - |todo| - 1;
    assert parts[n] == parts[n..][0] == part;
    assert given <= part.content;
  }

  /** Wherever the parser stands in the body, the callbacks were handed the beginning of the entries. */
  lemma NothingElseArrives<F(!new)>(c: Config<F>, parts: seq<Part>, p: Parser<F>, place: Place, rest: string)
    requires OnTrack(c, parts, p, place, rest)
    ensures var got := Assemble(p.log); got.Some? && BeginningOf(got.value, Expected(c, parts))
  {
    match place
    case AtStart =>
    case AtEntry(part, todo) => WholeEntries(c, parts, |todo| + 1);
    case InHeaders(lines, part, todo) => WholeEntries(c, parts, |todo| + 1);
    case InBody(given, left, part, todo) => PartOfAnEntry(c, parts, part, todo, given, left);
    case AtBoundary(todo) => WholeEntries(c, parts, |todo|);
    case AtEnd =>
      assert Done(parts, 0) == parts;
      WholeEntries(c, parts, 0);
  }

  /**
   * The multipart round trip. Whatever the fragments, a client fed a prefix of a
   * printed body is never refused; so far the callbacks have delivered the
   * beginning of the items. The parser calls the body valid exactly when the
   * closing delimiter has arrived (all but the final CRLF), and then they have
   * delivered every item, in order, each with its whole content.
   */
  lemma MultipartRoundTrip<F(!new)>(c: Config<F>, items: seq<UploadFormData>, frags: seq<string>, rest: string)
    requires items != [] && Fits(c, PartsOf(items))
    requires Flatten(frags) + rest == Serialized(items, c.boundary)
    ensures var (p, ok) := Feed(c, Start(c), frags);
            && ok
            && (p.valid <==> |rest| <= 2)
            && Assemble(p.log).Some? && BeginningOf(Assemble(p.log).value, Expected(c, PartsOf(items)))
            && (p.valid ==> Assemble(p.log) == Some(Expected(c, PartsOf(items))))
  {
    StartsOnTrack(c, items);
    var place := FeedKeeps(c, PartsOf(items), Start(c), AtStart, frags, rest);
    NothingElseArrives(c, PartsOf(items), Feed(c, Start(c), frags).0, place, rest);
  }
}
