/**
 * The limit on header lines is exact. A line of 8192 bytes or more is refused
 * when its first 8193 bytes arrive alone; every other token of the body may
 * arrive alone and is taken whole.
 */
module MultipartLimit {
  import opened Http
  import opened Multipart
  import opened MultipartRoundTrip
  import opened Search
  import opened Strings

  predicate Short(part: Part) {
    forall i :: 0 <= i < |part.headers| ==> |part.headers[i]| < HEADER_MAX_LENGTH
  }

  predicate AllShort(parts: seq<Part>) {
    forall i :: 0 <= i < |parts| ==> Short(parts[i])
  }

  ghost predicate SingleLines(lines: seq<string>) {
    forall i :: 0 <= i < |lines| ==> lines[i] != "" && !Occurs(lines[i], CRLF)
  }

  /** What the format can carry, whatever the length of its header lines. */
  ghost predicate PartOkAtAnyLength<F(!new)>(c: Config<F>, part: Part) {
    SingleLines(part.headers) && DecodeAll(c, c.blank, part.headers).1 && !Occurs(part.content, c.CrlfDashBoundary())
  }

  ghost predicate FitsAtAnyLength<F(!new)>(c: Config<F>, parts: seq<Part>) {
    && BoundaryOk(c.boundary)
    && (forall i :: 0 <= i < |parts| ==> PartOkAtAnyLength(c, parts[i]))
    && (forall log :: c.accept(log))
  }

  lemma FitsMeans<F(!new)>(c: Config<F>, parts: seq<Part>)
    requires FitsAtAnyLength(c, parts)
    ensures AllShort(parts) ==> Fits(c, parts)
  {
    if AllShort(parts) {
      forall i | 0 <= i < |parts| ensures PartOk(c, parts[i]) {
        assert PartOkAtAnyLength(c, parts[i]) && Short(parts[i]);
      }
    }
  }

  // -------------------------------------------------- one token at a time

  /** The parser has nothing in its window and is reading, or about to read, header lines. */
  ghost predicate AtHeaders<F(!new)>(c: Config<F>, p: Parser<F>, file: F) {
    p.window == "" && if p.state.Entry? then file == c.blank else p.state.Headers? && p.file == file
  }

  /** Opening an entry makes no difference to what is read next. */
  lemma RunFromHeaders<F(!new)>(c: Config<F>, p: Parser<F>, file: F, data: string)
    requires AtHeaders(c, p, file) && data != ""
    ensures Parse(c, p, data) == Run(c, p.(window := data, state := Headers, file := file))
  {
    assert "" + data == data;
    var q := p.(window := data);
    if p.state.Entry? {
      assert Step(c, q) == (q.(file := c.blank, state := Headers), More);
    } else {
      assert q == q.(file := file, state := Headers);
    }
  }

  /** A turn that uses up the window is the last one. */
  lemma RunsOnce<F(!new)>(c: Config<F>, q: Parser<F>, p': Parser<F>)
    requires q.window != "" && Step(c, q) == (p', More) && p'.window == ""
    ensures Run(c, q) == (p', true)
  {
    assert Run(c, p') == (p', true);
  }

  lemma ParsesFrom<F(!new)>(c: Config<F>, p: Parser<F>, data: string)
    requires p.window == ""
    ensures Parse(c, p, data) == Run(c, p.(window := data))
  {
    assert "" + data == data;
  }

  lemma TakesLine<F(!new)>(c: Config<F>, p: Parser<F>, file: F, line: string) returns (p': Parser<F>)
    requires AtHeaders(c, p, file) && LineOk(line) && c.decode(file, line).1
    ensures Parse(c, p, line + CRLF) == (p', true) && AtHeaders(c, p', c.decode(file, line).0)
  {
    var data := line + CRLF;
    RunFromHeaders(c, p, file, data);
    DelimiterFirst(line, CRLF, "");
    assert data + "" == data && data[..|line|] == line && data[|line| + 2..] == "";
    var q := p.(window := data, state := Headers, file := file);
    p' := q.(window := "", file := c.decode(file, line).0);
    assert HeaderLine(c, q, |line|) == (p', More);
    assert HeaderLines(c, p') == (p', Stop(true));
  }

  lemma TakesEmptyLine<F(!new)>(c: Config<F>, p: Parser<F>, file: F) returns (p': Parser<F>)
    requires AtHeaders(c, p, file) && forall log :: c.accept(log)
    ensures Parse(c, p, CRLF) == (p', true) && p'.state.Body? && p'.window == ""
  {
    RunFromHeaders(c, p, file, CRLF);
    var q := p.(window := CRLF, state := Headers, file := file);
    assert OccursAt(CRLF, CRLF, 0);
    p' := EmptyLine(c, q).0;
    assert CRLF[2..] == "" && HeaderLines(c, q) == (p', More);
    RunsOnce(c, q, p');
  }

  lemma WholeContent<F(!new)>(c: Config<F>, q: Parser<F>, content: string, delim: string) returns (p': Parser<F>)
    requires q.state.Body? && BoundaryOk(c.boundary) && delim == c.CrlfDashBoundary() && !Occurs(content, delim)
    requires q.window == content + delim && forall log :: c.accept(log)
    ensures BodyStep(c, q) == (p', More) && p'.state.Boundary? && p'.window == ""
  {
    DelimiterNeverOverlaps(c);
    DelimiterFirst(content, delim, "");
    assert content + delim + "" == q.window && q.window[|content| + |delim|..] == "";
    p' := BodyStep(c, q).0;
  }

  lemma TakesContent<F(!new)>(c: Config<F>, p: Parser<F>, content: string) returns (p': Parser<F>)
    requires p.state.Body? && p.window == "" && BoundaryOk(c.boundary) && forall log :: c.accept(log)
    requires !Occurs(content, c.CrlfDashBoundary())
    ensures Parse(c, p, content + c.CrlfDashBoundary()) == (p', true) && p'.state.Boundary? && p'.window == ""
  {
    var delim := c.CrlfDashBoundary();
    var q := p.(window := content + delim);
    ParsesFrom(c, p, content + delim);
    p' := WholeContent(c, q, content, delim);
    RunsOnce(c, q, p');
  }

  lemma TakesNext<F(!new)>(c: Config<F>, p: Parser<F>) returns (p': Parser<F>)
    requires p.state.Boundary? && p.window == ""
    ensures Parse(c, p, CRLF) == (p', true) && AtHeaders(c, p', c.blank)
  {
    ParsesFrom(c, p, CRLF);
    assert CRLF[..2] == CRLF && CRLF[2..] == "";
    p' := p.(state := Entry, window := "");
    assert BoundaryStep(p.(window := CRLF)) == (p', More);
    RunsOnce(c, p.(window := CRLF), p');
  }

  lemma TakesOpening<F(!new)>(c: Config<F>) returns (p': Parser<F>)
    ensures Parse(c, Start(c), c.DashBoundaryCrlf()) == (p', true) && AtHeaders(c, p', c.blank)
  {
    var d := c.DashBoundaryCrlf();
    ParsesFrom(c, Start(c), d);
    assert OccursAt(d, d, 0) && d[|d|..] == "";
    p' := Start(c).(state := Entry);
    assert Step(c, Start(c).(window := d)) == (p', More);
    RunsOnce(c, Start(c).(window := d), p');
  }

  /** The first 8193 bytes of a long line and its CRLF hold no CRLF, and that is too long. */
  lemma RefusesLongLine<F(!new)>(c: Config<F>, p: Parser<F>, file: F, line: string)
    requires AtHeaders(c, p, file) && !Occurs(line, CRLF) && |line| >= HEADER_MAX_LENGTH
    ensures !Parse(c, p, (line + CRLF)[..HEADER_MAX_LENGTH + 1]).1
  {
    var whole := line + CRLF;
    var data, rest := whole[..HEADER_MAX_LENGTH + 1], whole[HEADER_MAX_LENGTH + 1..];
    RunFromHeaders(c, p, file, data);
    DelimiterFirst(line, CRLF, "");
    assert whole + "" == whole == data + rest;
    FindInPrefix(data, rest, CRLF);
    assert Find(data, CRLF) == |data|;
  }

  // ------------------------------------------------------ the whole body

  lemma FeedCons<F(!new)>(c: Config<F>, p: Parser<F>, p': Parser<F>, token: string, frags: seq<string>)
    requires Parse(c, p, token) == (p', true)
    ensures Feed(c, p, [token] + frags) == Feed(c, p', frags)
    ensures Flatten([token] + frags) == token + Flatten(frags)
  {
    assert ([token] + frags)[1..] == frags;
  }

  lemma FeedStops<F(!new)>(c: Config<F>, p: Parser<F>, token: string, rest: string)
    requires !Parse(c, p, token).1
    ensures !Feed(c, p, [token, rest]).1 && Flatten([token, rest]) == token + rest
  {
    assert [token, rest][1..] == [rest] && [rest][1..] == [];
    assert Flatten([rest]) == rest + "" == rest;
  }

  /** From the start of some header lines, with a long one among them or later, some cut is refused. */
  lemma {:induction false} SomeCutIsRefused<F(!new)>(
    c: Config<F>, p: Parser<F>, file: F, lines: seq<string>, content: string, todo: seq<Part>)
    returns (frags: seq<string>)
    requires AtHeaders(c, p, file) && FitsAtAnyLength(c, todo)
    requires SingleLines(lines) && DecodeAll(c, file, lines).1 && !Occurs(content, c.CrlfDashBoundary())
    requires !Short(Part(lines, content)) || !AllShort(todo)
    ensures Flatten(frags) == HeadersText(c.CrlfDashBoundary(), lines, content, todo)
    ensures !Feed(c, p, frags).1
    decreases |todo|, |lines| + 1
  {
    var delim := c.CrlfDashBoundary();
    if lines == [] {
      frags := CutInLaterPart(c, p, file, content, todo);
    } else if |lines[0]| >= HEADER_MAX_LENGTH {
      var text := HeadersText(delim, lines, content, todo);
      var n := HEADER_MAX_LENGTH + 1;
      FirstLineFirst(delim, lines, content, todo, n);
      RefusesLongLine(c, p, file, lines[0]);
      FeedStops(c, p, text[..n], text[n..]);
      assert text[..n] + text[n..] == text;
      frags := [text[..n], text[n..]];
    } else {
      var p' := TakesLine(c, p, file, lines[0]);
      LaterLines(lines, content, todo);
      frags := SomeCutIsRefused(c, p', c.decode(file, lines[0]).0, lines[1..], content, todo);
      FeedCons(c, p, p', lines[0] + CRLF, frags);
      FirstOfLines(delim, lines, content, todo);
      frags := [lines[0] + CRLF] + frags;
    }
  }

  lemma {:induction false} CutInLaterPart<F(!new)>(
    c: Config<F>, p: Parser<F>, file: F, content: string, todo: seq<Part>)
    returns (frags: seq<string>)
    requires AtHeaders(c, p, file) && FitsAtAnyLength(c, todo) && !AllShort(todo)
    requires !Occurs(content, c.CrlfDashBoundary())
    ensures Flatten(frags) == HeadersText(c.CrlfDashBoundary(), [], content, todo)
    ensures !Feed(c, p, frags).1
    decreases |todo|, 0
  {
    var delim, part := c.CrlfDashBoundary(), todo[0];
    assert PartOkAtAnyLength(c, part);
    LaterParts(c, todo);
    var p1 := TakesEmptyLine(c, p, file);
    var p2 := TakesContent(c, p1, content);
    var p3 := TakesNext(c, p2);
    var later := SomeCutIsRefused(c, p3, c.blank, part.headers, part.content, todo[1..]);
    FeedCons(c, p2, p3, CRLF, later);
    FeedCons(c, p1, p2, content + delim, [CRLF] + later);
    FeedCons(c, p, p1, CRLF, [content + delim] + ([CRLF] + later));
    frags := [CRLF] + ([content + delim] + ([CRLF] + later));
    EmptyLineAndRest(delim, content, todo);
  }

  lemma FirstLineFirst(delim: string, lines: seq<string>, content: string, todo: seq<Part>, n: nat)
    requires lines != [] && n <= |lines[0]| + 2
    ensures |lines[0]| + 2 <= |HeadersText(delim, lines, content, todo)|
    ensures HeadersText(delim, lines, content, todo)[..n] == (lines[0] + CRLF)[..n]
  {
    FirstOfLines(delim, lines, content, todo);
  }

  lemma EmptyLineAndRest(delim: string, content: string, todo: seq<Part>)
    requires todo != []
    ensures HeadersText(delim, [], content, todo) ==
            CRLF + ((content + delim) + (CRLF + HeadersText(delim, todo[0].headers, todo[0].content, todo[1..])))
  {
    var text := CRLF + BodyText(delim, content, todo);
    assert Lines([]) + text == text;
    assert TailText(delim, todo) == CRLF + HeadersText(delim, todo[0].headers, todo[0].content, todo[1..]);
  }

  lemma LaterLines(lines: seq<string>, content: string, todo: seq<Part>)
    requires lines != [] && |lines[0]| < HEADER_MAX_LENGTH
    ensures !Short(Part(lines, content)) ==> !Short(Part(lines[1..], content))
    ensures SingleLines(lines) ==> SingleLines(lines[1..])
  {
    if Short(Part(lines[1..], content)) {
      forall i | 0 <= i < |lines| ensures |lines[i]| < HEADER_MAX_LENGTH {
        assert i > 0 ==> lines[i] == Part(lines[1..], content).headers[i - 1];
      }
    }
  }

  lemma LaterParts<F(!new)>(c: Config<F>, todo: seq<Part>)
    requires todo != [] && FitsAtAnyLength(c, todo)
    ensures FitsAtAnyLength(c, todo[1..])
    ensures !AllShort(todo) ==> !Short(todo[0]) || !AllShort(todo[1..])
  {
    if Short(todo[0]) && AllShort(todo[1..]) {
      forall i | 0 <= i < |todo| ensures Short(todo[i]) {
        assert i > 0 ==> todo[i] == todo[1..][i - 1];
      }
    }
  }

  // --------------------------------------------------------- the theorem

  ghost predicate Arrives<F(!new)>(c: Config<F>, items: seq<UploadFormData>, frags: seq<string>) {
    var (p, ok) := Feed(c, Start(c), frags);
    ok && p.valid && Assemble(p.log) == Some(Expected(c, PartsOf(items)))
  }

  /** However the printed body is cut, it arrives. */
  ghost predicate SurvivesEveryCut<F(!new)>(c: Config<F>, items: seq<UploadFormData>) {
    forall frags: seq<string> :: Flatten(frags) == Serialized(items, c.boundary) ==> Arrives(c, items, frags)
  }

  lemma BodyOpens<F(!new)>(c: Config<F>, items: seq<UploadFormData>)
    requires items != []
    ensures var part := PartsOf(items)[0];
            Serialized(items, c.boundary) ==
            c.DashBoundaryCrlf() + HeadersText(c.CrlfDashBoundary(), part.headers, part.content, PartsOf(items)[1..])
  {
    var parts, opening := PartsOf(items), DASH + c.boundary;
    Framing(items, c.boundary);
    assert CRLF + opening == c.CrlfDashBoundary();
    OpenBody(CRLF, opening, c.CrlfDashBoundary(), Serialized(items, c.boundary),
             HeadersText(c.CrlfDashBoundary(), parts[0].headers, parts[0].content, parts[1..]));
  }

  /** The round trip holds for every cut exactly when every header line is below 8192 bytes. */
  lemma LineLimitIsExact<F(!new)>(c: Config<F>, items: seq<UploadFormData>)
    requires items != [] && FitsAtAnyLength(c, PartsOf(items))
    ensures SurvivesEveryCut(c, items) <==> AllShort(PartsOf(items))
  {
    var parts := PartsOf(items);
    if AllShort(parts) {
      FitsMeans(c, parts);
      forall frags: seq<string> | Flatten(frags) == Serialized(items, c.boundary) ensures Arrives(c, items, frags) {
        assert Flatten(frags) + "" == Flatten(frags);
        MultipartRoundTrip.MultipartRoundTrip(c, items, frags, "");
      }
    } else {
      LaterParts(c, parts);
      assert PartOkAtAnyLength(c, parts[0]);
      var p := TakesOpening(c);
      var later := SomeCutIsRefused(c, p, c.blank, parts[0].headers, parts[0].content, parts[1..]);
      FeedCons(c, Start(c), p, c.DashBoundaryCrlf(), later);
      BodyOpens(c, items);
      assert !Arrives(c, items, [c.DashBoundaryCrlf()] + later);
    }
  }
}
