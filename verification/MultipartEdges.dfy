/** What stands around a printed body: text before the first delimiter, and behind the last one. */
module MultipartEdges {
  import opened Multipart
  import opened MultipartRoundTrip
  import opened Search
  import opened Strings

  // --------------------------------------------------------------- preamble

  /** The fragments without the first `n` characters. */
  function Dropped(frags: seq<string>, n: nat): seq<string> {
    if frags == [] then []
    else if n <= |frags[0]| then [frags[0][n..]] + frags[1..]
    else [""] + Dropped(frags[1..], n - |frags[0]|)
  }

  lemma {:induction false} DroppedText(frags: seq<string>, n: nat)
    requires n <= |Flatten(frags)|
    ensures Flatten(Dropped(frags, n)) == Flatten(frags)[n..]
    decreases |frags|
  {
    if frags != [] {
      var first, later := frags[0], frags[1..];
      if n <= |first| {
        assert ([first[n..]] + later)[1..] == later;
        assert first[n..] + Flatten(later) == (first + Flatten(later))[n..];
      } else {
        DroppedText(later, n - |first|);
        assert ([""] + Dropped(later, n - |first|))[1..] == Dropped(later, n - |first|);
        assert Flatten(later)[n - |first|..] == (first + Flatten(later))[n..];
      }
    }
  }

  /** The parser and the one that never sees the preamble: alike, but for what the first one has not thrown away yet. */
  ghost predicate SameResult<F(!new)>(a: (Parser<F>, bool), b: (Parser<F>, bool)) {
    && a.1 == b.1 && a.0.state == b.0.state && a.0.valid == b.0.valid && a.0.file == b.0.file && a.0.log == b.0.log
    && (a.0.state.Initial? || a.0.window == b.0.window)
  }

  lemma WaitsForOpening<F(!new)>(c: Config<F>, p: Parser<F>)
    requires p.state.Initial? && Find(p.window, c.DashBoundaryCrlf()) == |p.window|
    ensures Run(c, p) == (p, true)
  {
  }

  lemma FindsOpening<F(!new)>(c: Config<F>, p: Parser<F>, pos: nat)
    requires p.state.Initial? && Find(p.window, c.DashBoundaryCrlf()) == pos < |p.window|
    ensures Run(c, p) == Run(c, p.(window := p.window[pos + |c.DashBoundaryCrlf()|..], state := Entry))
  {
  }

  /** What is left of a text when the preamble is taken off. */
  function Behind(pre: string, text: string): string {
    if |text| >= |pre| then text[|pre|..] else ""
  }

  function StillToDrop(pre: string, text: string): nat {
    if |text| >= |pre| then 0 else |pre| - |text|
  }

  lemma DroppedNone(frags: seq<string>)
    ensures Dropped(frags, 0) == frags
  {
    if frags != [] {
      assert frags[0][0..] == frags[0];
    }
  }

  lemma BehindGrows(pre: string, text: string, more: string)
    ensures Behind(pre, text + more) ==
            if |text| >= |pre| then Behind(pre, text) + more
            else if |text| + |more| >= |pre| then more[|pre| - |text|..]
            else ""
  {
  }

  lemma DroppedFirst(frags: seq<string>, n: nat)
    requires frags != []
    ensures var dropped := Dropped(frags, n);
            && dropped != []
            && dropped[0] == (if n <= |frags[0]| then frags[0][n..] else "")
            && dropped[1..] == Dropped(frags[1..], if n <= |frags[0]| then 0 else n - |frags[0]|)
  {
    DroppedNone(frags[1..]);
  }

  /** The first fragment, with and without the preamble. */
  lemma DropFirst(pre: string, text: string, frags: seq<string>)
    requires frags != []
    ensures var dropped := Dropped(frags, StillToDrop(pre, text));
            && dropped != []
            && Behind(pre, text) + dropped[0] == Behind(pre, text + frags[0])
            && dropped[1..] == Dropped(frags[1..], StillToDrop(pre, text + frags[0]))
  {
    var n := StillToDrop(pre, text);
    BehindGrows(pre, text, frags[0]);
    DroppedFirst(frags, n);
    assert frags[0][0..] == frags[0];
  }

  lemma NotYet<F(!new)>(c: Config<F>, pre: string, body: string, w: string, rest: string)
    requires w + rest == pre + body && Find(pre + body, c.DashBoundaryCrlf()) == |pre| < |pre + body|
    requires |w| < |pre| + |c.DashBoundaryCrlf()|
    ensures Find(w, c.DashBoundaryCrlf()) == |w|
    ensures Find(Behind(pre, w), c.DashBoundaryCrlf()) == |Behind(pre, w)|
  {
    FindInPrefix(w, rest, c.DashBoundaryCrlf());
    assert |Behind(pre, w)| < |c.DashBoundaryCrlf()|;
  }

  lemma Now<F(!new)>(c: Config<F>, pre: string, body: string, w: string, rest: string)
    requires w + rest == pre + body && Find(pre + body, c.DashBoundaryCrlf()) == |pre| < |pre + body|
    requires |w| >= |pre| + |c.DashBoundaryCrlf()|
    ensures Find(w, c.DashBoundaryCrlf()) == |pre| && Find(Behind(pre, w), c.DashBoundaryCrlf()) == 0
    ensures w[|pre| + |c.DashBoundaryCrlf()|..] == Behind(pre, w)[|c.DashBoundaryCrlf()|..]
  {
    var d, behind := c.DashBoundaryCrlf(), Behind(pre, w);
    FindInPrefix(w, rest, d);
    assert behind[..|d|] == w[|pre|..|pre| + |d|] == d;
    FindIs(behind, d, 0);
  }

  lemma FeedFirst<F(!new)>(c: Config<F>, p: Parser<F>, frags: seq<string>, w: string, later: seq<string>)
    requires frags != [] && w == p.window + frags[0] && later == frags[1..]
    ensures var (p', ok) := Run(c, p.(window := w));
            Feed(c, p, frags) == if ok then Feed(c, p', later) else (p', false)
  {
  }

  /** One turn with the window `w`: both parsers wait, or go on alike behind the opening line. */
  lemma PreambleTurn<F(!new)>(c: Config<F>, pre: string, body: string, p: Parser<F>, w: string, rest: string)
    requires p.state.Initial? && w + rest == pre + body
    requires Find(pre + body, c.DashBoundaryCrlf()) == |pre| < |pre + body|
    ensures var p1, p2 := p.(window := w), p.(window := Behind(pre, w));
            if |w| < |pre| + |c.DashBoundaryCrlf()| then Run(c, p1) == (p1, true) && Run(c, p2) == (p2, true)
            else Run(c, p1) == Run(c, p2)
  {
    var p1, p2 := p.(window := w), p.(window := Behind(pre, w));
    if |w| < |pre| + |c.DashBoundaryCrlf()| {
      NotYet(c, pre, body, w, rest);
      WaitsForOpening(c, p1);
      WaitsForOpening(c, p2);
    } else {
      Now(c, pre, body, w, rest);
      FindsOpening(c, p1, |pre|);
      FindsOpening(c, p2, 0);
    }
  }

  lemma Shifted(window: string, first: string, later: string, rest: string, whole: string)
    requires window + ((first + later) + rest) == whole
    ensures (window + first) + (later + rest) == whole
  {
  }

  lemma {:induction false} PreambleFeed<F(!new)>(
    c: Config<F>, pre: string, body: string, p: Parser<F>, frags: seq<string>, rest: string)
    requires p.state.Initial? && p.window + (Flatten(frags) + rest) == pre + body
    requires Find(pre + body, c.DashBoundaryCrlf()) == |pre| < |pre + body|
    requires |p.window| < |pre| + |c.DashBoundaryCrlf()|
    ensures SameResult(Feed(c, p, frags),
                       Feed(c, p.(window := Behind(pre, p.window)), Dropped(frags, StillToDrop(pre, p.window))))
    decreases |frags|
  {
    if frags != [] {
      var dropped, later := Dropped(frags, StillToDrop(pre, p.window)), frags[1..];
      var w, p0 := p.window + frags[0], p.(window := Behind(pre, p.window));
      Shifted(p.window, frags[0], Flatten(later), rest, pre + body);
      DropFirst(pre, p.window, frags);
      FeedFirst(c, p, frags, w, later);
      FeedFirst(c, p0, dropped, Behind(pre, w), dropped[1..]);
      PreambleTurn(c, pre, body, p, w, Flatten(later) + rest);
      if |w| < |pre| + |c.DashBoundaryCrlf()| {
        PreambleFeed(c, pre, body, p.(window := w), later, rest);
      } else {
        DroppedNone(later);
      }
    }
  }

  /**
   * Text in front of the first boundary line is skipped, however the whole is
   * cut into fragments: the round trip holds behind any preamble that does not
   * itself hold that line.
   */
  lemma PreambleIsSkipped<F(!new)>(
    c: Config<F>, pre: string, items: seq<UploadFormData>, frags: seq<string>, rest: string)
    requires items != [] && Fits(c, PartsOf(items))
    requires Flatten(frags) + rest == pre + Serialized(items, c.boundary)
    requires Find(pre + Serialized(items, c.boundary), c.DashBoundaryCrlf()) == |pre|
    ensures var (p, ok) := Feed(c, Start(c), frags);
            && ok
            && (p.valid <==> |rest| <= 2)
            && Assemble(p.log).Some? && BeginningOf(Assemble(p.log).value, Expected(c, PartsOf(items)))
            && (p.valid ==> Assemble(p.log) == Some(Expected(c, PartsOf(items))))
  {
    var body := Serialized(items, c.boundary);
    StartsOnTrack(c, items);
    FromTheStart(c, pre, body, frags, rest);
    var dropped, rest' := BehindThePreamble(pre, body, frags, rest);
    MultipartRoundTrip.MultipartRoundTrip(c, items, dropped, rest');
  }

  lemma FromTheStart<F(!new)>(c: Config<F>, pre: string, body: string, frags: seq<string>, rest: string)
    requires Flatten(frags) + rest == pre + body && body != ""
    requires Find(pre + body, c.DashBoundaryCrlf()) == |pre|
    ensures SameResult(Feed(c, Start(c), frags), Feed(c, Start(c), Dropped(frags, |pre|)))
  {
    assert "" + (Flatten(frags) + rest) == pre + body;
    PreambleFeed(c, pre, body, Start(c), frags, rest);
    assert Behind(pre, "") == "";
  }

  /** What the parser that does not see the preamble is fed, and what is still to come. */
  lemma BehindThePreamble(pre: string, body: string, frags: seq<string>, rest: string)
    returns (dropped: seq<string>, rest': string)
    requires Flatten(frags) + rest == pre + body && body != ""
    ensures dropped == Dropped(frags, |pre|) && Flatten(dropped) + rest' == body
    ensures if |rest| <= |body| then rest' == rest else rest' == body
  {
    dropped := Dropped(frags, |pre|);
    var text := Flatten(frags);
    if |pre| <= |text| {
      rest' := rest;
      DroppedText(frags, |pre|);
      assert text[|pre|..] + rest == (text + rest)[|pre|..] == (pre + body)[|pre|..] == body;
    } else {
      rest' := body;
      DroppedEverything(frags, |pre|);
    }
  }

  lemma {:induction false} DroppedEverything(frags: seq<string>, n: nat)
    requires n >= |Flatten(frags)|
    ensures Flatten(Dropped(frags, n)) == ""
    decreases |frags|
  {
    if frags != [] {
      var first, later := frags[0], frags[1..];
      if n <= |first| {
        assert later == [] || Flatten(later) == "";
        assert ([first[n..]] + later)[1..] == later;
      } else {
        DroppedEverything(later, n - |first|);
        assert ([""] + Dropped(later, n - |first|))[1..] == Dropped(later, n - |first|);
      }
    }
  }

  // ----------------------------------------------------- behind a delimiter

  /** The closing delimiter makes the form valid and takes everything behind it that has arrived. */
  lemma ClosingTakesAll<F(!new)>(c: Config<F>, p: Parser<F>)
    requires p.state.Boundary? && |p.window| >= 2 && p.window[..2] == "--"
    ensures Run(c, p) == (p.(window := "", valid := true), true)
  {
  }

  lemma OddTextStays<F(!new)>(c: Config<F>, p: Parser<F>, data: string) returns (p1: Parser<F>)
    requires p.state.Boundary? && |p.window| >= 2 && p.window[..2] != "--" && p.window[..2] != "\r\n"
    ensures p1 == p.(window := p.window + data) && Parse(c, p, data) == (p1, true)
    ensures |p1.window| >= 2 && p1.window[..2] != "--" && p1.window[..2] != "\r\n"
  {
    p1 := p.(window := p.window + data);
    assert p1.window[..2] == p.window[..2];
    assert Run(c, p1) == (p1, true);
  }

  /** Any other text behind a delimiter than a line break or two dashes is waited on for ever, without an error. */
  lemma {:induction false} OddTextWaits<F(!new)>(c: Config<F>, p: Parser<F>, frags: seq<string>)
    requires p.state.Boundary? && |p.window| >= 2 && p.window[..2] != "--" && p.window[..2] != "\r\n"
    ensures Feed(c, p, frags) == (p.(window := p.window + Flatten(frags)), true)
    decreases |frags|
  {
    if frags == [] {
      assert p.window + "" == p.window;
    } else {
      var p1 := OddTextStays(c, p, frags[0]);
      OddTextWaits(c, p1, frags[1..]);
      assert p.window + frags[0] + Flatten(frags[1..]) == p.window + (frags[0] + Flatten(frags[1..]));
    }
  }
}
