/**
 * multipart/form-data: the printer, the parser as a function on values, and the
 * round trip between them for every way of cutting the body into fragments.
 */
module Multipart {
  import opened Http
  import opened Search
  import opened Strings

  const DASH: string := "--"

  // ---------------------------------------------------------------- printer

  datatype UploadFormData = UploadFormData(name: string, content: string, filename: string, contentType: string)

  function ItemBegin(item: UploadFormData, boundary: string): string {
    DASH + boundary + CRLF
    + "Content-Disposition: form-data; name=\"" + item.name + "\""
    + (if item.filename != "" then "; filename=\"" + item.filename + "\"" else "")
    + CRLF
    + (if item.contentType != "" then "Content-Type: " + item.contentType + CRLF else "")
    + CRLF
  }

  function Finish(boundary: string): string {
    DASH + boundary + DASH + CRLF
  }

  function Item(item: UploadFormData, boundary: string): string {
    ItemBegin(item, boundary) + (item.content + CRLF)
  }

  /** The printed items, in order, without the closing delimiter. */
  function Items(items: seq<UploadFormData>, boundary: string): seq<string> {
    seq(|items|, i requires 0 <= i < |items| => Item(items[i], boundary))
  }

  function Serialized(items: seq<UploadFormData>, boundary: string): string {
    Flatten(Items(items, boundary)) + Finish(boundary)
  }

  lemma AppendItem(body: string, item: UploadFormData, boundary: string)
    ensures body + ItemBegin(item, boundary) + (item.content + CRLF) == body + Item(item, boundary)
  {
  }

  method SerializeFormData(items: seq<UploadFormData>, boundary: string, finish: bool) returns (body: string)
    ensures body == if finish then Serialized(items, boundary) else Flatten(Items(items, boundary))
  {
    body := "";
    for i := 0 to |items|
      invariant body == Flatten(Items(items, boundary)[..i])
    {
      var item := items[i];
      FlattenTake(Items(items, boundary), i);
      AppendItem(body, item, boundary);
      body := body + ItemBegin(item, boundary);
      body := body + (item.content + CRLF);
    }
    assert Items(items, boundary)[..|items|] == Items(items, boundary);
    if finish {
      body := body + Finish(boundary);
    }
  }

  // ------------------------------------------------- parser on plain values

  /** What the parser tells its client: one header callback, then content callbacks. */
  datatype Event<F> = Header(file: F) | Content(data: string)

  /**
   * What a run of the parser depends on besides the bytes: the boundary, the
   * cleared form entry, the decoding of one header line into the entry (false
   * when the line is malformed), and the client's answer to its latest callback.
   */
  datatype Config<!F(!new)> = Config(
    boundary: string,
    blank: F,
    decode: (F, string) -> (F, bool),
    accept: seq<Event<F>> -> bool)
  {
    function DashBoundaryCrlf(): string { DASH + boundary + CRLF }
    function CrlfDashBoundary(): string { CRLF + DASH + boundary }
  }

  datatype State = Initial | Entry | Headers | Body | Boundary

  datatype Parser<F> = Parser(state: State, valid: bool, file: F, window: string, log: seq<Event<F>>)

  /** How one turn of the parser's loop ends. */
  datatype Verdict = More | Stop(ret: bool)

  function Start<F(!new)>(c: Config<F>): Parser<F> {
    Parser(Initial, false, c.blank, "", [])
  }

  function Emit<F(!new)>(c: Config<F>, p: Parser<F>, e: Event<F>): Parser<F> {
    var log := p.log + [e];
    p.(log := log, valid := if c.accept(log) then p.valid else false)
  }

  /** The empty line: the client learns of the entry. */
  function EmptyLine<F(!new)>(c: Config<F>, p: Parser<F>): (r: (Parser<F>, Verdict))
    requires |p.window| >= 2
  {
    var p' := Emit(c, p, Header(p.file));
    if !c.accept(p'.log) then (p', Stop(false))
    else (p'.(window := p.window[2..], state := Body), More)
  }

  /** A header line of length `pos`. */
  function HeaderLine<F(!new)>(c: Config<F>, p: Parser<F>, pos: nat): (r: (Parser<F>, Verdict))
    requires pos + 2 <= |p.window|
  {
    var (file, ok) := c.decode(p.file, p.window[..pos]);
    if !ok then (p.(file := file, valid := false), Stop(false))
    else (p.(file := file, window := p.window[pos + 2..]), More)
  }

  /** The inner loop over the header lines of one entry. */
  function HeaderLines<F(!new)>(c: Config<F>, p: Parser<F>): (r: (Parser<F>, Verdict))
    requires p.state.Headers?
    ensures r.1.More? ==> |r.0.window| < |p.window| && r.0.state.Body?
    decreases |p.window|
  {
    var pos := Find(p.window, CRLF);
    if pos == |p.window| then
      (p, Stop(true))
    else if pos == 0 then
      EmptyLine(c, p)
    else
      var (p', v) := HeaderLine(c, p, pos);
      if v.More? then HeaderLines(c, p') else (p', v)
  }

  function BodyStep<F(!new)>(c: Config<F>, p: Parser<F>): (r: (Parser<F>, Verdict))
    requires p.state.Body?
    ensures r.1.More? ==> |r.0.window| < |p.window|
  {
    var delim := c.CrlfDashBoundary();
    if |delim| > |p.window| then
      (p, Stop(true))
    else
      var pos := Find(p.window, delim);
      var len := if pos < |p.window| then pos else |p.window| - |delim|;
      if pos == |p.window| && len == 0 then
        (p, Stop(true))
      else
        var p' := Emit(c, p, Content(p.window[..len]));
        if !c.accept(p'.log) then (p', Stop(false))
        else if pos < |p.window| then (p'.(window := p.window[pos + |delim|..], state := Boundary), More)
        else (p'.(window := p.window[len..]), Stop(true))
  }

  function BoundaryStep<F(!new)>(p: Parser<F>): (r: (Parser<F>, Verdict))
    requires p.state.Boundary?
    ensures r.1.More? ==> |r.0.window| < |p.window|
  {
    if |p.window| < 2 then (p, Stop(true))
    else if p.window[..2] == CRLF then (p.(window := p.window[2..], state := Entry), More)
    else if p.window[..2] == DASH then (p.(window := "", valid := true), More)
    else (p, Stop(true))
  }

  /** One turn of the parser's loop. */
  function Step<F(!new)>(c: Config<F>, p: Parser<F>): (r: (Parser<F>, Verdict))
    requires p.window != ""
    ensures r.1.More? ==>
              |r.0.window| < |p.window| || (|r.0.window| == |p.window| && p.state.Entry? && !r.0.state.Entry?)
  {
    match p.state
    case Initial =>
      var pos := Find(p.window, c.DashBoundaryCrlf());
      if pos == |p.window| then (p, Stop(true))
      else (p.(window := p.window[pos + |c.DashBoundaryCrlf()|..], state := Entry), More)
    case Entry => (p.(file := c.blank, state := Headers), More)
    case Headers =>
      if Find(p.window, CRLF) > HEADER_MAX_LENGTH then (p, Stop(false)) else HeaderLines(c, p)
    case Body => BodyStep(c, p)
    case Boundary => BoundaryStep(p)
  }

  /** The parser's loop: the window shrinks, or stays while a new entry is opened. */
  function Run<F(!new)>(c: Config<F>, p: Parser<F>): (r: (Parser<F>, bool))
    decreases |p.window|, if p.state.Entry? then 1 else 0
  {
    if p.window == "" then (p, true)
    else
      var (p', v) := Step(c, p);
      match v
      case More => Run(c, p')
      case Stop(ret) => (p', ret)
  }

  function Parse<F(!new)>(c: Config<F>, p: Parser<F>, data: string): (Parser<F>, bool) {
    Run(c, p.(window := p.window + data))
  }

  /** Fragments fed one after another; the client stops at the first refusal. */
  function Feed<F(!new)>(c: Config<F>, p: Parser<F>, frags: seq<string>): (Parser<F>, bool)
    decreases |frags|
  {
    if frags == [] then (p, true)
    else
      var (p', ok) := Parse(c, p, frags[0]);
      if ok then Feed(c, p', frags[1..]) else (p', false)
  }
}
