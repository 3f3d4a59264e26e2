/** Trailer fields of a chunked message: which are taken, and what is read from their lines. */
module TrailerFields {
  import opened Chunked
  import opened HeaderFields
  import opened Http
  import opened PathCoding
  import opened Splitting
  import opened Streams
  import opened Strings

  const PROHIBITED: set<string> := {
    "transfer-encoding", "content-length", "host", "authorization", "www-authenticate", "proxy-authenticate",
    "proxy-authorization", "cookie", "set-cookie", "cache-control", "expect", "max-forwards", "pragma", "range", "te",
    "age", "expires", "date", "location", "retry-after", "vary", "warning", "content-encoding", "content-type",
    "content-range", "trailer"
  }

  /** The names a Trailer header declares, without those a trailer must not have. */
  function Declares(names: seq<string>): set<string> {
    set name | name in names && LowerText(name) !in PROHIBITED :: LowerText(name)
  }

  method DeclaredTrailers(header: string) returns (declared: set<string>)
    ensures declared == Declares(Fields(header, ','))
    ensures declared !! PROHIBITED
    // What frames, routes or describes the content is never taken from a trailer.
    ensures declared !! {"transfer-encoding", "content-length", "trailer", "host", "authorization"}
    ensures declared !! {"content-type", "content-encoding", "content-range"}
  {
    var names := Splitting.Split(header, ',');
    declared := {};
    for i := 0 to |names|
      invariant declared == Declares(names[..i])
    {
      assert names[..i + 1] == names[..i] + [names[i]];
      if LowerText(names[i]) !in PROHIBITED {
        declared := declared + {LowerText(names[i])};
      }
    }
    assert names[..|names|] == names;
  }

  /** A trailer line as the code takes it: its last two bytes are the line end. */
  function ReadTrailer(declared: set<string>, line: string): TrailerLine {
    if |line| < 2 then Malformed
    else
      match ReadField(line[..|line| - 2])
      case None => Malformed
      case Some((name, value)) =>
        if LowerText(name) in declared then Declared(Field(name, ValueOf(name, value))) else Undeclared
  }

  /** What a server can send as a trailer field so that the client has it. */
  predicate Sendable(declared: set<string>, f: Field) {
    && IsToken(f.key) && IsFieldContent(f.value)
    && LowerText(f.key) in declared
    && (KeptAsSent(f.key) || NoEscape(f.value))
    && |f.key| + |f.value| + 4 <= HEADER_MAX_LENGTH
  }

  lemma TextHasNoNewline(s: string)
    requires FieldText(s)
    ensures '\n' !in s
  {
  }

  lemma LineShape(key: string, value: string, line: string)
    requires line == key + ": " + value + CRLF
    ensures |line| == |key| + |value| + 4 && line[..|line| - 2] == key + ": " + value && line[|line| - 2..] == CRLF
    ensures IsLine(line) <==> '\n' !in key && '\n' !in value
  {
    var text := key + ": " + value;
    assert line == text + CRLF;
    assert forall i :: 0 <= i < |key| ==> line[i] == key[i];
    assert forall i :: 0 <= i < |value| ==> line[|key| + 2 + i] == value[i];
  }

  /** What the reader makes of a printed line. */
  lemma PrintedTrailer(declared: set<string>, f: Field)
    ensures ReadTrailer(declared, FieldLine(f)) ==
            match ReadField(f.key + ": " + f.value)
            case None => Malformed
            case Some((name, value)) =>
              if LowerText(name) in declared then Declared(Field(name, ValueOf(name, value))) else Undeclared
  {
    LineShape(f.key, f.value, FieldLine(f));
  }

  lemma OnlyItself(declared: set<string>, f: Field)
    requires ReadTrailer(declared, FieldLine(f)) == Declared(f)
    ensures IsToken(f.key) && IsFieldContent(f.value) && LowerText(f.key) in declared
    ensures KeptAsSent(f.key) || NoEscape(f.value)
  {
    PrintedTrailer(declared, f);
    var read := ReadField(f.key + ": " + f.value).value.1;
    NoMoreIsRead(f.key, f.value, read);
    ValueStays(f.key, read);
    PrintedFieldReads(f.key, f.value);
  }

  lemma SendableIsRead(declared: set<string>, f: Field)
    requires Sendable(declared, f)
    ensures IsLine(FieldLine(f)) && ReadTrailer(declared, FieldLine(f)) == Declared(f)
  {
    PrintedTrailer(declared, f);
    PrintedFieldReads(f.key, f.value);
    ValueStays(f.key, f.value);
    LineShape(f.key, f.value, FieldLine(f));
    TokenIsPlain(f.key);
    TextHasNoNewline(f.value);
  }

  /** The printed line of a field gives it back exactly when the field can be sent. */
  lemma FieldComesBack(declared: set<string>, f: Field)
    ensures GivesBack(line => ReadTrailer(declared, line), FieldLine(f), f) <==> Sendable(declared, f)
  {
    LineShape(f.key, f.value, FieldLine(f));
    if Sendable(declared, f) {
      SendableIsRead(declared, f);
    } else if ReadTrailer(declared, FieldLine(f)) == Declared(f) {
      OnlyItself(declared, f);
    }
  }

  /**
   * The chunked round trip with the code's own reading of trailer lines: for a
   * Trailer header and fields that can be sent under it, the client has the
   * payloads and the fields, and the bytes behind the message are still there.
   */
  method TrailersComeBack(
    header: string, payloads: seq<string>, trailer: seq<Field>, extra: string,
    bufSize: nat, reliable: bool, stalls: nat, size: nat -> nat)
    returns (sent: bool, body: string, fields: Option<seq<Field>>, ghost unread: string)
    requires Sized(payloads) && bufSize > 0 && |trailer| <= HEADER_MAX_COUNT
    requires forall i :: size(i) > 0
    requires forall i :: 0 <= i < |trailer| ==> Sendable(Declares(Fields(header, ',')), trailer[i])
    ensures sent ==> body == Flatten(payloads) && fields == Some(trailer) && unread == extra
    ensures reliable ==> sent
  {
    var declared := DeclaredTrailers(header);
    var classify := (line: string) => ReadTrailer(declared, line);
    forall i | 0 <= i < |trailer| ensures GivesBack(classify, FieldLines(trailer)[i], trailer[i]) {
      FieldComesBack(declared, trailer[i]);
      assert FieldLines(trailer)[i] == FieldLine(trailer[i]);
    }
    sent, body, fields, unread :=
      ChunkedRoundTrip(payloads, trailer, extra, bufSize, reliable, stalls, size, classify);
  }
}
