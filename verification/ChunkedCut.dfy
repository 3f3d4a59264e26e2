/** Chunked messages that end early: a shutdown on one side is an error on the other. */
module ChunkedCut {
  import opened Chunked
  import opened Http
  import opened Streams
  import opened Strings

  ghost predicate AllLines(lines: seq<string>) {
    forall i :: 0 <= i < |lines| ==> IsLine(lines[i]) && lines[i] != CRLF
  }

  /** The trailer section of a message that ends with it. */
  function Section(trailer: seq<Field>): string {
    Flatten(FieldLines(trailer)) + CRLF
  }

  lemma SectionReads(classify: string -> TrailerLine, trailer: seq<Field>, section: string)
    requires AllLines(FieldLines(trailer)) && section == Section(trailer)
    ensures NeedsAll(classify, section)
    ensures AllGivenBack(classify, FieldLines(trailer), trailer) && |trailer| <= HEADER_MAX_COUNT ==>
              Trailers(classify, section, []) == Some((trailer, ""))
  {
    FieldsNeedAll(classify, FieldLines(trailer));
    if AllGivenBack(classify, FieldLines(trailer), trailer) && |trailer| <= HEADER_MAX_COUNT {
      WholeTrailer(classify, trailer, "");
      assert CRLF + "" == CRLF;
    }
  }

  lemma {:induction false} FlattenSplit(texts: seq<string>, n: nat)
    requires n <= |texts|
    ensures Flatten(texts) == Flatten(texts[..n]) + Flatten(texts[n..])
    decreases |texts| - n
  {
    if n == |texts| {
      assert texts[..n] == texts && texts[n..] == [];
    } else {
      FlattenSplit(texts, n + 1);
      FlattenTake(texts, n);
      assert texts[n..][1..] == texts[n + 1..];
    }
  }

  lemma EndingIs(chunks: string, mark: string, fields: string, crlf: string)
    ensures chunks + (mark + fields + crlf) == chunks + (mark + (fields + crlf))
  {
  }

  /** What `n` calls put on the stream, and what is missing. */
  lemma SentAndMissing(payloads: seq<string>, trailer: seq<Field>, n: nat, section: string) returns (missing: string)
    requires n <= |payloads| + 1 && section == Section(trailer)
    requires forall i :: 0 <= i < |payloads| ==> payloads[i] != ""
    ensures Flatten(CallTexts(payloads, trailer)[..n]) + missing == Chunks(payloads) + (LAST_CHUNK + section)
    ensures missing == "" <==> n == |payloads| + 1
  {
    var texts := CallTexts(payloads, trailer);
    FlattenSplit(texts, n);
    AllCallsText(payloads, trailer);
    EndingIs(Chunks(payloads), LAST_CHUNK, Flatten(FieldLines(trailer)), CRLF);
    missing := Flatten(texts[n..]);
    if n <= |payloads| {
      FlattenShorter(texts, n);
    } else {
      assert texts[n..] == [];
    }
  }

  /**
   * A client in front of a message of which perhaps only a beginning arrives. It
   * never takes a beginning for the whole, whatever its limit and its receiver,
   * and has then handed on nothing but the beginning of the payloads; a whole
   * message that fits it reads completely.
   */
  method ReadMessage(arrived: string, ghost missing: string, ghost payloads: seq<string>, ghost trailer: seq<Field>,
                     bufSize: nat, readSize: nat, limit: nat, receiver: string -> bool,
                     classify: string -> TrailerLine)
    returns (result: ReadResult, body: string, fields: Option<seq<Field>>)
    requires Sized(payloads) && AllLines(FieldLines(trailer)) && bufSize > 0 && readSize > 0
    requires arrived + missing == Chunks(payloads) + (LAST_CHUNK + Section(trailer))
    ensures missing != "" ==> result != Success && body <= Flatten(payloads)
    ensures missing == "" && Agrees(receiver) && |Flatten(payloads)| <= limit
            && AllGivenBack(classify, FieldLines(trailer), trailer) && |trailer| <= HEADER_MAX_COUNT ==>
              result == Success && body == Flatten(payloads) && fields == Some(trailer)
  {
    ghost var section := Section(trailer);
    SectionReads(classify, trailer, section);
    var inner := new InnerStream(true, arrived);
    var strm := new BufferedStream(inner, bufSize);
    var dec := new ChunkedDecoder(strm);
    if missing == "" {
      assert arrived + missing == arrived;
    }
    result, body, fields := ReadContentChunked(dec, readSize, limit, receiver, classify, payloads, section, missing);
  }

  /** The server's side: the message, or as much of it as was written before the shutdown. */
  method Send(payloads: seq<string>, trailer: seq<Field>, shuttingDown: nat -> bool, reliable: bool, stalls: nat)
    returns (sent: bool, message: string, ghost missing: string)
    requires Sized(payloads)
    ensures reliable ==> sent
    ensures sent ==> message + missing == Chunks(payloads) + (LAST_CHUNK + Section(trailer))
    ensures sent ==> (missing == "" <==> forall i :: 0 <= i <= |payloads| ==> !shuttingDown(i))
  {
    var out := new OutStream(reliable, stalls);
    sent := WriteContentChunked(out, payloads, trailer, shuttingDown);
    message := out.sent;
    missing := SentAndMissing(payloads, trailer, Calls(payloads, shuttingDown, 0), Section(trailer));
    AllCallsWhen(payloads, shuttingDown, 0);
    if sent {
      assert message == Flatten(CallTexts(payloads, trailer)[..Calls(payloads, shuttingDown, 0)]);
    }
  }

  /**
   * Writer against reader when the server may shut down between two calls of the
   * provider. The writer says that all is well either way; the reader does so if
   * and only if nothing stopped the writer, and then it has the whole message.
   */
  method ShutdownIsNoticed(payloads: seq<string>, trailer: seq<Field>, shuttingDown: nat -> bool,
                           reliable: bool, stalls: nat, bufSize: nat, readSize: nat, limit: nat,
                           receiver: string -> bool, classify: string -> TrailerLine)
    returns (sent: bool, result: ReadResult, body: string, fields: Option<seq<Field>>)
    requires Sized(payloads) && bufSize > 0 && readSize > 0 && Agrees(receiver) && |Flatten(payloads)| <= limit
    requires AllGivenBack(classify, FieldLines(trailer), trailer) && |trailer| <= HEADER_MAX_COUNT
    ensures reliable ==> sent
    ensures sent ==> (result == Success <==> forall i :: 0 <= i <= |payloads| ==> !shuttingDown(i))
    ensures sent && result == Success ==> body == Flatten(payloads) && fields == Some(trailer)
    ensures sent ==> body <= Flatten(payloads)
  {
    result, body, fields := Error, "", None;
    var message;
    ghost var missing;
    sent, message, missing := Send(payloads, trailer, shuttingDown, reliable, stalls);
    if sent {
      assert AllLines(FieldLines(trailer)) by {
        assert forall i :: 0 <= i < |trailer| ==> GivesBack(classify, FieldLines(trailer)[i], trailer[i]);
      }
      result, body, fields :=
        ReadMessage(message, missing, payloads, trailer, bufSize, readSize, limit, receiver, classify);
    }
  }
}
