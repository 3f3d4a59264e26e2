/** Chunked transfer coding (section 7.1 of RFC 9112): the sink that prints it and the resumable decoder. */
module Chunked {
  import opened Http
  import opened Numerals
  import opened Streams
  import opened Strings

  const LAST_CHUNK: string := "0\r\n"

  // ---------------------------------------------------------------- printer

  function Chunk(p: string): string {
    Hex(|p|) + CRLF + p + CRLF
  }

  function Chunks(ps: seq<string>): string {
    if ps == [] then "" else Chunk(ps[0]) + Chunks(ps[1..])
  }

  datatype Field = Field(key: string, value: string)

  function FieldLine(f: Field): string {
    f.key + ": " + f.value + CRLF
  }

  function FieldLines(fs: seq<Field>): seq<string> {
    seq(|fs|, i requires 0 <= i < |fs| => FieldLine(fs[i]))
  }

  /** The sink handed to a content provider, without compression. */
  class ChunkSink {
    const strm: OutStream
    var offset: nat
    var dataAvailable: bool
    var ok: bool

    constructor (strm: OutStream)
      ensures this.strm == strm && offset == 0 && dataAvailable && ok
    {
      this.strm := strm;
      offset, dataAvailable, ok := 0, true, true;
    }

    method Write(d: string) returns (r: bool)
      modifies this, strm
      ensures r == ok && (ok ==> old(ok)) && (strm.reliable ==> ok == old(ok))
      ensures ok && d != "" ==> strm.sent == old(strm.sent) + (Hex(|d|) + "\r\n" + d + "\r\n")
      ensures d == "" ==> strm.sent == old(strm.sent)
      ensures old(ok) ==> offset == old(offset) + |d| && dataAvailable == (d != "")
    {
      if ok {
        dataAvailable := d != "";
        offset := offset + |d|;
        if d != "" {
          var size := FromIToHex(|d|);
          ok := strm.WriteData(size + CRLF + d + CRLF);
        }
      }
      r := ok;
    }

    method Done(trailer: seq<Field>)
      modifies this, strm
      ensures ok ==> old(ok) && strm.sent == old(strm.sent) + ("0\r\n" + Flatten(FieldLines(trailer)) + "\r\n")
      ensures old(ok) ==> !dataAvailable
      ensures strm.reliable ==> ok == old(ok)
    {
      if !ok {
        return;
      }
      dataAvailable := false;
      var r := strm.WriteData(LAST_CHUNK);
      ok := r;
      WriteFields(trailer);
      r := strm.WriteData(CRLF);
      ok := ok && r;
    }

    method WriteFields(trailer: seq<Field>)
      modifies this`ok, strm
      ensures ok ==> old(ok) && strm.sent == old(strm.sent) + Flatten(FieldLines(trailer))
      ensures strm.reliable ==> ok == old(ok)
    {
      ghost var lines := FieldLines(trailer);
      for i := 0 to |trailer|
        invariant strm.reliable ==> ok == old(ok)
        invariant ok ==> old(ok) && strm.sent == old(strm.sent) + Flatten(lines[..i])
      {
        var r := strm.WriteData(FieldLine(trailer[i]));
        ok := ok && r;
        FlattenTake(lines, i);
      }
      assert lines[..|lines|] == lines;
    }
  }

  /** The end of a message: last chunk, trailer fields, empty line. */
  function Ending(trailer: seq<Field>): (r: string)
    ensures r != ""
  {
    LAST_CHUNK + Flatten(FieldLines(trailer)) + CRLF
  }

  /** What each call of a provider puts on the stream that writes the payloads one by one, and then is done. */
  function CallTexts(payloads: seq<string>, trailer: seq<Field>): (r: seq<string>)
    ensures |r| == |payloads| + 1
  {
    seq(|payloads|, i requires 0 <= i < |payloads| => if payloads[i] == "" then "" else Chunk(payloads[i]))
    + [Ending(trailer)]
  }

  /** How many calls the loop makes from call `i` on: it ends when the server shuts down, or nothing was written. */
  function Calls(payloads: seq<string>, shuttingDown: nat -> bool, i: nat): (n: nat)
    requires i <= |payloads| + 1
    ensures i <= n <= |payloads| + 1
    decreases |payloads| + 1 - i
  {
    if i > |payloads| || shuttingDown(i) then i
    else if i < |payloads| && payloads[i] == "" then i + 1
    else Calls(payloads, shuttingDown, i + 1)
  }

  predicate Undisturbed(payloads: seq<string>, shuttingDown: nat -> bool, i: nat)
    requires i <= |payloads| + 1
  {
    && (forall j :: i <= j <= |payloads| ==> !shuttingDown(j))
    && (forall j :: i <= j < |payloads| ==> payloads[j] != "")
  }

  lemma {:induction false} AllCallsWhen(payloads: seq<string>, shuttingDown: nat -> bool, i: nat)
    requires i <= |payloads| + 1
    ensures Calls(payloads, shuttingDown, i) == |payloads| + 1 <==> Undisturbed(payloads, shuttingDown, i)
    decreases |payloads| + 1 - i
  {
    if i <= |payloads| && !shuttingDown(i) && (i < |payloads| ==> payloads[i] != "") {
      AllCallsWhen(payloads, shuttingDown, i + 1);
    }
  }

  lemma {:induction false} FlattenGrows(texts: seq<string>, m: nat, n: nat)
    requires m <= n <= |texts|
    ensures |Flatten(texts[..m])| <= |Flatten(texts[..n])|
    decreases n
  {
    if m < n {
      FlattenGrows(texts, m, n - 1);
      FlattenTake(texts, n - 1);
    }
  }

  lemma FlattenShorter(texts: seq<string>, n: nat)
    requires n < |texts| && texts[|texts| - 1] != ""
    ensures Flatten(texts[..n]) != Flatten(texts)
  {
    FlattenGrows(texts, n, |texts| - 1);
    FlattenLast(texts);
  }

  lemma FlattenLast(texts: seq<string>)
    requires texts != []
    ensures |Flatten(texts)| == |Flatten(texts[..|texts| - 1])| + |texts[|texts| - 1]|
  {
    FlattenTake(texts, |texts| - 1);
    assert texts[..|texts| - 1 + 1] == texts;
  }

  /**
   * Cut off by a shutdown or ended by an empty write, write_content_chunked gives
   * the same answer; its message is whole exactly when neither happens.
   */
  lemma WholeWhen(payloads: seq<string>, trailer: seq<Field>, shuttingDown: nat -> bool)
    ensures var texts := CallTexts(payloads, trailer);
            Flatten(texts[..Calls(payloads, shuttingDown, 0)]) == Flatten(texts)
            <==> Undisturbed(payloads, shuttingDown, 0)
  {
    var texts, n := CallTexts(payloads, trailer), Calls(payloads, shuttingDown, 0);
    AllCallsWhen(payloads, shuttingDown, 0);
    if n < |texts| {
      FlattenShorter(texts, n);
    } else {
      assert texts[..n] == texts;
    }
  }

  lemma {:induction false} ChunksAre(payloads: seq<string>, texts: seq<string>)
    requires |texts| == |payloads| && forall i :: 0 <= i < |payloads| ==> texts[i] == Chunk(payloads[i])
    ensures Flatten(texts) == Chunks(payloads)
  {
    if payloads != [] {
      ChunksAre(payloads[1..], texts[1..]);
    }
  }

  lemma TextsAre(payloads: seq<string>, texts: seq<string>, ending: string)
    requires |texts| == |payloads| + 1 && texts[|payloads|] == ending
    requires forall i :: 0 <= i < |payloads| ==> texts[i] == Chunk(payloads[i])
    ensures Flatten(texts) == Chunks(payloads) + ending
  {
    ChunksAre(payloads, texts[..|payloads|]);
    FlattenTake(texts, |payloads|);
    assert texts[..|payloads| + 1] == texts;
  }

  /** Undisturbed, the chunks of all payloads and the ending. */
  lemma AllCallsText(payloads: seq<string>, trailer: seq<Field>)
    requires forall i :: 0 <= i < |payloads| ==> payloads[i] != ""
    ensures Flatten(CallTexts(payloads, trailer)) == Chunks(payloads) + Ending(trailer)
  {
    TextsAre(payloads, CallTexts(payloads, trailer), Ending(trailer));
  }

  /** One call of a provider that writes the payloads one by one, and then is done. */
  method CallProvider(sink: ChunkSink, payloads: seq<string>, trailer: seq<Field>, i: nat)
    requires i <= |payloads| && sink.ok
    modifies sink, sink.strm
    ensures sink.ok ==> sink.strm.sent == old(sink.strm.sent) + CallTexts(payloads, trailer)[i]
    ensures sink.dataAvailable == (i < |payloads| && payloads[i] != "")
    ensures sink.strm.reliable ==> sink.ok
  {
    if i < |payloads| {
      var r := sink.Write(payloads[i]);
    } else {
      sink.Done(trailer);
    }
  }

  /** The loop before call `i`: the calls still to come are those it will make. */
  ghost predicate Offers(dataAvailable: bool, payloads: seq<string>, shuttingDown: nat -> bool, i: nat) {
    && i <= |payloads| + 1
    && (i > |payloads| ==> !dataAvailable)
    && Calls(payloads, shuttingDown, 0) == (if dataAvailable then Calls(payloads, shuttingDown, i) else i)
  }

  lemma OffersNext(payloads: seq<string>, shuttingDown: nat -> bool, i: nat, now: bool)
    requires Offers(true, payloads, shuttingDown, i) && !shuttingDown(i)
    requires now == (i < |payloads| && payloads[i] != "")
    ensures Offers(now, payloads, shuttingDown, i + 1)
  {
  }

  ghost predicate SentUpTo(sent: string, start: string, texts: seq<string>, i: nat) {
    i <= |texts| && sent == start + Flatten(texts[..i])
  }

  lemma SentNext(sent: string, start: string, texts: seq<string>, i: nat)
    requires i < |texts| && SentUpTo(sent, start, texts, i)
    ensures SentUpTo(sent + texts[i], start, texts, i + 1)
  {
    FlattenTake(texts, i);
  }

  method WriteContentChunked(
    strm: OutStream, payloads: seq<string>, trailer: seq<Field>, shuttingDown: nat -> bool) returns (ok: bool)
    modifies strm
    ensures ok ==> SentUpTo(strm.sent, old(strm.sent), CallTexts(payloads, trailer), Calls(payloads, shuttingDown, 0))
    ensures strm.reliable ==> ok
  {
    var sink := new ChunkSink(strm);
    var i := 0;
    ghost var texts := CallTexts(payloads, trailer);
    while sink.dataAvailable && sink.ok && !shuttingDown(i)
      invariant fresh(sink) && sink.strm == strm && (strm.reliable ==> sink.ok)
      invariant Offers(sink.dataAvailable, payloads, shuttingDown, i)
      invariant sink.ok ==> SentUpTo(strm.sent, old(strm.sent), texts, i)
      decreases |payloads| + 1 - i
    {
      ghost var sent := strm.sent;
      CallProvider(sink, payloads, trailer, i);
      OffersNext(payloads, shuttingDown, i, sink.dataAvailable);
      SentNext(sent, old(strm.sent), texts, i);
      i := i + 1;
    }
    ok := sink.ok;
  }

  /** With nothing to stop the loop, the whole message. */
  method WriteWhole(strm: OutStream, payloads: seq<string>, trailer: seq<Field>) returns (ok: bool)
    requires forall j :: 0 <= j < |payloads| ==> payloads[j] != ""
    modifies strm
    ensures ok ==> strm.sent == old(strm.sent) + (Chunks(payloads) + Ending(trailer))
    ensures strm.reliable ==> ok
  {
    var never := (_: nat) => false;
    WholeWhen(payloads, trailer, never);
    AllCallsText(payloads, trailer);
    ok := WriteContentChunked(strm, payloads, trailer, never);
  }

  // ---------------------------------------------------------------- decoder

  datatype SizeLine = Bad | Last | Size(n: nat)

  function ParseSize(line: string): (r: SizeLine)
    ensures r.Size? ==> 0 < r.n
  {
    var (v, end) := StrToUl16(line);
    if end == 0 || v == ULONG_MAX then Bad else if v == 0 then Last else Size(v)
  }

  /** A payload's size line is read back as its size. */
  lemma SizeLineReads(n: nat, more: string)
    requires n < ULONG_MAX
    ensures LineOf(Hex(n) + CRLF + more) == Hex(n) + CRLF
    ensures ParseSize(Hex(n) + CRLF) == if n == 0 then Last else Size(n)
  {
    HexReads(n);
    StrToUlReadsHex(n, CRLF);
    LineEnds(Hex(n) + CRLF + more, Hex(n) + CRLF);
  }

  /** Any run of hexadecimal digits is a size, up to the largest number, which is an error; 0 is the last chunk. */
  lemma SizeLinesMean(digits: string, more: string)
    requires digits != "" && AllHex(digits) && (more == "" || (HexDigit(more[0]).None? && more[0] !in {'x', 'X'}))
    ensures ParseSize(digits + more) ==
            if HexValue(digits) >= ULONG_MAX then Bad
            else if HexValue(digits) == 0 then Last
            else Size(HexValue(digits))
  {
    StrToUlReads(digits, more);
  }

  /** A line that begins with anything but blanks, a sign or a digit is an error, and so is an empty one. */
  lemma NoSizeNoChunk(line: string)
    requires line == "" || !(IsSpace(line[0]) || line[0] in {'+', '-'} || HexDigit(line[0]).Some?)
    ensures ParseSize(line) == Bad
  {
  }

  lemma LastChunkReads(more: string)
    ensures LineOf(LAST_CHUNK + more) == LAST_CHUNK && ParseSize(LAST_CHUNK) == Last
  {
    SizeLineReads(0, more);
    assert Hex(0) + CRLF == LAST_CHUNK;
  }

  class ChunkedDecoder {
    const strm: BufferedStream
    var chunkRemaining: nat
    var finished: bool
    var lastChunkTotal: nat
    var lastChunkOffset: nat

    constructor (strm: BufferedStream)
      ensures Valid() && this.strm == strm && !finished && chunkRemaining == 0
    {
      this.strm := strm;
      chunkRemaining, finished, lastChunkTotal, lastChunkOffset := 0, false, 0, 0;
    }

    /** The running account of the current chunk. */
    ghost predicate Valid()
      reads this
    {
      lastChunkOffset + chunkRemaining == lastChunkTotal
    }

    ghost predicate Healthy()
      reads this, strm, strm.inner
    {
      Valid() && strm.Valid() && strm.inner.reliable && strm.buffer.Length > 0
    }

    /** Before a size line, with the payloads `ps`, the last chunk and `tail` to come. */
    ghost predicate BeforeChunks(ps: seq<string>, tail: string)
      reads this, strm, strm.buffer, strm.inner
    {
      Healthy() && Sized(ps) && !finished && chunkRemaining == 0
      && strm.Pending() == Chunks(ps) + (LAST_CHUNK + tail)
    }

    /** Inside a chunk with `left` of its payload to come, then the payloads `ps`. */
    ghost predicate InChunk(left: string, ps: seq<string>, tail: string)
      reads this, strm, strm.buffer, strm.inner
    {
      Healthy() && Sized(ps) && !finished && chunkRemaining == |left| < ULONG_MAX
      && strm.Pending() == left + (CRLF + (Chunks(ps) + (LAST_CHUNK + tail)))
    }

    /** The stream still carries the payloads `ps` (the first from where the decoder stands in it), then `tail`. */
    ghost predicate Carries(ps: seq<string>, tail: string)
      reads this, strm, strm.buffer, strm.inner
    {
      if finished then Healthy() && ps == [] && strm.Pending() == tail
      else if chunkRemaining == 0 then BeforeChunks(ps, tail)
      else ps != [] && InChunk(ps[0], ps[1..], tail)
    }

    // The same two places on a stream that ends early: `more` is what is missing.

    ghost predicate MissesChunks(ps: seq<string>, tail: string, more: string)
      reads this, strm, strm.buffer, strm.inner
    {
      Healthy() && Sized(ps) && !finished && chunkRemaining == 0
      && more != "" && strm.Pending() + more == Chunks(ps) + (LAST_CHUNK + tail)
    }

    ghost predicate MissesInChunk(left: string, ps: seq<string>, tail: string, more: string)
      reads this, strm, strm.buffer, strm.inner
    {
      Healthy() && Sized(ps) && !finished && chunkRemaining == |left| < ULONG_MAX
      && more != "" && strm.Pending() + more == left + (CRLF + (Chunks(ps) + (LAST_CHUNK + tail)))
    }

    /** The stream carries what Carries says, but for `more` at the end. */
    ghost predicate Misses(ps: seq<string>, tail: string, more: string)
      reads this, strm, strm.buffer, strm.inner
    {
      if finished then Healthy() && ps == [] && more != "" && strm.Pending() + more == tail
      else if chunkRemaining == 0 then MissesChunks(ps, tail, more)
      else ps != [] && MissesInChunk(ps[0], ps[1..], tail, more)
    }

    /** The last chunk was read on such a stream: nothing is left, or the beginning of the trailer section. */
    ghost predicate CutEnd(tail: string, more: string)
      reads this, strm, strm.buffer, strm.inner
    {
      Healthy() && finished && (strm.Pending() == "" || strm.Pending() + more == tail)
    }

    /** A size line: read, parsed, and taken over into the fields. */
    method ReadSizeLine() returns (size: SizeLine)
      requires Valid() && strm.Valid() && !finished && chunkRemaining == 0
      modifies this, strm, strm.buffer, strm.inner
      ensures Valid() && strm.Valid()
      ensures size.Bad? ==> !finished && chunkRemaining == 0
      ensures size.Last? ==> finished && chunkRemaining == 0
      ensures size.Size? ==> !finished && chunkRemaining == size.n == lastChunkTotal && lastChunkOffset == 0
      ensures old(Healthy()) ==>
                var line := LineOf(old(strm.Pending()));
                && size == (if line == "" then Bad else ParseSize(line))
                && strm.Pending() == old(strm.Pending())[|line|..]
      ensures |strm.Pending()| <= |old(strm.Pending())|
    {
      var ok, line := strm.GetLine();
      if !ok {
        return Bad;
      }
      size := ParseSize(line);
      match size {
        case Bad =>
        case Last =>
          chunkRemaining := 0;
          finished := true;
        case Size(n) =>
          chunkRemaining := n;
          lastChunkTotal := n;
          lastChunkOffset := 0;
      }
    }

    /** Reads a size line and opens the chunk it announces. */
    method OpenChunk(ghost ps: seq<string>, ghost tail: string, ghost more: string) returns (size: SizeLine)
      requires Valid() && strm.Valid() && !finished && chunkRemaining == 0
      modifies this, strm, strm.buffer, strm.inner
      ensures Valid() && strm.Valid()
      ensures size.Bad? ==> !finished && chunkRemaining == 0
      ensures size.Last? ==> finished && chunkRemaining == 0
      ensures size.Size? ==> !finished && chunkRemaining == size.n == lastChunkTotal && lastChunkOffset == 0
      ensures |strm.Pending()| <= |old(strm.Pending())|
      ensures old(BeforeChunks(ps, tail)) && ps == [] ==> size.Last? && Carries([], tail)
      ensures old(BeforeChunks(ps, tail)) && ps != [] ==> size == Size(|ps[0]|) && InChunk(ps[0], ps[1..], tail)
      ensures old(MissesChunks(ps, tail, more)) ==>
                || strm.Pending() == ""
                || (ps == [] && size.Last? && strm.Pending() + more == tail)
                || (ps != [] && size == Size(|ps[0]|) && MissesInChunk(ps[0], ps[1..], tail, more))
    {
      if BeforeChunks(ps, tail) || MissesChunks(ps, tail, more) {
        FirstLine(ps, tail);
      }
      if MissesChunks(ps, tail, more) {
        CutLine(strm.Pending(), more);
      }
      size := ReadSizeLine();
    }

    /** Reads the line break that closes a chunk. */
    method CloseChunk(ghost ps: seq<string>, ghost tail: string, ghost more: string) returns (ok: bool)
      requires Valid() && strm.Valid()
      modifies strm, strm.buffer, strm.inner
      ensures Valid() && strm.Valid()
      ensures old(Healthy()) ==>
                var line := LineOf(old(strm.Pending()));
                ok == (line == CRLF) && strm.Pending() == old(strm.Pending())[|line|..]
      ensures |strm.Pending()| <= |old(strm.Pending())|
      ensures old(InChunk("", ps, tail)) ==> ok && BeforeChunks(ps, tail)
      ensures old(MissesInChunk("", ps, tail, more)) && ok ==> MissesChunks(ps, tail, more)
    {
      ghost var text, later := strm.Pending(), Chunks(ps) + (LAST_CHUNK + tail);
      if InChunk("", ps, tail) {
        BreakReads(text, CRLF, later);
      }
      if MissesInChunk("", ps, tail, more) {
        CutBreak(text, more, CRLF, later);
      }
      var line;
      ok, line := strm.GetLine();
      ok := ok && line == CRLF;
    }

    /** One read of the stream inside a chunk, and the account of the chunk. */
    method ReadInChunk(dst: array<char>, len: nat) returns (n: int)
      requires Valid() && strm.Valid() && len <= dst.Length && dst != strm.buffer
      modifies this, strm, strm.buffer, strm.inner, dst
      ensures Valid() && strm.Valid() && n <= len && n <= old(chunkRemaining) && finished == old(finished)
      ensures lastChunkTotal == old(lastChunkTotal)
      ensures chunkRemaining == old(chunkRemaining) - if n > 0 then n else 0
      ensures n > 0 ==> n <= |old(strm.Pending())| && dst[..n] == old(strm.Pending())[..n]
      ensures strm.Pending() == if n > 0 then old(strm.Pending())[n..] else old(strm.Pending())
      ensures strm.inner.reliable && len > 0 && old(chunkRemaining) > 0 && old(strm.Pending()) != "" ==> n > 0
    {
      var toRead := if chunkRemaining < len then chunkRemaining else len;
      n := strm.Read(dst, toRead);
      if n > 0 {
        lastChunkOffset := lastChunkOffset + n;
        chunkRemaining := chunkRemaining - n;
      }
    }

    /** Reads from the open chunk and keeps its account. */
    method TakeBytes(dst: array<char>, len: nat,
                     ghost left: string, ghost ps: seq<string>, ghost tail: string, ghost more: string)
      returns (n: int)
      requires Valid() && strm.Valid() && len <= dst.Length && dst != strm.buffer
      modifies this, strm, strm.buffer, strm.inner, dst
      ensures Valid() && strm.Valid() && n <= len && n <= old(chunkRemaining) && finished == old(finished)
      ensures lastChunkTotal == old(lastChunkTotal)
      ensures chunkRemaining == old(chunkRemaining) - if n > 0 then n else 0
      ensures |strm.Pending()| == |old(strm.Pending())| - if n > 0 then n else 0
      ensures old(InChunk(left, ps, tail)) && len > 0 && left != "" ==>
                0 < n && dst[..n] == left[..n] && InChunk(left[n..], ps, tail)
      ensures old(MissesInChunk(left, ps, tail, more)) && n > 0 ==>
                dst[..n] == left[..n] && MissesInChunk(left[n..], ps, tail, more)
    {
      ghost var inChunk, cut := InChunk(left, ps, tail), MissesInChunk(left, ps, tail, more);
      ghost var text := strm.Pending();
      n := ReadInChunk(dst, len);
      if inChunk && n > 0 {
        SplitAt(left, CRLF + (Chunks(ps) + (LAST_CHUNK + tail)), n);
      }
      if cut && n > 0 {
        SplitCut(text, more, left, CRLF + (Chunks(ps) + (LAST_CHUNK + tail)), n);
      }
    }

    method ReadPayload(dst: array<char>, len: nat, offset0: nat, total0: nat,
                       ghost ps: seq<string>, ghost tail: string, ghost more: string)
      returns (n: int, offset: nat, total: nat)
      requires Valid() && strm.Valid() && len <= dst.Length && dst != strm.buffer
      modifies this, strm, strm.buffer, strm.inner, dst
      ensures Valid() && strm.Valid() && -1 <= n <= len
      ensures n == 0 ==> finished
      ensures old(finished) ==> n == 0 && strm.Pending() == old(strm.Pending())
      ensures n > 0 ==> offset + n <= total && |strm.Pending()| < |old(strm.Pending())|
      ensures |strm.Pending()| <= |old(strm.Pending())|
      ensures old(Carries(ps, tail)) && ps == [] ==> n == 0 && Carries([], tail)
      ensures old(Carries(ps, tail)) && ps != [] && len > 0 ==>
                && 0 < n <= |ps[0]| && dst[..n] == ps[0][..n] && offset + |ps[0]| == total
                && Carries(if n == |ps[0]| then ps[1..] else [ps[0][n..]] + ps[1..], tail)
      ensures old(Misses(ps, tail, more)) && n == 0 ==> CutEnd(tail, more)
      ensures old(Misses(ps, tail, more)) && n > 0 ==>
                && ps != [] && n <= |ps[0]| && dst[..n] == ps[0][..n]
                && Misses(if n == |ps[0]| then ps[1..] else [ps[0][n..]] + ps[1..], tail, more)
    {
      n, offset, total := -1, offset0, total0;
      if finished {
        return 0, offset, total;
      }
      if chunkRemaining == 0 {
        var size := OpenChunk(ps, tail, more);
        if size.Bad? {
          return;
        }
        if size.Last? {
          return 0, 0, 0;
        }
      }
      ghost var left, later := if ps == [] then "" else ps[0], if ps == [] then [] else ps[1..];
      var offsetBefore := lastChunkOffset;
      n := TakeBytes(dst, len, left, later, tail, more);
      if n <= 0 {
        n := -1;
        return;
      }
      offset, total := offsetBefore, lastChunkTotal;
      if chunkRemaining == 0 {
        var ok := CloseChunk(later, tail, more);
        if !ok {
          n := -1;
        }
      }
    }
  }

  /** One read as a client sees it: the bytes it got, and the payloads still to come. */
  method ReadPiece(dec: ChunkedDecoder, len: nat, ghost ps: seq<string>, ghost tail: string, ghost more: string)
    returns (n: int, piece: string, ghost left: seq<string>)
    requires dec.Valid() && dec.strm.Valid() && len > 0
    modifies dec, dec.strm, dec.strm.buffer, dec.strm.inner
    ensures dec.Valid() && dec.strm.Valid() && (n > 0 ==> |piece| == n)
    ensures |dec.strm.Pending()| <= |old(dec.strm.Pending())|
    ensures n > 0 ==> |dec.strm.Pending()| < |old(dec.strm.Pending())|
    ensures n == 0 ==> dec.finished
    ensures old(dec.Carries(ps, tail)) ==> n >= 0 && dec.Carries(left, tail)
    ensures old(dec.Carries(ps, tail)) && n > 0 ==> Flatten(ps) == piece + Flatten(left)
    ensures old(dec.Carries(ps, tail)) && n == 0 ==> ps == [] == left
    ensures old(dec.Misses(ps, tail, more)) && n == 0 ==> dec.CutEnd(tail, more)
    ensures old(dec.Misses(ps, tail, more)) && n > 0 ==>
              Flatten(ps) == piece + Flatten(left) && dec.Misses(left, tail, more)
  {
    piece, left := "", ps;
    var buf := new char[len];
    var offset, total;
    n, offset, total := dec.ReadPayload(buf, len, 0, 0, ps, tail, more);
    if n > 0 {
      piece := buf[..n];
      if old(dec.Carries(ps, tail) || dec.Misses(ps, tail, more)) {
        FirstTaken(ps, n);
        left := if n == |ps[0]| then ps[1..] else [ps[0][n..]] + ps[1..];
      }
    }
  }

  /** On a text that ends early a line is read whole, or all that is left of it. */
  lemma CutLine(text: string, more: string)
    requires more != ""
    ensures var line := LineOf(text + more);
            if |line| <= |text| then LineOf(text) == line && text[|line|..] + more == (text + more)[|line|..]
            else LineOf(text) == text
  {
    var whole := text + more;
    assert forall i :: 0 <= i < |text| ==> whole[i] == text[i];
    var k := IndexOf(whole, '\n');
    if k < |text| {
      IndexOfIs(text, '\n', k);
      assert whole[..k + 1] == text[..k + 1];
    } else {
      IndexOfIs(text, '\n', |text|);
    }
  }

  lemma BreakReads(text: string, crlf: string, later: string)
    requires IsLine(crlf) && text == "" + (crlf + later)
    ensures LineOf(text) == crlf && text[|crlf|..] == later
  {
    LineEnds(text, crlf);
  }

  lemma CutBreak(text: string, more: string, crlf: string, later: string)
    requires text + more == "" + (crlf + later)
    ensures LineOf(text) == crlf ==> text[|crlf|..] + more == later
  {
    if LineOf(text) == crlf {
      WithoutFront(crlf, text[|crlf|..], more, later);
    }
  }

  lemma WithoutFront(front: string, rest: string, more: string, later: string)
    requires (front + rest) + more == "" + (front + later)
    ensures rest + more == later
  {
    var whole := (front + rest) + more;
    assert whole[|front|..] == rest + more && whole[|front|..] == later;
  }

  lemma SplitCut(text: string, more: string, left: string, later: string, n: nat)
    requires n <= |left| && n <= |text| && text + more == left + later
    ensures text[..n] == left[..n] && text[n..] + more == left[n..] + later
  {
    var whole := text + more;
    assert text[..n] == whole[..n] == left[..n];
    assert text[n..] + more == whole[n..] == left[n..] + later;
  }

  lemma Shift(body: string, piece: string, left: string, left': string)
    requires left == piece + left'
    ensures body + left == (body + piece) + left'
  {
  }

  /** A client that reads with any positive sizes until it is told 0 (or -1). */
  method Drain(dec: ChunkedDecoder, size: nat -> nat, ghost ps: seq<string>, ghost tail: string)
    returns (ok: bool, body: string)
    requires dec.Valid() && dec.strm.Valid() && forall i :: size(i) > 0
    modifies dec, dec.strm, dec.strm.buffer, dec.strm.inner
    ensures dec.Valid() && dec.strm.Valid()
    ensures old(dec.Carries(ps, tail)) ==> ok && body == Flatten(ps) && dec.Carries([], tail) && dec.finished
  {
    body := "";
    ghost var carries := dec.Carries(ps, tail);
    ghost var left := ps;
    var i := 0;
    while true
      invariant dec.Valid() && dec.strm.Valid()
      invariant carries ==> dec.Carries(left, tail) && body + Flatten(left) == Flatten(ps)
      decreases |dec.strm.Pending()|
    {
      var n, piece;
      ghost var left';
      n, piece, left' := ReadPiece(dec, size(i), left, tail, "");
      if n <= 0 {
        return n == 0, body;
      }
      if carries {
        Shift(body, piece, Flatten(left), Flatten(left'));
      }
      body, left := body + piece, left';
      i := i + 1;
    }
  }

  lemma FirstTaken(ps: seq<string>, n: nat)
    requires ps != [] && n <= |ps[0]|
    ensures Flatten(ps) == ps[0][..n] + Flatten(if n == |ps[0]| then ps[1..] else [ps[0][n..]] + ps[1..])
  {
    if n < |ps[0]| {
      var rest := [ps[0][n..]] + ps[1..];
      assert rest[1..] == ps[1..];
      assert ps[0] == ps[0][..n] + ps[0][n..];
    }
  }

  // --------------------------------------------------------------- trailers

  /** What the header-line reader makes of a trailer line. */
  datatype TrailerLine = Malformed | Undeclared | Declared(field: Field)

  /** The trailer section at the front of `text`: the declared fields and what follows it. */
  function Trailers(classify: string -> TrailerLine, text: string, got: seq<Field>): Option<(seq<Field>, string)>
    decreases |text|
  {
    if text == "" then None
    else
      var line := LineOf(text);
      var rest := text[|line|..];
      if line == CRLF then Some((got, rest))
      else if |line| > HEADER_MAX_LENGTH || |got| >= HEADER_MAX_COUNT then None
      else
        match classify(line)
        case Malformed => None
        case Undeclared => Trailers(classify, rest, got)
        case Declared(f) => Trailers(classify, rest, got + [f])
  }

  /** On a stream without errors this reads exactly the trailer section, and leaves what follows it. */
  method ParseTrailersInto(strm: BufferedStream, classify: string -> TrailerLine) returns (dest: Option<seq<Field>>)
    requires strm.Valid()
    modifies strm, strm.buffer, strm.inner
    ensures strm.Valid()
    ensures strm.inner.reliable && strm.buffer.Length > 0 ==>
              match old(Trailers(classify, strm.Pending(), []))
              case None => dest == None
              case Some((fields, rest)) => dest == Some(fields) && strm.Pending() == rest
  {
    var got: seq<Field> := [];
    ghost var healthy := strm.inner.reliable && strm.buffer.Length > 0;
    ghost var spec := Trailers(classify, strm.Pending(), []);
    ghost var text := strm.Pending();
    var ok, line := strm.GetLine();
    if !ok {
      return None;
    }
    while line != CRLF
      invariant strm.Valid() && line != ""
      invariant healthy ==> text != "" && line == LineOf(text) && strm.Pending() == text[|line|..]
      invariant healthy ==> spec == Trailers(classify, text, got)
      decreases |strm.Pending()|, |line|
    {
      if |line| > HEADER_MAX_LENGTH || |got| >= HEADER_MAX_COUNT {
        return None;
      }
      match classify(line) {
        case Malformed => return None;
        case Undeclared =>
        case Declared(f) => got := got + [f];
      }
      text := strm.Pending();
      ok, line := strm.GetLine();
      if !ok {
        return None;
      }
    }
    dest := Some(got);
  }

  /** A trailer line that is read whole and gives back `f`. */
  ghost predicate GivesBack(classify: string -> TrailerLine, line: string, f: Field) {
    && IsLine(line) && line != CRLF && |line| <= HEADER_MAX_LENGTH && classify(line) == Declared(f)
  }

  ghost predicate AllGivenBack(classify: string -> TrailerLine, lines: seq<string>, fs: seq<Field>) {
    |lines| == |fs| && forall i :: 0 <= i < |fs| ==> GivesBack(classify, lines[i], fs[i])
  }

  lemma {:induction false} TrailersRead(
    classify: string -> TrailerLine, lines: seq<string>, fs: seq<Field>, got: seq<Field>, tail: string)
    requires AllGivenBack(classify, lines, fs) && |got| + |fs| <= HEADER_MAX_COUNT
    ensures Trailers(classify, Flatten(lines) + (CRLF + tail), got) == Some((got + fs, tail))
  {
    if fs == [] {
      TrailerEnd(classify, tail, got);
      assert Flatten(lines) + (CRLF + tail) == CRLF + tail;
      assert got + fs == got;
    } else {
      TrailerStep(classify, lines[0], fs[0], Flatten(lines[1..]), CRLF + tail, got);
      TrailersRead(classify, lines[1..], fs[1..], got + [fs[0]], tail);
      MoveFirst(got, fs);
    }
  }

  function DeclaredIn(classify: string -> TrailerLine, line: string): seq<Field> {
    match classify(line)
    case Declared(f) => [f]
    case _ => []
  }

  /** The fields among the lines that are declared. */
  function DeclaredOf(classify: string -> TrailerLine, lines: seq<string>): seq<Field> {
    if lines == [] then []
    else DeclaredIn(classify, lines[0]) + DeclaredOf(classify, lines[1..])
  }

  /** No line too long or malformed, and none met when `room` fields have been taken. */
  predicate Acceptable(classify: string -> TrailerLine, lines: seq<string>, room: int) {
    forall k :: 0 <= k < |lines| ==>
      |lines[k]| <= HEADER_MAX_LENGTH && !classify(lines[k]).Malformed? && |DeclaredOf(classify, lines[..k])| < room
  }

  lemma AcceptableFirst(classify: string -> TrailerLine, lines: seq<string>, room: int)
    requires lines != []
    ensures var taken := |DeclaredIn(classify, lines[0])|;
            Acceptable(classify, lines, room) <==>
            |lines[0]| <= HEADER_MAX_LENGTH && !classify(lines[0]).Malformed? && 0 < room
            && Acceptable(classify, lines[1..], room - taken)
  {
    var first, later := lines[0], lines[1..];
    assert DeclaredOf(classify, lines[..0]) == [];
    forall k | 0 < k <= |lines|
      ensures |DeclaredOf(classify, lines[..k])| ==
              |DeclaredIn(classify, first)| + |DeclaredOf(classify, later[..k - 1])|
    {
      assert lines[..k][1..] == later[..k - 1];
    }
    if Acceptable(classify, lines, room) {
      forall k | 0 <= k < |later|
        ensures |later[k]| <= HEADER_MAX_LENGTH && !classify(later[k]).Malformed?
        ensures |DeclaredOf(classify, later[..k])| < room - |DeclaredIn(classify, first)|
      {
        assert later[k] == lines[k + 1] && later[..k + 1 - 1] == later[..k];
      }
    }
  }

  lemma TrailersFirst(classify: string -> TrailerLine, line: string, rest: string, got: seq<Field>)
    requires IsLine(line) && line != CRLF
    ensures Trailers(classify, line + rest, got) ==
            if |line| > HEADER_MAX_LENGTH || |got| >= HEADER_MAX_COUNT || classify(line).Malformed? then None
            else Trailers(classify, rest, got + DeclaredIn(classify, line))
  {
    LineEnds(line + rest, line);
    assert (line + rest)[|line|..] == rest;
    assert got + [] == got;
  }

  lemma DeclaredFirst(classify: string -> TrailerLine, lines: seq<string>, got: seq<Field>)
    requires lines != []
    ensures got + DeclaredOf(classify, lines) ==
            (got + DeclaredIn(classify, lines[0])) + DeclaredOf(classify, lines[1..])
  {
  }

  lemma SectionFirst(lines: seq<string>, end: string)
    requires lines != []
    ensures Flatten(lines) + end == lines[0] + (Flatten(lines[1..]) + end)
  {
  }

  /**
   * A trailer section of any lines, exactly: the declared fields in order, unless
   * a line is too long, is malformed, or comes when the limit has been reached.
   */
  lemma {:induction false} TrailersExactly(
    classify: string -> TrailerLine, lines: seq<string>, tail: string, got: seq<Field>)
    requires forall i :: 0 <= i < |lines| ==> IsLine(lines[i]) && lines[i] != CRLF
    ensures Trailers(classify, Flatten(lines) + (CRLF + tail), got) ==
            if Acceptable(classify, lines, HEADER_MAX_COUNT - |got|)
            then Some((got + DeclaredOf(classify, lines), tail)) else None
    decreases |lines|
  {
    if lines == [] {
      TrailerEnd(classify, tail, got);
      assert "" + (CRLF + tail) == CRLF + tail && got + [] == got;
    } else {
      var line, later, end := lines[0], lines[1..], CRLF + tail;
      SectionFirst(lines, end);
      TrailersFirst(classify, line, Flatten(later) + end, got);
      AcceptableFirst(classify, lines, HEADER_MAX_COUNT - |got|);
      DeclaredFirst(classify, lines, got);
      TrailersExactly(classify, later, tail, got + DeclaredIn(classify, line));
    }
  }

  lemma WholeTrailer(classify: string -> TrailerLine, trailer: seq<Field>, extra: string)
    requires AllGivenBack(classify, FieldLines(trailer), trailer) && |trailer| <= HEADER_MAX_COUNT
    ensures Trailers(classify, Flatten(FieldLines(trailer)) + (CRLF + extra), []) == Some((trailer, extra))
  {
    TrailersRead(classify, FieldLines(trailer), trailer, [], extra);
    assert [] + trailer == trailer;
  }

  lemma MoveFirst<T>(got: seq<T>, fs: seq<T>)
    requires fs != []
    ensures (got + [fs[0]]) + fs[1..] == got + fs
  {
  }

  lemma TrailerEnd(classify: string -> TrailerLine, tail: string, got: seq<Field>)
    ensures Trailers(classify, CRLF + tail, got) == Some((got, tail))
  {
    LineEnds(CRLF + tail, CRLF);
    assert (CRLF + tail)[2..] == tail;
  }

  lemma TrailerStep(
    classify: string -> TrailerLine, line: string, f: Field, lines: string, end: string, got: seq<Field>)
    requires GivesBack(classify, line, f) && |got| < HEADER_MAX_COUNT
    ensures Trailers(classify, line + lines + end, got) == Trailers(classify, lines + end, got + [f])
  {
    var text := line + lines + end;
    assert text == line + (lines + end);
    LineEnds(text, line);
    assert text[|line|..] == lines + end;
  }

  /** Only all of `tail` is read as a trailer section, not a beginning of it. */
  ghost predicate NeedsAll(classify: string -> TrailerLine, tail: string) {
    forall text: string, more: string :: text + more == tail && more != "" ==> Trailers(classify, text, []).None?
  }

  lemma CutTrailer(classify: string -> TrailerLine, text: string, tail: string, more: string)
    requires NeedsAll(classify, tail) && more != "" && (text == "" || text + more == tail)
    ensures Trailers(classify, text, []).None?
  {
  }

  /** A line that is cut off is the last one, and not the empty line. */
  lemma CutOffLine(classify: string -> TrailerLine, text: string, more: string, line: string, got: seq<Field>)
    requires IsLine(line) && line <= text + more && |text| < |line|
    ensures Trailers(classify, text, got).None?
  {
    LineEnds(text + more, line);
    assert more != "";
    CutLine(text, more);
    assert forall i :: 0 <= i < |text| ==> (text + more)[i] == text[i] == line[i];
    assert text[|text|..] == "";
  }

  lemma WholeLine(text: string, more: string, line: string, later: string)
    requires IsLine(line) && text + more == line + later && |line| <= |text|
    ensures LineOf(text) == line && text[|line|..] + more == later
  {
    assert text[..|line|] == (text + more)[..|line|] == line;
    LineEnds(text, line);
    assert text[|line|..] + more == (text + more)[|line|..];
  }

  /** Whatever the line reader makes of the field lines, without the empty line behind them there is no section. */
  lemma {:induction false} CutSection(
    classify: string -> TrailerLine, lines: seq<string>, text: string, more: string, got: seq<Field>)
    requires forall i :: 0 <= i < |lines| ==> IsLine(lines[i]) && lines[i] != CRLF
    requires text + more == Flatten(lines) + CRLF && more != ""
    ensures Trailers(classify, text, got).None?
    decreases |lines|
  {
    if lines == [] {
      assert text + more == CRLF;
      CutOffLine(classify, text, more, CRLF, got);
    } else {
      var later := Flatten(lines[1..]) + CRLF;
      assert text + more == lines[0] + later;
      if |text| < |lines[0]| {
        CutOffLine(classify, text, more, lines[0], got);
      } else {
        WholeLine(text, more, lines[0], later);
        var left := text[|lines[0]|..];
        forall got' ensures Trailers(classify, left, got').None? {
          CutSection(classify, lines[1..], left, more, got');
        }
      }
    }
  }

  lemma FieldsNeedAll(classify: string -> TrailerLine, lines: seq<string>)
    requires forall i :: 0 <= i < |lines| ==> IsLine(lines[i]) && lines[i] != CRLF
    ensures NeedsAll(classify, Flatten(lines) + CRLF)
  {
    forall text: string, more: string | text + more == Flatten(lines) + CRLF && more != ""
      ensures Trailers(classify, text, []).None?
    {
      CutSection(classify, lines, text, more, []);
    }
  }

  /** Reads a whole message: its payloads, then its trailer section. */
  method ReceiveMessage(dec: ChunkedDecoder, size: nat -> nat, classify: string -> TrailerLine,
                        ghost ps: seq<string>, ghost trailer: seq<Field>, ghost extra: string)
    returns (body: string, fields: Option<seq<Field>>)
    requires AllGivenBack(classify, FieldLines(trailer), trailer) && |trailer| <= HEADER_MAX_COUNT
    requires forall i :: size(i) > 0
    requires dec.Carries(ps, Flatten(FieldLines(trailer)) + (CRLF + extra))
    modifies dec, dec.strm, dec.strm.buffer, dec.strm.inner
    ensures dec.strm.Valid()
    ensures body == Flatten(ps) && fields == Some(trailer) && dec.strm.Pending() == extra
  {
    ghost var tail := Flatten(FieldLines(trailer)) + (CRLF + extra);
    var ok;
    ok, body := Drain(dec, size, ps, tail);
    WholeTrailer(classify, trailer, extra);
    fields := ParseTrailersInto(dec.strm, classify);
  }

  /** The trailer section behind the last chunk; of a beginning of it nothing comes. */
  method ReadTrailers(dec: ChunkedDecoder, classify: string -> TrailerLine, ghost tail: string, ghost more: string)
    returns (trailers: Option<seq<Field>>)
    requires dec.Valid() && dec.strm.Valid()
    modifies dec.strm, dec.strm.buffer, dec.strm.inner
    ensures dec.Valid() && dec.strm.Valid()
    ensures old(dec.Healthy()) ==>
              match Trailers(classify, old(dec.strm.Pending()), [])
              case None => trailers == None
              case Some((fields, rest)) => trailers == Some(fields) && dec.strm.Pending() == rest
    ensures old(dec.CutEnd(tail, more)) && more != "" && NeedsAll(classify, tail) ==> trailers == None
  {
    if dec.CutEnd(tail, more) && more != "" && NeedsAll(classify, tail) {
      CutTrailer(classify, dec.strm.Pending(), tail, more);
    }
    trailers := ParseTrailersInto(dec.strm, classify);
  }

  datatype ReadResult = Success | Error | PayloadTooLarge

  ghost predicate Agrees(receiver: string -> bool) {
    forall s :: receiver(s)
  }

  /** Of the payloads `ps` the receiver has `body`, and `left` is to come. */
  ghost predicate Handed(dec: ChunkedDecoder, body: string, left: seq<string>,
                         ps: seq<string>, tail: string, more: string, carries: bool, misses: bool)
    reads dec, dec.strm, dec.strm.buffer, dec.strm.inner
  {
    && (carries ==> dec.Carries(left, tail))
    && (misses ==> dec.Misses(left, tail, more))
    && (carries || misses ==> body + Flatten(left) == Flatten(ps))
  }

  /** What one turn of the body reader comes to. */
  datatype Turn = More | End | Fails | TooMuch

  method ReadTurn(dec: ChunkedDecoder, bufSize: nat, limit: nat, receiver: string -> bool, given: string,
                  ghost open: seq<string>, ghost ps: seq<string>, ghost tail: string, ghost more: string,
                  ghost carries: bool, ghost misses: bool)
    returns (turn: Turn, body: string, ghost left: seq<string>)
    requires dec.Valid() && dec.strm.Valid() && bufSize > 0 && |given| <= limit
    requires Handed(dec, given, open, ps, tail, more, carries, misses)
    modifies dec, dec.strm, dec.strm.buffer, dec.strm.inner
    ensures dec.Valid() && dec.strm.Valid() && |body| <= limit
    ensures carries || misses ==> body <= Flatten(ps)
    ensures turn.More? ==> Handed(dec, body, left, ps, tail, more, carries, misses)
    ensures turn.More? ==> |dec.strm.Pending()| < |old(dec.strm.Pending())|
    ensures |dec.strm.Pending()| <= |old(dec.strm.Pending())|
    ensures turn.End? && carries ==> dec.Carries([], tail) && body == Flatten(ps)
    ensures turn.End? ==> dec.finished && (misses ==> dec.CutEnd(tail, more))
    ensures turn.Fails? && carries ==> !Agrees(receiver)
    ensures turn.TooMuch? && carries ==> |Flatten(ps)| > limit
  {
    var n, piece;
    n, piece, left := ReadPiece(dec, bufSize, open, tail, more);
    body := given;
    if n < 0 {
      turn := Fails;
    } else if n == 0 {
      turn := End;
    } else {
      if carries || misses {
        Shift(given, piece, Flatten(open), Flatten(left));
      }
      if |given| > limit || limit - |given| < n {
        turn := TooMuch;
      } else if !receiver(given + piece) {
        turn := Fails;
      } else {
        turn, body := More, given + piece;
      }
    }
  }

  /**
   * The body reader with its payload limit. On a stream that carries the
   * payloads `ps` and then `tail` it succeeds exactly when they fit in `limit`
   * and a trailer section follows; on a stream that ends before all of that it
   * never succeeds. Whatever happens the receiver is never handed more than the
   * limit.
   */
  method ReadContentChunked(dec: ChunkedDecoder, bufSize: nat, limit: nat, receiver: string -> bool,
                            classify: string -> TrailerLine,
                            ghost ps: seq<string>, ghost tail: string, ghost more: string)
    returns (result: ReadResult, body: string, trailers: Option<seq<Field>>)
    requires dec.Valid() && dec.strm.Valid() && bufSize > 0
    modifies dec, dec.strm, dec.strm.buffer, dec.strm.inner
    ensures dec.Valid() && dec.strm.Valid() && |body| <= limit
    ensures old(dec.Carries(ps, tail)) && Agrees(receiver) && |Flatten(ps)| <= limit ==>
              && body == Flatten(ps)
              && match Trailers(classify, tail, [])
                 case None => result == Error
                 case Some((fields, rest)) =>
                   result == Success && trailers == Some(fields) && dec.strm.Pending() == rest
    ensures old(dec.Carries(ps, tail)) && Agrees(receiver) && |Flatten(ps)| > limit ==>
              result == PayloadTooLarge && body <= Flatten(ps)
    ensures old(dec.Misses(ps, tail, more)) && NeedsAll(classify, tail) ==> result != Success && body <= Flatten(ps)
  {
    result, body, trailers := Error, "", None;
    ghost var carries, misses := dec.Carries(ps, tail), dec.Misses(ps, tail, more);
    ghost var left := ps;
    var turn := More;
    while turn.More?
      invariant dec.Valid() && dec.strm.Valid() && |body| <= limit
      invariant carries || misses ==> body <= Flatten(ps)
      invariant turn.More? ==> Handed(dec, body, left, ps, tail, more, carries, misses)
      invariant turn.End? && carries ==> dec.Carries([], tail) && body == Flatten(ps)
      invariant turn.End? ==> dec.finished && (misses ==> dec.CutEnd(tail, more))
      invariant turn.Fails? && carries ==> !Agrees(receiver)
      invariant turn.TooMuch? && carries ==> |Flatten(ps)| > limit
      decreases |dec.strm.Pending()|, turn.More?
    {
      turn, body, left := ReadTurn(dec, bufSize, limit, receiver, body, left, ps, tail, more, carries, misses);
    }
    if turn.TooMuch? {
      result := PayloadTooLarge;
    } else if turn.End? {
      trailers := ReadTrailers(dec, classify, tail, more);
      result := if trailers.None? then Error else Success;
    }
  }

  /**
   * The chunked round trip, over any short writes and reads, any buffer and any
   * positive read sizes: once the message is sent, which only an error of the
   * stream can prevent, the client receives the payloads and the trailer fields,
   * and the bytes behind the message are still there for the next one.
   */
  method ChunkedRoundTrip(payloads: seq<string>, trailer: seq<Field>, extra: string, bufSize: nat,
                          reliable: bool, stalls: nat, size: nat -> nat, classify: string -> TrailerLine)
    returns (sent: bool, body: string, fields: Option<seq<Field>>, ghost unread: string)
    requires Sized(payloads) && bufSize > 0
    requires AllGivenBack(classify, FieldLines(trailer), trailer) && |trailer| <= HEADER_MAX_COUNT
    requires forall i :: size(i) > 0
    ensures sent ==> body == Flatten(payloads) && fields == Some(trailer) && unread == extra
    ensures reliable ==> sent
  {
    body, fields, unread := "", None, "";
    var out := new OutStream(reliable, stalls);
    sent := WriteWhole(out, payloads, trailer);
    if sent {
      MessageText(Chunks(payloads), Flatten(FieldLines(trailer)), extra);
      var inner := new InnerStream(true, out.sent + extra);
      var strm := new BufferedStream(inner, bufSize);
      var dec := new ChunkedDecoder(strm);
      body, fields := ReceiveMessage(dec, size, classify, payloads, trailer, extra);
      unread := strm.Pending();
    }
  }

  lemma MessageText(chunks: string, fields: string, extra: string)
    ensures "" + (chunks + (LAST_CHUNK + fields + CRLF)) + extra == chunks + (LAST_CHUNK + (fields + (CRLF + extra)))
  {
  }

  ghost predicate Sized(ps: seq<string>) {
    forall i :: 0 <= i < |ps| ==> 0 < |ps[i]| < ULONG_MAX
  }

  /** The size line in front of the payloads still to come, and what follows it. */
  lemma FirstLine(ps: seq<string>, tail: string)
    requires Sized(ps)
    ensures var text := Chunks(ps) + (LAST_CHUNK + tail);
            var line := LineOf(text);
            && line != ""
            && ParseSize(line) == (if ps == [] then Last else Size(|ps[0]|))
            && text[|line|..] == if ps == [] then tail else ps[0] + (CRLF + (Chunks(ps[1..]) + (LAST_CHUNK + tail)))
  {
    var text := Chunks(ps) + (LAST_CHUNK + tail);
    if ps == [] {
      assert text == LAST_CHUNK + tail;
      LastChunkReads(tail);
    } else {
      var line, later := Hex(|ps[0]|) + CRLF, Chunks(ps[1..]) + (LAST_CHUNK + tail);
      ChunkText(Hex(|ps[0]|), ps[0], Chunks(ps[1..]), LAST_CHUNK + tail);
      SizeLineReads(|ps[0]|, ps[0] + (CRLF + later));
    }
  }

  lemma ChunkText(size: string, p: string, chunks: string, end: string)
    ensures (size + CRLF + p + CRLF + chunks) + end == size + CRLF + (p + (CRLF + (chunks + end)))
  {
  }

  lemma SplitAt(left: string, more: string, n: nat)
    requires n <= |left|
    ensures (left + more)[..n] == left[..n] && (left + more)[n..] == left[n..] + more
  {
  }
}
