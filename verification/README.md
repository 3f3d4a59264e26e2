# Verified models of koroutine

Dafny models of the parts of the koroutine library whose correctness tests
cannot settle, with proofs for all inputs, all fragmentations and all
interleavings.

**HTTP codecs** (the bundled, modified httplib).

- *Multipart forms* (section 5.1.1 of RFC 2046, as used by section 4.1 of
  RFC 7578). `Multipart` is the parser as a function on values, `FormDataParsing`
  the same parser over its sliding buffer, proved equal to it method by method,
  and `MultipartRoundTrip` the proof that a printed body cut anywhere arrives
  unchanged. `MultipartRefusals` says exactly when it refuses, `MultipartLimit`
  that its limit on header lines is exact, `MultipartEdges` what it makes of text
  around the items. `PartHeaders` is the reader of header lines, `FormItems` says
  exactly which items come back, and `MultipartForms` puts printer and parser
  object together. `Search` is the theory of delimiters they share.
- *Header fields* (section 5 of RFC 9110): `HeaderFields` is the reader of field
  lines, `PathCoding` the percent-coding it applies to values.
- *Streams and chunked coding* (section 7.1 of RFC 9112). `Streams` shows that
  the buffered stream is the plain stream; `Chunked` runs the writer against the
  resumable decoder; `ChunkedCut` does so with messages that end early;
  `TrailerFields` adds the reader of trailer lines.
  `Numerals` holds the hexadecimal printer and `strtoul`.
- *Ranges* (sections 14.1.2 and 14.2 of RFC 9110). `Ranges` is the meaning of a
  range list, merging and its cost; `RangeRequests` the code that rewrites a
  request in place; `RangeGaps` when its result has gaps; `RangeHeaders` the
  header's printer and parser.
- *Routes*: `Routes` says what a pattern means, `RouteNuls` which NUL characters
  spoil that, `PathParamsMatchers` holds the two loops.
- *Query strings* (section 2.1 of RFC 3986): `PercentCoding`, `Splitting`,
  `Queries` and `QueryParams`.
- *Base64* (section 4 of RFC 4648): `Base64`.

**Coroutine coordination.** Each protocol is a step relation at the grain of
locked sections and single atomic accesses, with sequentially consistent memory,
for any number of participants and every interleaving. Theorems speak about all
reachable states; beside each relation stands the class whose methods carry out
its steps on the real fields.

- `ChannelProtocol`, `ChannelProofs`, `ChannelTheorems`, `Channels`
- `WhenAllProtocol`, `WhenAllTheorems`, `WhenAllStates`
- `ThreadPoolProtocol`, `ThreadPoolTheorems`, `ThreadPoolExecutors`
- `AsyncMutexProtocol`

`AwaiterLists` is the theory of waiter lists with removal that the channel and
the mutex share; `Strings`, `Decimals` and `Http` hold small common definitions.

Some things are parameters. An adversary chooses how much a read or a write
transfers and whether it fails. What client callbacks answer is an arbitrary
function of everything they were handed so far (`accept`, `receiver`). The parser
and the decoder of chunks are proved for an arbitrary reader of one line (`decode`
for forms, `classify` for trailers); `FormItems` and `TrailerFields` then put in
the readers of the code. Awaiters and tasks are numbers.

`dafny verify dfyconfig.toml` checks the whole project.

## Model

| member | source | states |
|---|---|---|
| `MultipartRoundTrip.MultipartRoundTrip` | include/koroutine/async_io/httplib.h:6368-6526 | for a non-empty item list that fits the format and any cut of a prefix of its printed body into fragments: parsing never fails, and the callbacks have given the beginning of the items, the last perhaps with part of its content; is_valid_ is true exactly when at most the final CRLF is missing, and then every item was given once, in order, with exactly its content |
| `MultipartRoundTrip.NothingElseArrives` | include/koroutine/async_io/httplib.h:6368-6526 | at every place of the invariant the callbacks were handed only the beginning of the items |
| `MultipartLimit.LineLimitIsExact` | include/koroutine/async_io/httplib.h:6388-6392 | the limit of the round trip is exact: a printed body whose other parts fit survives every cut if and only if all its header lines are below 8192 bytes |
| `MultipartLimit.RefusesLongLine` | include/koroutine/async_io/httplib.h:6388-6392 | a line of 8192 bytes or more is refused when the first 8193 bytes of the line and its line end have arrived |
| `MultipartLimit.SomeCutIsRefused` | include/koroutine/async_io/httplib.h:6368-6392 | a body with such a line anywhere has a cut into fragments that the parser refuses |
| `MultipartForms.FormRoundTrip` | include/koroutine/async_io/httplib.h:6352-6526 | the whole way on the object: print the items, cut the text into pieces of the given sizes, feed each piece; every call succeeds, the form is valid and the callbacks gave the items |
| `FormItems.FormComesBack` | include/koroutine/async_io/httplib.h:6368-6526 | the round trip with the header-line reader of the code: a form printed, cut anywhere and parsed is accepted, valid and read as the very items sent (name, filename, content type, content) if and only if every item can be carried: names and filenames are field text without ; and =, and the content type is field content |
| `MultipartForms.FormArrives` | include/koroutine/async_io/httplib.h:6352-6526 | the same on the printer and the parser object, for pieces of any sizes |
| `FormItems.ItemComesBack` | include/koroutine/async_io/httplib.h:6405-6469 | for one item: its printed header lines give back its name, filename and content type if and only if it can be carried |
| `FormItems.NamesComeBack` | include/koroutine/async_io/httplib.h:6407-6445 | names without ; and = are read from the first printed line as they were given |
| `FormItems.NamesAreFree` | include/koroutine/async_io/httplib.h:6137-6161 | no other names come back, whatever else the line is taken to say |
| `FormItems.DispositionReads` | include/koroutine/async_io/httplib.h:6679-6693 | the first line printed for an item is a header line of the code exactly when name and filename are field text |
| `FormItems.ContentTypeLine` | include/koroutine/async_io/httplib.h:6425-6427 | a printed Content-Type line gives the type back exactly when it is field content, and leaves the names alone |
| `MultipartRefusals.RefusesExactly` | include/koroutine/async_io/httplib.h:6394-6498 | refusals, at every cut of a printed body: the call succeeds if and only if every header line met decodes and every callback made was accepted, and then the callbacks are those of a client that never refuses; after a refusal the form is invalid and nothing more was handed on |
| `MultipartRefusals.WholeBodyRefused` | include/koroutine/async_io/httplib.h:6394-6498 | a whole printed body is accepted and valid if and only if all header lines of all items decode and every callback is accepted |
| `MultipartRefusals.FeedAlike` | include/koroutine/async_io/httplib.h:6368-6526 | for any bytes at all, not only printed ones: parsing goes as for a client that never refuses up to the first line that does not decode or callback that is refused, and has failed from there on |
| `MultipartEdges.PreambleIsSkipped` | include/koroutine/async_io/httplib.h:6374-6382 | text in front of the first boundary line is skipped, however it is cut, and the round trip holds behind it |
| `MultipartEdges.ClosingTakesAll` | include/koroutine/async_io/httplib.h:6511-6516 | the closing delimiter makes the form valid and drops what has arrived behind it |
| `MultipartEdges.OddTextWaits` | include/koroutine/async_io/httplib.h:6501-6520 | any other text behind a delimiter is kept and waited on for ever, without a refusal |
| `PartHeaders.ReadPartHeader` | include/koroutine/async_io/httplib.h:6405-6469 | the code for one header line, case by case, computes that meaning |
| `PartHeaders.ParseDispositionParams` | include/koroutine/async_io/httplib.h:6137-6161 | the callback loop with its cache gives the parameters of the specification |
| `PartHeaders.ParseParam` | include/koroutine/async_io/httplib.h:6146-6159 | the inner split: the first piece is the key and the last of the others the value, both without their quotes |
| `PartHeaders.StartWithCaseIgnore` | include/koroutine/async_io/httplib.h:6536-6547 | true exactly when the text begins with the other one, case aside |
| `PartHeaders.TrimDoubleQuotes` | include/koroutine/async_io/httplib.h:3475-3480 | takes off a pair of enclosing quotes and nothing else |
| `PartHeaders.QuotedParam` | include/koroutine/async_io/httplib.h:6137-6161 | a quoted parameter without an equal sign in its value is read as it was written |
| `PartHeaders.EqualSignCutsName` | include/koroutine/async_io/httplib.h:6148-6154 | a name with an equal sign in it is read as what follows the sign, closing quote included |
| `PartHeaders.NamelessIsRefused` | include/koroutine/async_io/httplib.h:6438-6444 | a form-data line with a filename and no name is refused |
| `PartHeaders.ExtendedFilename` | include/koroutine/async_io/httplib.h:6451-6467 | filename* in UTF-8 is percent-decoded; without any text it is refused |
| `PartHeaders.EveryLineIsKept` | include/koroutine/async_io/httplib.h:6407-6421 | every field line is added to the headers of the entry, its value decoded, whatever else becomes of the line |
| `PartHeaders.DispositionMatches` | include/koroutine/async_io/httplib.h:6429-6434 | the regular expression takes any case and any blanks behind the colon and the semicolon |
| `PartHeaders.DispositionNeeds` | include/koroutine/async_io/httplib.h:6429-6434 | and nothing else |
| `MultipartRoundTrip.DelimiterNeverOverlaps` | include/koroutine/async_io/httplib.h:6666-6676 | a boundary of letters, digits, - and _ makes CRLF--boundary a delimiter that cannot overlap itself |
| `MultipartRoundTrip.Framing` | include/koroutine/async_io/httplib.h:6678-6722 | a printed body, with a CRLF in front, is a chain of delimiters with one part between two of them: the text the parser works through |
| `MultipartRoundTrip.KeepStart` | include/koroutine/async_io/httplib.h:6374-6382 | looking for the first boundary line keeps the parser on track, or waits because it has not seen it all |
| `MultipartRoundTrip.KeepHeaders` | include/koroutine/async_io/httplib.h:6388-6475 | reading header lines consumes exactly the lines that are complete in the window |
| `MultipartRoundTrip.KeepBodyWhole` | include/koroutine/async_io/httplib.h:6480-6487 | a delimiter in the window ends the content exactly where the item ends |
| `MultipartRoundTrip.KeepBodyPiece` | include/koroutine/async_io/httplib.h:6488-6498 | without a delimiter in the window, the bytes handed on are content and the bytes kept back are enough to recognise the delimiter |
| `MultipartRoundTrip.KeepBoundary` | include/koroutine/async_io/httplib.h:6501-6521 | behind a delimiter: another part, the end, or too few bytes to tell |
| `MultipartRoundTrip.StepKeeps` | include/koroutine/async_io/httplib.h:6372-6523 | every turn of the loop keeps the invariant that log, window and unread input together are the body, and never refuses |
| `MultipartRoundTrip.RunKeeps` | include/koroutine/async_io/httplib.h:6372-6525 | a whole call of parse keeps the invariant; it stops early only when input is missing |
| `MultipartRoundTrip.FeedKeeps` | include/koroutine/async_io/httplib.h:6368-6526 | the same for any number of calls, with the input cut anywhere, also into empty fragments |
| `MultipartRoundTrip.StartsOnTrack` | include/koroutine/async_io/httplib.h:6360-6364 | a fresh parser in front of a printed body satisfies the invariant |
| `Multipart.Step` | include/koroutine/async_io/httplib.h:6372-6523 | one turn of the loop, and its termination measure: the window shrinks, or stays while state 1 is left |
| `Multipart.SerializeFormData` | include/koroutine/async_io/httplib.h:6707-6722 | the printing loop gives the concatenated items, and the closing delimiter if asked for |
| `Search.Find` | include/koroutine/async_io/httplib.h:6583-6612 | what buf_find is for: the first occurrence, or the size of the text |
| `Search.DelimiterFirst` | include/koroutine/async_io/httplib.h:6480-6481 | text free of a delimiter that cannot overlap itself keeps the delimiter behind it in first place |
| `Search.FindInPrefix` | include/koroutine/async_io/httplib.h:6583-6612 | what a search in only a prefix of the text finds: the same occurrence if it is complete, else nothing |
| `FormDataParsing.FormDataParser.constructor` | include/koroutine/async_io/httplib.h:6358-6358 | a new parser is the start state of the specification |
| `FormDataParsing.FormDataParser.SetBoundary` | include/koroutine/async_io/httplib.h:6360-6364 | the two delimiters follow the boundary; nothing else changes |
| `FormDataParsing.FormDataParser.StartWith` | include/koroutine/async_io/httplib.h:6560-6571 | true exactly when the text stands at that place of the window |
| `FormDataParsing.FormDataParser.BufFind` | include/koroutine/async_io/httplib.h:6583-6612 | the two nested loops return the first occurrence in the window, or its size |
| `FormDataParsing.FormDataParser.Compact` | include/koroutine/async_io/httplib.h:6614-6622 | moving the window to the front in place keeps its content |
| `FormDataParsing.FormDataParser.BufAppend` | include/koroutine/async_io/httplib.h:6614-6632 | after compaction, growth and copying the window is the old window followed by the data |
| `FormDataParsing.FormDataParser.BufErase` | include/koroutine/async_io/httplib.h:6634-6634 | drops exactly the first bytes of the window |
| `FormDataParsing.FormDataParser.ReadEmptyLine` | include/koroutine/async_io/httplib.h:6394-6403 | the end of the headers: the entry is handed over; if it is accepted the content is next and the verdict on the form stays, if not the form is invalid and parsing stops |
| `FormDataParsing.FormDataParser.ReadHeaderLine` | include/koroutine/async_io/httplib.h:6405-6469 | one header line: if it decodes it leaves the window and the verdict on the form stays, if not the form is invalid and parsing stops; the entry is what the decoder made of it |
| `FormDataParsing.FormDataParser.EndBody` | include/koroutine/async_io/httplib.h:6480-6487 | the last piece of a content is handed over; if it is accepted the delimiter is passed, if not the form is invalid and parsing stops |
| `FormDataParsing.FormDataParser.ParseInitial` | include/koroutine/async_io/httplib.h:6374-6382 | state 0 on the buffer is state 0 of the specification |
| `FormDataParsing.FormDataParser.ParseHeaders` | include/koroutine/async_io/httplib.h:6388-6475 | state 2 on the buffer is state 2 of the specification, length check and inner loop included |
| `FormDataParsing.FormDataParser.ParseBody` | include/koroutine/async_io/httplib.h:6476-6500 | state 3 on the buffer is state 3 of the specification |
| `FormDataParsing.FormDataParser.ParseBoundary` | include/koroutine/async_io/httplib.h:6501-6521 | state 4 on the buffer is state 4 of the specification |
| `FormDataParsing.FormDataParser.Turn` | include/koroutine/async_io/httplib.h:6372-6523 | one turn of the loop is one step of the specification |
| `FormDataParsing.FormDataParser.Parse` | include/koroutine/async_io/httplib.h:6368-6526 | terminates for every input, and does what the specification does with the window and the data |
| `FormDataParsing.FormDataParser.ParseAll` | include/koroutine/async_io/httplib.h:6368-6526 | any number of calls is the run of the specification that the round trip speaks about |
| `HeaderFields.PrintedFieldReads` | include/koroutine/async_io/httplib.h:3302-3358 | for all names and values: a printed field line is read back as its name and value if and only if the name is a token and the value field content |
| `HeaderFields.NoMoreIsRead` | include/koroutine/async_io/httplib.h:3302-3358 | whatever is printed, the value read under the same name is no longer, and the same if of the same length |
| `HeaderFields.ParseHeader` | include/koroutine/async_io/httplib.h:3302-3358 | the three scans give name and value of a line, or refuse it exactly when the specification does |
| `HeaderFields.CheckFieldContent` | include/koroutine/async_io/httplib.h:3031-3058 | the case distinction by length decides: field text that neither begins nor ends with a blank |
| `HeaderFields.TokenCharsAre` | include/koroutine/async_io/httplib.h:3005-3009 | the characters of a name are the visible ones without the delimiters of section 5.6.2 of RFC 9110 |
| `HeaderFields.FieldVcharsAre` | include/koroutine/async_io/httplib.h:3025-3029 | the characters of a value besides blanks are all bytes but the controls, space and DEL |
| `HeaderFields.ValueStays` | include/koroutine/async_io/httplib.h:3346-3351 | a value is handed on unchanged exactly when it is kept (Location, Referer) or has no escape to decode; else it gets shorter |
| `PathCoding.EncodePathComponent` | include/koroutine/async_io/httplib.h:7447-7480 | the loop writes the encoding of the specification |
| `PathCoding.DecodePathComponent` | include/koroutine/async_io/httplib.h:7482-7518 | the loop with its look-ahead decodes as the specification does |
| `PathCoding.FromHexToI` | include/koroutine/async_io/httplib.h:3088-3107 | the digit loop gives the value of exactly so many digits, or fails |
| `PathCoding.PathRoundTrip` | include/koroutine/async_io/httplib.h:7447-7518 | for all bytes: decoding undoes encoding |
| `PathCoding.SameExactly` | include/koroutine/async_io/httplib.h:7482-7518 | decoding leaves a text alone if and only if it has no escape; otherwise the text gets shorter |
| `PathCoding.StaysExactly` | include/koroutine/async_io/httplib.h:7453-7472 | the characters left alone are the pchar of section 3.3 of RFC 3986 |
| `PathCoding.Utf8Reads` | include/koroutine/async_io/httplib.h:3119-3150 | every code point but the surrogates is written as the bytes from which RFC 3629 reads it, and as few as possible; a surrogate gives nothing |
| `PathCoding.CodePointDecoded` | include/koroutine/async_io/httplib.h:7488-7501 | %u and four digits give the code point in UTF-8 |
| `PathCoding.ByteDecoded` | include/koroutine/async_io/httplib.h:7502-7512 | a percent sign and two digits, of either case, give their byte |
| `Streams.InnerStream.GetLine` | include/koroutine/async_io/httplib.h:7917-7927 | byte by byte: without read errors exactly the next line, else a prefix of it |
| `Streams.OutStream.WriteData` | include/koroutine/async_io/httplib.h:5790-5800 | true only when all the data was written, whatever the short and empty writes; a stream without errors always gets there |
| `Streams.BufferedStream.constructor` | include/koroutine/async_io/httplib.h:3928-3931 | the bytes to come are those of the inner stream |
| `Streams.BufferedStream.Read` | include/koroutine/async_io/httplib.h:3955-3979 | delivers the next bytes to come and leaves the rest, through the window or past it; 0 only at the end |
| `Streams.BufferedStream.Refill` | include/koroutine/async_io/httplib.h:3999-4010 | refilling an empty window loses and invents nothing |
| `Streams.BufferedStream.TakePiece` | include/koroutine/async_io/httplib.h:4012-4024 | takes the window up to a newline, or all of it |
| `Streams.BufferedStream.GetLine` | include/koroutine/async_io/httplib.h:3996-4027 | the same line and the same result as the plain getline, for every buffer size above 0 and every short read; a buffer of size 0 never gives a line |
| `Streams.LineEnds` | include/koroutine/async_io/httplib.h:7919-7925 | a text with its only newline at the end is the line of whatever begins with it |
| `Streams.Interleave` | include/koroutine/async_io/httplib.h:3955-4027 | bytes delivered and bytes still to come are constant over any sequence of read and getline |
| `Streams.SameLine` | include/koroutine/async_io/httplib.h:3996-4027 | side by side on equal bytes, the plain and the buffered getline return the same line and leave equal streams |
| `Numerals.FromIToHex` | include/koroutine/async_io/httplib.h:3109-3117 | the digit loop prints the hexadecimal numeral of the specification |
| `Numerals.HexReads` | include/koroutine/async_io/httplib.h:3109-3117 | the numeral has only lower-case digits and the value that was printed |
| `Numerals.StrToUlReads` | include/koroutine/async_io/httplib.h:10585-10592 | strtoul reads a run of digits whole, with saturation at ULONG_MAX |
| `Numerals.StrToUlReadsHex` | include/koroutine/async_io/httplib.h:10585-10592 | strtoul undoes from_i_to_hex, up to saturation |
| `Numerals.NumberStands` | include/koroutine/async_io/httplib.h:10585-10592 | strtoul finds its digits behind any blanks, a sign and 0x |
| `Numerals.NumberIsRead` | include/koroutine/async_io/httplib.h:10585-10592 | and reads them whole: a minus sign wraps, too large a number saturates |
| `Numerals.NoDigitsNoNumber` | include/koroutine/async_io/httplib.h:10585-10592 | without a digit there strtoul consumes nothing |
| `Chunked.ChunkSink.Write` | include/koroutine/async_io/httplib.h:5909-5933 | appends the size in hexadecimal, the payload and their line ends, and nothing for an empty payload; a failed write sticks |
| `Chunked.ChunkSink.Done` | include/koroutine/async_io/httplib.h:5937-5983 | appends 0, the trailer fields and an empty line |
| `Chunked.ChunkSink.WriteFields` | include/koroutine/async_io/httplib.h:5969-5977 | one field line for each trailer field; a failed write sticks but does not stop the loop |
| `Chunked.CallProvider` | include/koroutine/async_io/httplib.h:5995-6000 | one call of the provider: a chunk, or the end of the message |
| `Chunked.WriteContentChunked` | include/koroutine/async_io/httplib.h:5900-6006 | on success the stream carries what the provider wrote in the calls the loop makes: until it is done, writes nothing, or the server shuts down |
| `Chunked.WholeWhen` | include/koroutine/async_io/httplib.h:5993-6006 | the answer true does not mean a whole message: it is whole if and only if no call finds the server shutting down and no payload is empty |
| `Chunked.SizeLineReads` | include/koroutine/async_io/httplib.h:10579-10605 | the size line of a chunk gives its size back; size 0 is the last chunk |
| `Chunked.FirstLine` | include/koroutine/async_io/httplib.h:10579-10605 | which line a decoder in front of a coded message reads, and what is left behind it |
| `Chunked.SizeLinesMean` | include/koroutine/async_io/httplib.h:10579-10605 | any size line that begins with digits: their value is the size, 0 the last chunk, ULONG_MAX and more an error |
| `Chunked.NoSizeNoChunk` | include/koroutine/async_io/httplib.h:10585-10592 | a line that begins with anything else but blanks or a sign is an error |
| `Chunked.ChunkedDecoder.ReadSizeLine` | include/koroutine/async_io/httplib.h:10579-10592 | getline and strtoul: what the size line says |
| `Chunked.ChunkedDecoder.OpenChunk` | include/koroutine/async_io/httplib.h:10579-10605 | opens the chunk that the size line announces; ULONG_MAX and lines without digits are errors |
| `Chunked.ChunkedDecoder.TakeBytes` | include/koroutine/async_io/httplib.h:10607-10618 | keeps last_chunk_offset + chunk_remaining == last_chunk_total |
| `Chunked.ChunkedDecoder.CloseChunk` | include/koroutine/async_io/httplib.h:10620-10628 | behind a full chunk exactly a CRLF is consumed, anything else is an error |
| `Chunked.ChunkedDecoder.ReadPayload` | include/koroutine/async_io/httplib.h:10573-10631 | from any resumption point inside a coded message: a non-empty piece of the payload it stands in, with the right offset and total, or 0 at the end; the account of the chunk is kept |
| `Chunked.Drain` | include/koroutine/async_io/httplib.h:10573-10631 | reading until 0, with any positive read sizes, gives the concatenated payloads and stops in front of the trailer section |
| `Chunked.TrailersRead` | include/koroutine/async_io/httplib.h:3426-3456 | the trailer section of a message gives back its fields and ends at its empty line |
| `Chunked.TrailersExactly` | include/koroutine/async_io/httplib.h:3426-3456 | a trailer section of any lines is read as its declared fields, in order, if and only if no line is too long or malformed and none comes when the limit of fields is reached |
| `TrailerFields.TrailersComeBack` | include/koroutine/async_io/httplib.h:3360-3456 | the chunked round trip with the reader of trailer lines that the code has: payloads and trailer fields come back, and the bytes behind the message stay |
| `TrailerFields.FieldComesBack` | include/koroutine/async_io/httplib.h:3426-3456 | a printed trailer line gives its field back if and only if the name is a declared token, the value is field content that decoding leaves alone, and the line is within the limit |
| `TrailerFields.DeclaredTrailers` | include/koroutine/async_io/httplib.h:3376-3424 | the loop over the Trailer header takes every name in it but the prohibited ones, case aside |
| `Chunked.ParseTrailersInto` | include/koroutine/async_io/httplib.h:10633-10640 | consumes exactly the trailer section, with the limits on line length and number of fields |
| `Chunked.ReceiveMessage` | include/koroutine/async_io/httplib.h:10573-10640 | a whole message: payloads, fields, and the bytes behind it untouched |
| `Chunked.ReadTurn` | include/koroutine/async_io/httplib.h:5612-5638 | one turn of the loop: a piece for the receiver within the limit, the end, or the reason to stop |
| `Chunked.ReadContentChunked` | include/koroutine/async_io/httplib.h:5604-5639 | on a coded message: success exactly when the payloads fit in the limit and a trailer section follows; on a message that ends early: never success; never more than the limit is handed on, whatever arrives |
| `Chunked.CutSection` | include/koroutine/async_io/httplib.h:3426-3456 | whatever the line reader makes of the lines, a trailer section that ends early is not read as one |
| `ChunkedCut.ReadMessage` | include/koroutine/async_io/httplib.h:5604-5639 | any proper beginning of a message, read in whatever pieces, is an error, and what was handed on is a beginning of the payloads; the whole message is read completely |
| `ChunkedCut.ShutdownIsNoticed` | include/koroutine/async_io/httplib.h:5604-6006 | writer against reader with shutting down between any two calls: the writer reports success all the same, the reader does if and only if no call saw the shutdown, and then has all payloads and fields |
| `Chunked.ChunkedRoundTrip` | include/koroutine/async_io/httplib.h:5900-6006 | writer against decoder over short writes, short reads, any buffer and any read sizes: sending fails only if the stream does; otherwise body and fields come back and the bytes behind the message are still there |
| `Ranges.NormalKeepsMeaning` | include/koroutine/async_io/httplib.h:6804-6827 | replacing absent ends by positions keeps the positions asked for, whenever the range is accepted |
| `Ranges.NormalTwice` | include/koroutine/async_io/httplib.h:6738-6753 | normalising a range again inside coalesce_ranges changes nothing |
| `Ranges.RefusedExactly` | include/koroutine/async_io/httplib.h:6797-6844 | in terms of the ranges as sent: refused if and only if there are more than 1024, one cannot be served, or more than two ask again for a position that an earlier one asks for |
| `Ranges.SatisfiableExactly` | include/koroutine/async_io/httplib.h:6804-6831 | a range can be served exactly when its ends as sent say so: content for the whole, 1 <= n <= length for a suffix, a start inside and not behind its end otherwise |
| `Ranges.OverlapIsShared` | include/koroutine/async_io/httplib.h:6836-6846 | the comparison of the ends says that some position is in both ranges |
| `Ranges.CoalescedFollows` | include/koroutine/async_io/httplib.h:6735-6775 | merging in sorted order keeps the positions covered, the bounds and the order, and never adds length |
| `Ranges.CoalescedIsGapped` | include/koroutine/async_io/httplib.h:6762-6771 | when each repeated range has the position in front of it covered, there is a real gap between neighbours after every step of the merging pass |
| `Ranges.CostBound` | include/koroutine/async_io/httplib.h:6836-6846 | at most two overlapping ranges cost at most three times the content |
| `Ranges.CostBoundIsTight` | include/koroutine/async_io/httplib.h:6836-6846 | three whole-content ranges are accepted and meet the bound |
| `RangeRequests.AcceptedRanges` | include/koroutine/async_io/httplib.h:6780-6850 | what an accepted list becomes: sorted, in bounds, covering exactly the positions asked for, no longer than 3 * content length before and after, with gaps if each repeated normal range has the position in front of it covered |
| `RangeRequests.CoalescingNeedsNormalRanges` | include/koroutine/async_io/httplib.h:6727-6729 | coalesce_ranges alone sorts on raw starts: of any suffix and any range behind it, the range is kept if and only if the suffix does not begin behind its start |
| `RangeGaps.GapsExactly` | include/koroutine/async_io/httplib.h:6760-6771 | for every list in bounds: all results of coalescing, whatever the order among equal starts, have gaps if and only if each repeated range has the position in front of it covered |
| `RangeGaps.RepetitionShows` | include/koroutine/async_io/httplib.h:6762-6771 | a repeated range with nothing in front of it: an order among equal starts after which the result has no gap |
| `Ranges.DistinctIsSafe` | include/koroutine/async_io/httplib.h:6762-6771 | a list without repetition meets that condition |
| `RangeRequests.SuffixRanges` | include/koroutine/async_io/httplib.h:6809-6831 | a suffix range is served exactly when 1 <= length <= content length; longer ones are refused, unlike section 14.1.2 of RFC 9110 |
| `RangeRequests.Request.CoalesceRanges` | include/koroutine/async_io/httplib.h:6724-6778 | sorting with any order among equal starts, then the merging pass; lists of at most one range are left alone |
| `RangeRequests.Request.Normalize` | include/koroutine/async_io/httplib.h:6801-6826 | rewrites one range in place and no other |
| `RangeRequests.Request.OverlapsProcessed` | include/koroutine/async_io/httplib.h:6836-6846 | finds out whether a processed range overlaps, counting it once |
| `RangeRequests.Request.CheckRanges` | include/koroutine/async_io/httplib.h:6797-6844 | refuses exactly: more than 1024 ranges, one out of bounds, or more than two that overlap an earlier one |
| `RangeRequests.Request.RangeError` | include/koroutine/async_io/httplib.h:6780-6850 | true exactly for a refused list under a 2xx status; otherwise leaves the coalesced list, or the list unchanged |
| `RangeRequests.GetRangeOffsetAndLength` | include/koroutine/async_io/httplib.h:6852-6860 | the slice holds exactly the positions of the range; the asserts of the code are its precondition |
| `RangeRequests.Serve` | include/koroutine/async_io/httplib.h:6876-6917 | after range_error every slice lies in the body, and together they hold exactly the positions asked for |
| `RangeHeaders.MakeRangeHeader` | include/koroutine/async_io/httplib.h:7608-7626 | prints the header of the specification |
| `RangeHeaders.ParseRangeHeader` | include/koroutine/async_io/httplib.h:6163-6216 | the list a header stands for, or refusal: too short, another unit, an empty list, a bad range, a number that does not fit |
| `RangeHeaders.ParseOne` | include/koroutine/async_io/httplib.h:6174-6204 | one field of the header, its error cases included |
| `RangeHeaders.RangeReads` | include/koroutine/async_io/httplib.h:6174-6204 | a printed range is read back if it can be said in a header, and refused otherwise |
| `RangeHeaders.RangeHeaderRoundTrip` | include/koroutine/async_io/httplib.h:6163-6216 | for all lists of 64-bit ends: the parser gives the printed list back exactly when it is not empty and every range can be said |
| `RangeHeaders.ReadsExactly` | include/koroutine/async_io/httplib.h:6163-6216 | any header is read as a list if and only if it begins with bytes= and each of its fields says one range of the list: digits or nothing on both sides of a dash, not nothing on both, not backwards, within 63 bits |
| `RangeHeaders.HeaderOfOne` | include/koroutine/async_io/httplib.h:7608-7626 | the header of one range |
| `RangeHeaders.HeaderOfMore` | include/koroutine/async_io/httplib.h:7608-7626 | one range more is a comma, a space and its two ends |
| `Decimals.NaturalReads` | include/koroutine/async_io/httplib.h:7617-7622 | the decimal numeral has only digits, no leading zero, and the value that was printed |
| `Decimals.ReadAsWritten` | include/koroutine/async_io/httplib.h:6195-6198 | in a numeral the first digit counts most |
| `Routes.Parse` | include/koroutine/async_io/httplib.h:8107-8158 | a template has one fragment per parameter, and perhaps one more |
| `Routes.ParseReads` | include/koroutine/async_io/httplib.h:8121-8157 | a template takes its pattern apart without loss: filled with its own names it is the pattern, every marker is one parameter, and no name holds a slash |
| `Routes.CapturesFit` | include/koroutine/async_io/httplib.h:8160-8205 | soundness: a path that matches is the pattern filled with the captures, up to one slash behind a last parameter |
| `Routes.FittingIsCaptured` | include/koroutine/async_io/httplib.h:8160-8205 | completeness: a filled pattern matches with exactly the values it was filled with |
| `Routes.SameUpToIs` | include/koroutine/async_io/httplib.h:8172-8177 | strncmp against a fragment whose only NUL is its last character compares all of it |
| `RouteNuls.NulsThatMatter` | include/koroutine/async_io/httplib.h:8160-8205 | for every template: the paths that match are exactly the filled template if and only if no fragment has a NUL before its last character; a NUL there, or in a name, does no harm |
| `RouteNuls.SomeOtherPathMatches` | include/koroutine/async_io/httplib.h:8172-8177 | a NUL earlier in a fragment: a path that matches without being the filled template |
| `Routes.NulFreePattern` | include/koroutine/async_io/httplib.h:8107-8158 | a pattern without NUL has only such fragments |
| `Routes.RouteMatches` | include/koroutine/async_io/httplib.h:8107-8205 | for patterns whose NULs strncmp does not stop at, and all paths: a match with these captures if and only if the filled pattern is the path, and the pattern matches itself with its own names |
| `PathParamsMatchers.PathParamsMatcher.TakeParam` | include/koroutine/async_io/httplib.h:8123-8152 | one turn of the search loop: a fragment and a name, or a repeated name |
| `PathParamsMatchers.PathParamsMatcher.ReadParams` | include/koroutine/async_io/httplib.h:8109-8153 | the search loop takes up every marker of the pattern |
| `PathParamsMatchers.PathParamsMatcher.Init` | include/koroutine/async_io/httplib.h:8107-8158 | the search loop builds the template of the specification, and fails exactly when a name is repeated |
| `PathParamsMatchers.PathParamsMatcher.MatchTurn` | include/koroutine/async_io/httplib.h:8167-8202 | one turn of the matching loop: false exactly for a path that does not match here, else the next fragment and capture |
| `PathParamsMatchers.PathParamsMatcher.Match` | include/koroutine/async_io/httplib.h:8160-8205 | true exactly when the specification matches, and then path_params holds exactly the captures under their names |
| `PercentCoding.EncodeQueryComponent` | include/koroutine/async_io/httplib.h:7520-7572 | the loop with its case distinction writes the encoding of the specification |
| `PercentCoding.DecodeQueryComponent` | include/koroutine/async_io/httplib.h:7574-7597 | the loop reads what the specification reads: hexadecimal pairs as strtoul takes them, + as a space if asked |
| `PercentCoding.DecodeEncode` | include/koroutine/async_io/httplib.h:7520-7597 | decoding gives the component back if and only if both sides agree about + or the character they disagree about does not occur |
| `PercentCoding.EncodedIsClean` | include/koroutine/async_io/httplib.h:7520-7572 | encoder output holds no &, =, space or tab |
| `PercentCoding.ItselfExactly` | include/koroutine/async_io/httplib.h:7526-7563 | a character is left alone if and only if section 3.4 of RFC 3986 allows it in a query and it is not &, = or a + that would mean a space |
| `PercentCoding.OtherwiseCoded` | include/koroutine/async_io/httplib.h:7531-7568 | any other is a percent sign and the two upper-case digits of its value, or + for a space |
| `PercentCoding.HexPairExactly` | include/koroutine/async_io/httplib.h:7579-7588 | the two characters behind a percent sign, as strtoul reads them: two digits, or one digit behind a blank or a sign |
| `PercentCoding.PlainStays` | include/koroutine/async_io/httplib.h:7574-7597 | a text without percent and plus is not changed |
| `PercentCoding.LonePercentStays` | include/koroutine/async_io/httplib.h:7579-7588 | a percent sign without such a pair stays |
| `PercentCoding.DecodedBytes` | include/koroutine/async_io/httplib.h:7574-7597 | decoding never makes a non-empty component empty |
| `Splitting.Trim` | include/koroutine/async_io/httplib.h:3459-3468 | the two loops, one of them bounded by the end of the text, give the trimmed field |
| `Splitting.TrimmedExactly` | include/koroutine/async_io/httplib.h:3459-3468 | trimming takes spaces and tabs off both ends, all of them and nothing else |
| `Splitting.Split` | include/koroutine/async_io/httplib.h:3508-3532 | the callbacks are the trimmed non-empty fields, in order |
| `Splitting.FieldsOfJoined` | include/koroutine/async_io/httplib.h:3508-3532 | split undoes joining with the separator, up to blanks around the parts and parts without anything else |
| `Splitting.FieldsAreFree` | include/koroutine/async_io/httplib.h:3508-3532 | no field is empty or holds the separator |
| `Splitting.FieldsFront` | include/koroutine/async_io/httplib.h:3508-3532 | what stands in front of the first separator is the first field, if anything is left of it |
| `Splitting.Divided` | include/koroutine/async_io/httplib.h:3470-3485 | before and behind the first separator, and the two parts make up the text |
| `Queries.Divide` | include/koroutine/async_io/httplib.h:3470-3485 | the search gives the division of the specification |
| `Queries.PrintedMeans` | include/koroutine/async_io/httplib.h:6113-6118 | a printed field is read back as the entry it was printed for, unless its key is empty |
| `Queries.SpacesArePrintedAsPlus` | include/koroutine/async_io/httplib.h:6113-6118 | a printed field has a + exactly where key or value have a space |
| `Queries.EntriesRoundTrip` | include/koroutine/async_io/httplib.h:6094-6122 | printing entries and reading them again gives the same entries |
| `Queries.NormalForm` | include/koroutine/async_io/httplib.h:6094-6122 | normalize_query_string keeps the ordered list of decoded (key, value, has-=) entries, is idempotent, and gives equal texts exactly for equal lists |
| `Queries.NormalizeQueryString` | include/koroutine/async_io/httplib.h:6094-6122 | the callback loop computes that normal form |
| `QueryParams.EmplacedIsSorted` | include/koroutine/async_io/httplib.h:6080-6082 | emplace keeps the multimap ordered and adds exactly one pair |
| `QueryParams.LessIsLexicographic` | include/koroutine/async_io/httplib.h:597-597 | the order of the multimap is lexicographic on bytes |
| `QueryParams.AddedIsSorted` | include/koroutine/async_io/httplib.h:6061-6084 | parsing any text keeps the multimap ordered |
| `QueryParams.ParseQueryText` | include/koroutine/async_io/httplib.h:6061-6084 | adds what the specification adds: each distinct field text once, none without a key |
| `QueryParams.ParamsToQueryStr` | include/koroutine/async_io/httplib.h:6047-6059 | the printing loop gives the query of the parameters |
| `QueryParams.QueryRoundTrip` | include/koroutine/async_io/httplib.h:6047-6088 | printing and parsing gives the parameters back without empty keys and repeated identical pairs, order kept; all of them exactly when there is nothing to drop |
| `Base64.Base64Encode` | include/koroutine/async_io/httplib.h:3153-3181 | the loops with their 32-bit accumulator write the encoding of section 4 of RFC 4648 |
| `Base64.LooksUp` | include/koroutine/async_io/httplib.h:3166-3174 | whatever the high bits of the accumulator hold, the letter looked up is the next one |
| `Base64.ShiftIn` | include/koroutine/async_io/httplib.h:3167-3168 | the shift wraps at 32 bits, keeps the last byte in place, and the addition cannot overflow |
| `Base64.TakeByte` | include/koroutine/async_io/httplib.h:3166-3168 | a byte shifted into the accumulator: it ends with the last two bytes read, within 32 bits |
| `Base64.EmitLetters` | include/koroutine/async_io/httplib.h:3169-3173 | one or two letters for each byte; the bits not yet written stay fewer than six |
| `Base64.Finish` | include/koroutine/async_io/httplib.h:3176-3180 | the bits left over and the padding |
| `Base64.Base64RoundTrip` | include/koroutine/async_io/httplib.h:3153-3181 | the standard decoder accepts the text and gives the bytes back |
| `Base64.BitsInOrder` | include/koroutine/async_io/httplib.h:3166-3174 | three bytes and their four groups of six bits are the same 24 bits, the first bit first |
| `Base64.CapitalsFirst` | include/koroutine/async_io/httplib.h:3154-3155 | the letters of 0 to 25 |
| `Base64.SmallLettersNext` | include/koroutine/async_io/httplib.h:3154-3155 | the letters of 26 to 51 |
| `Base64.DigitsLast` | include/koroutine/async_io/httplib.h:3154-3155 | the letters of 52 to 63 |
| `Base64.KnownEncoding` | include/koroutine/async_io/httplib.h:3153-3181 | a vector of section 10 of RFC 4648 |
| `Base64.Encoded` | include/koroutine/async_io/httplib.h:3153-3181 | output length 4 * ceil(n / 3) |
| `ChannelTheorems.StepKeepsInv` | include/koroutine/channel.hpp:23-98 | every locked section, resumption, cancellation and close keeps the invariant |
| `ChannelTheorems.RunKeepsInv` | include/koroutine/channel.hpp:23-203 | and so does every run |
| `ChannelTheorems.Conservation` | include/koroutine/channel.hpp:23-98 | in every reachable state before the clean-up: values of uncancelled writes are values handed out, then the buffer, then those of waiting writers; uncancelled reads are served reads, then waiting readers; every served read has the value handed to it as its result, or is owed a resumption with it; the buffer fits, readers wait only when all is empty, writers only when it is full |
| `ChannelTheorems.InOrder` | include/koroutine/channel.hpp:23-86 | in every reachable state: the k-th uncancelled read gets the value of the k-th uncancelled write, as its result or in a resumption owed, for every read that was served; and nobody else has a result |
| `ChannelTheorems.ResumedReadsHaveValues` | include/koroutine/channel.hpp:23-86 | before the clean-up a read has been resumed if and only if it has a result, and then the value of the same-numbered write |
| `ChannelTheorems.ResumedWritesWereTaken` | include/koroutine/channel.hpp:23-86 | before the clean-up a write goes on only when its value was taken, and whoever gave its value has been resumed or is owed it; its value was taken exactly when it neither waits nor was cancelled |
| `ChannelTheorems.ResumedAtMostOnce` | include/koroutine/channel.hpp:23-98 | nobody is resumed twice, or resumed and still owed a resumption |
| `ChannelTheorems.AfterClose` | include/koroutine/channel.hpp:118-124 | after close both lists are empty for ever, and every earlier waiter was removed, resumed or is about to be |
| `ChannelTheorems.CancelledReaderLeaves` | include/koroutine/channel.hpp:94-98 | a reader destroyed while it waits leaves the list; the other readers stay, in order, and nothing else changes |
| `ChannelTheorems.CancelledWriterLeaves` | include/koroutine/channel.hpp:88-92 | the same for a writer |
| `ChannelTheorems.CancelledForGood` | include/koroutine/channel.hpp:23-98 | over every later run: who was destroyed while waiting never waits again, is never resumed or owed a resumption, and never gets a result |
| `ChannelTheorems.OrderIsChronological` | include/koroutine/channel.hpp:23-86 | the numbering of reads and writes is the order of their locked sections on the open channel, read off the events alone |
| `ChannelTheorems.EveryMoveIsThere` | include/koroutine/channel.hpp:23-124 | the model leaves out no interleaving: with the lock free anybody who has not asked may push, any waiter may be destroyed, and every resumption owed may come next |
| `ChannelTheorems.WhenEmptyNobodyWrites` | include/koroutine/channel.hpp:132-147 | an empty buffer means that no writer waits if and only if the capacity is at least 1 |
| `ChannelProofs.ShapeKept` | include/koroutine/channel.hpp:23-98 | readers wait only when buffer and writers are empty, writers only when the buffer is full: kept by every step |
| `ChannelProofs.AccountsKept` | include/koroutine/channel.hpp:23-98 | every awaiter is in one place at most: kept by every step |
| `ChannelProofs.HistoryKept` | include/koroutine/channel.hpp:23-98 | conservation and order: kept by every step |
| `ChannelProofs.DeliveredKept` | include/koroutine/channel.hpp:23-86 | what a reader is resumed with is what the channel took for it: kept by every step |
| `ChannelProofs.AnsweredKept` | include/koroutine/channel.hpp:23-98 | every read served has its value or is owed it, and whoever has a result was resumed: kept by every step |
| `Channels.CallReached` | include/koroutine/channel.hpp:23-86 | an undisturbed push is a run of the protocol |
| `Channels.ReadFull` | include/koroutine/channel.hpp:27-44 | a read from a full channel: the first value out, the first waiting value in behind the others, and that writer goes on |
| `Channels.ReadBuffered` | include/koroutine/channel.hpp:27-44 | a read from the buffer with nobody waiting |
| `Channels.ReadDirect` | include/koroutine/channel.hpp:46-54 | a read from the first waiting writer, past an empty buffer |
| `Channels.ReadWaits` | include/koroutine/channel.hpp:56-56 | with nothing to read the reader is queued last |
| `Channels.WriteDirect` | include/koroutine/channel.hpp:65-73 | a write to the first waiting reader |
| `Channels.WriteBuffered` | include/koroutine/channel.hpp:76-81 | a write into a buffer with room |
| `Channels.WriteWaits` | include/koroutine/channel.hpp:84-84 | with a full buffer the writer is queued last |
| `Channels.PushThrows` | include/koroutine/channel.hpp:17-21 | on a closed channel a push changes nothing and throws |
| `Channels.Channel.constructor` | include/koroutine/channel.hpp:159-161 | a new channel is the empty run |
| `Channels.Channel.TryPushReader` | include/koroutine/channel.hpp:23-57 | the branches of the code carry out exactly the read of the protocol |
| `Channels.Channel.TryPushWriter` | include/koroutine/channel.hpp:59-86 | the branches of the code carry out exactly the write of the protocol |
| `Channels.Channel.PushReader` | include/koroutine/channel.hpp:27-56 | the three branches behind check_closed |
| `Channels.Channel.PushWriter` | include/koroutine/channel.hpp:64-84 | the three branches behind check_closed |
| `Channels.Channel.RemoveReader` | include/koroutine/awaiters/channel_awaiter.hpp:50-52 | when a reader is destroyed the list has lost it, once, and nothing else; other fields do not change; nothing at all happens if it does not wait |
| `Channels.Channel.RemoveWriter` | include/koroutine/awaiters/channel_awaiter.hpp:24-26 | when a writer is destroyed the list has lost it, once, and nothing else; other fields do not change; nothing at all happens if it does not wait |
| `Channels.Channel.Close` | include/koroutine/channel.hpp:118-124 | the first call resumes every waiter in list order and empties everything, a second one does nothing |
| `Channels.Channel.CleanUpLists` | include/koroutine/channel.hpp:185-203 | the two resuming loops and the clearing |
| `Channels.Channel.LooksEmpty` | include/koroutine/channel.hpp:142-147 | what close_when_empty may conclude from an empty buffer |
| `WhenAllTheorems.StepKeepsInv` | include/koroutine/when_all.hpp:258-316 | every atomic action of a wrapper or the awaiter keeps the invariant |
| `WhenAllTheorems.NoUnderflow` | include/koroutine/when_all.hpp:265-279 | the counter is positive whenever a wrapper decrements it |
| `WhenAllTheorems.ScheduledOnlyWhenDone` | include/koroutine/when_all.hpp:265-316 | the continuation is scheduled, or the awaiter goes on directly, only when all wrappers have finished; never more than twice, never in both ways |
| `WhenAllTheorems.NoLostWakeUp` | include/koroutine/when_all.hpp:305-316 | with all wrappers done, a suspended awaiter has been scheduled if and only if there is a scheduler |
| `WhenAllTheorems.ScheduledTwiceWhen` | include/koroutine/when_all.hpp:265-316 | for every number of wrappers and all outcomes: no run schedules the continuation twice if and only if there is no wrapper or no scheduler |
| `WhenAllTheorems.TwiceScheduled` | include/koroutine/when_all.hpp:265-316 | with a scheduler and any number n > 0 of wrappers: a run in which awaiter and last wrapper both schedule it |
| `WhenAllTheorems.ReachedFailures` | include/koroutine/when_all.hpp:274-278 | the exceptions kept are those of the wrappers that failed, in the order in which they recorded them, read off the events alone |
| `WhenAllTheorems.EveryMoveIsThere` | include/koroutine/when_all.hpp:258-316 | in every reachable state each wrapper and the awaiter can take their next step at once |
| `WhenAllTheorems.ResumesWithResults` | include/koroutine/when_all.hpp:318-331 | what await_resume gives: if no task failed all results in index order, whatever the order of completion, else the exception of the wrapper that recorded one first, by the order of the events |
| `WhenAllStates.WhenAllState.RecordOutcome` | include/koroutine/when_all.hpp:260-277 | stores the result at its index, or appends the exception; the other field does not change |
| `WhenAllStates.WhenAllState.CountDown` | include/koroutine/when_all.hpp:265-265 | the decrement, and whether it was the last |
| `WhenAllStates.WhenAllState.ScheduleIfLast` | include/koroutine/when_all.hpp:265-273 | schedules once more if and only if this is the last wrapper and there are a continuation and a scheduler |
| `WhenAllStates.WhenAllState.AwaitReady` | include/koroutine/when_all.hpp:303-303 | goes on directly exactly when nothing remains |
| `WhenAllStates.WhenAllState.StoreContinuation` | include/koroutine/when_all.hpp:305-307 | from here on the last wrapper will see the continuation |
| `WhenAllStates.WhenAllState.RecheckRemaining` | include/koroutine/when_all.hpp:309-315 | the re-check that closes the race: schedules if and only if nothing remains and there is a scheduler |
| `WhenAllStates.WhenAllState.AwaitResume` | include/koroutine/when_all.hpp:318-331 | the loop gives all results in index order if no task failed, else the exception of the first wrapper in the trace to record one |
| `ThreadPoolTheorems.StepKeepsInv` | include/koroutine/executors/thread_pool_executor.h:46-69 | every step of callers, workers and shutdown keeps the invariant |
| `ThreadPoolTheorems.NoTaskLost` | include/koroutine/executors/thread_pool_executor.h:53-69 | accepted tasks are the taken ones, in order and each once, followed by the queue; each taken task is being run by the worker that took it or has been run there, one of the two; a worker runs only what it took; once a worker has exited every accepted task has been taken |
| `ThreadPoolTheorems.WorkedKept` | include/koroutine/executors/thread_pool_executor.h:46-69 | every taken task is running or finished at its worker, and nothing else is: kept by every step |
| `ThreadPoolTheorems.NothingAfterExit` | include/koroutine/executors/thread_pool_executor.h:53-56 | no task is accepted after a worker has exited |
| `ThreadPoolTheorems.FrontIsThere` | include/koroutine/executors/thread_pool_executor.h:53-59 | a worker that may go on finds a task, or stop |
| `ThreadPoolTheorems.TasksAttended` | include/koroutine/executors/thread_pool_executor.h:111-122 | while a task is queued some worker is awake or a notification is still to come |
| `ThreadPoolTheorems.NobodySleepsAfterNotifyAll` | include/koroutine/executors/thread_pool_executor.h:146-151 | after notify_all no worker sleeps, now or later |
| `ThreadPoolTheorems.ShutdownIsBounded` | include/koroutine/executors/thread_pool_executor.h:141-166 | after notify_all the number of worker steps is bounded, whatever the schedule |
| `ThreadPoolTheorems.ShutdownNeverStuck` | include/koroutine/executors/thread_pool_executor.h:141-166 | until every worker has exited some step is possible |
| `ThreadPoolTheorems.AsManyWorkersAsAsked` | include/koroutine/executors/thread_pool_executor.h:34-45 | in every reachable state there are as many workers as asked for, and one if none was |
| `ThreadPoolTheorems.EveryWorkerCanMove` | include/koroutine/executors/thread_pool_executor.h:46-69 | the model leaves out no interleaving of the workers: each can take its next step as soon as lock, flag and queue allow it |
| `ThreadPoolTheorems.EveryCallerCanMove` | include/koroutine/executors/thread_pool_executor.h:111-151 | nor of callers and shutdown |
| `ThreadPoolTheorems.WakesUp` | include/koroutine/executors/thread_pool_executor.h:49-51 | a sleeper that wakes, notified or not, tests the predicate again; a notification is used up by it |
| `ThreadPoolExecutors.ThreadPoolExecutor.Submit` | include/koroutine/executors/thread_pool_executor.h:111-122 | queues the task last, with one notification to come, if and only if the pool has not been stopped |
| `ThreadPoolExecutors.ThreadPoolExecutor.AwaitWork` | include/koroutine/executors/thread_pool_executor.h:49-51 | the wait and its predicate |
| `ThreadPoolExecutors.ThreadPoolExecutor.TakeOrLeave` | include/koroutine/executors/thread_pool_executor.h:53-60 | takes the front of the queue, or leaves when stopped and empty |
| `ThreadPoolExecutors.ThreadPoolExecutor.Turn` | include/koroutine/executors/thread_pool_executor.h:46-60 | one turn of the worker loop: the task at the front if there is one, else asleep, or gone when stopped |
| `ThreadPoolExecutors.ThreadPoolExecutor.constructor` | include/koroutine/executors/thread_pool_executor.h:34-45 | a new pool: not stopped, nothing queued, all workers at the top of their loops, one even if none was asked for |
| `ThreadPoolExecutors.ThreadPoolExecutor.Return` | include/koroutine/executors/thread_pool_executor.h:61-68 | a task that has run, or thrown, leaves its worker at the top of the loop |
| `ThreadPoolExecutors.ThreadPoolExecutor.NotifyAllWorkers` | include/koroutine/executors/thread_pool_executor.h:151-151 | every sleeper is awake and nobody else is disturbed |
| `ThreadPoolExecutors.ThreadPoolExecutor.BeginShutdown` | include/koroutine/executors/thread_pool_executor.h:141-151 | the first call sets stop_, passes the lock and wakes everybody who sleeps and nobody else; a second call does nothing |
| `AsyncMutexProtocol.StepKeepsOwnership` | include/koroutine/sync/async_mutex.h:26-91 | every step keeps: one owner at most, and waiters only while it is locked |
| `AsyncMutexProtocol.StepKeepsFifo` | include/koroutine/sync/async_mutex.h:26-91 | every step keeps the order of hand-off |
| `AsyncMutexProtocol.StepKeepsTenure` | include/koroutine/sync/async_mutex.h:26-91 | every step keeps: the holders are those who became owners and have not released |
| `AsyncMutexProtocol.MutualExclusion` | include/koroutine/sync/async_mutex.h:26-91 | over every run: owners and pending hand-offs together are one if locked and none otherwise; owners release in the order they became owners, and who has not released yet is who holds it |
| `AsyncMutexProtocol.HandOffInOrder` | include/koroutine/sync/async_mutex.h:74-91 | waiters that were not destroyed become owners in the order they queued, nobody twice, with at most one hand-off under way |
| `AsyncMutexProtocol.NobodyOvertakes` | include/koroutine/sync/async_mutex.h:60-65 | while somebody waits or is being handed the mutex, try_lock fails and lock goes to the end of the queue |
| `AsyncMutexProtocol.TryLockWhenFree` | include/koroutine/sync/async_mutex.h:60-65 | in every reachable state try_lock succeeds if and only if nobody owns the mutex or is being handed it, and then owns it; it fails otherwise, and changes nothing |
| `AsyncMutexProtocol.LockOrQueue` | include/koroutine/sync/async_mutex.h:26-39 | and so does lock, which otherwise queues last |
| `AsyncMutexProtocol.DestroyedLeaves` | include/koroutine/sync/async_mutex.h:44-50 | a waiter that is destroyed leaves the queue; the others stay, in order, and nothing else changes |
| `AsyncMutexProtocol.DestroyedForGood` | include/koroutine/sync/async_mutex.h:26-91 | over every later run it never waits, is handed the mutex or owns it |
| `AsyncMutexProtocol.EveryMoveIsThere` | include/koroutine/sync/async_mutex.h:74-91 | the owner can always unlock, the waiter chosen always goes on and is then the only owner, any waiter can be destroyed |
| `AsyncMutexProtocol.NotifyNeedsFreeMutex` | include/koroutine/sync/async_mutex.h:68-71 | acquire_for_notify keeps a single owner exactly when the mutex is free; the code does not check |
| `AsyncMutexProtocol.AsyncMutex.Lock` | include/koroutine/sync/async_mutex.h:26-39 | takes the free mutex at once and owns it alone, else queues last and leaves the owner |
| `AsyncMutexProtocol.AsyncMutex.TryLock` | include/koroutine/sync/async_mutex.h:60-65 | succeeds if and only if the mutex is free, and then it is locked and owned by the caller alone; otherwise nothing changes |
| `AsyncMutexProtocol.AsyncMutex.Unlock` | include/koroutine/sync/async_mutex.h:74-91 | hands over to the front of the queue and stays locked, or frees the mutex |
| `AsyncMutexProtocol.AsyncMutex.Destroy` | include/koroutine/sync/async_mutex.h:44-50 | the queue has lost the waiter, once, and nothing else changes |

## Left out

- `MultipartRoundTrip.MultipartRoundTrip`: asks for a boundary of letters, digits, - and _, at least one item, header lines below 8192 bytes (exactly the limit, by `LineLimitIsExact`) that decode and callbacks that agree (without which `RefusesExactly` applies), and content without the delimiter; a body may have a preamble (`PreambleIsSkipped`) and lack its last CRLF but has no other epilogue: after the closing delimiter the code stays in state 4, and what it makes of more bytes depends on the fragments.
- `Chunked.WriteContentChunked`: the content provider writes one payload a call and never gives up; compression is not modelled.
- `Chunked.ParseTrailersInto`: the comparison of lines with strcmp stops at a NUL in the code and not here.
- `FormItems.FormComesBack`: speaks of the items; of the map of all header lines that FormData also has, a list in the model, only `EveryLineIsKept` speaks.
- `PartHeaders.ReadPartHeader`: the two regular expressions are written out as what they match on lines that parse_header has let through, in the classic locale; find on the multimap of parameters is taken to give the first of equal keys, as the common libraries do.
- `PathCoding.FromHexToI`: a read past the end of the text, which the first digit missing always prevents.
- `Streams.OutStream.WriteData`: a stream that transfers nothing for ever, for which the loop of the code would not end.
- `RangeRequests.Request.RangeError`: unbounded integers; for ends within one content length of -2^63 the subtraction of the code would overflow.
- `RangeRequests.Request.CoalesceRanges`: std::sort stands as its contract, any order among equal starts; the sort written out in the model is one that meets it.
- `RangeRequests.Serve`: the text around the slices of a multipart/byteranges answer, which only concatenates.
- `PathParamsMatchers.PathParamsMatcher.Match`: what a failed match leaves in path_params (the next matcher clears it).
- `PathParamsMatchers.PathParamsMatcher.Init`: the build without exceptions, where a repeated name is not an error.
- `PercentCoding.EncodeQueryComponent`: std::isalnum in the "C" locale.
- `Splitting.Split`: the forms with a maximal count or a terminating NUL.
- `ChannelTheorems.Conservation`: ends with the clean-up; a waiter resumed but not yet run when the channel closes throws, and its value is gone. A negative capacity, which the comparison turns into a very large one, is not modelled.
- `ChannelTheorems.WhenEmptyNobodyWrites`: the timing of close_when_empty, whose look and close are two locked sections.
- `WhenAllTheorems.NoLostWakeUp`: the mutex around result and decrement is not modelled; dropping it allows more interleavings, and so covers the variadic form too. An exception out of the scheduler itself, which the code would count as a second completion, is excluded.
- `ThreadPoolTheorems.NoTaskLost`: plain tasks; the timer thread and delayed tasks, which a stopped pool drops, are not modelled.
- `ThreadPoolTheorems.ShutdownIsBounded`: fairness of the operating system is not modelled; with it, a bounded number of steps and never being stuck mean that join returns.
- `AsyncMutexProtocol.NotifyNeedsFreeMutex`: the rest of AsyncConditionVariable, for which mutual exclusion does not hold as written.
- Coroutine frame lifetime, weak memory ordering and clock time.
- Sockets, name resolution, event engines, files, TLS, compressors.
- Redirects, Accept parsing with floating point.
- when_any, TimerScheduler, LooperExecutor, cancellation, TaskManager, Generator, logging.
