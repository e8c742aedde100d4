# ASIOLibs in Dafny

A model of the byte-level and scheduling engines of this library, with proofs.

- **HTTP chunked decoding** (`ChunkedMachine`, `ChunkedDecoder`, `ChunkedGrammar`). The decoder of `src/picohttpparser.c`
  rewrites its buffer in place and keeps its state between calls. It is modelled as a class over an array and proved
  equal to a machine that looks at one byte at a time; the machine is independent of how its input is cut, it
  completes on exactly the messages of a grammar, and it rejects exactly what cannot become one.
- **HTTP parsing** (`HttpScan`, `HttpVector`, `HttpParse`, `HttpParser`, `HttpGrammar`, `HttpReject`, `HttpOuts`,
  `HttpResume`, `HttpWait`). Requests, responses and header blocks: `HttpParse` defines them as functions of the buffer,
  `HttpScan` and `HttpParser` are the program's loops, proved equal to those functions, `HttpVector` holds the loops of a
  build with SSE 4.2. The functions succeed on exactly the texts of a grammar, with exactly its slices, and reject exactly
  the buffers that no further bytes can save. Verdicts are stable under more input, and the shortcut for resuming a partial
  parse loses no request and no response.
- **HTTP printing** (`HttpPrint`, `HttpReply`, `HttpClient`, `HttpHeaders`). The request texts of `src/http_conn.cpp` are
  read back by the parser exactly when their parts are well formed; response headers are found by bisection exactly when
  they are there.
- **HTTP bodies** (`HttpBody`). Reading, preloading, streaming through a callback and splicing through a pipe, all over one
  read buffer and one counter: no byte is lost, invented or reordered, and no operation fails unless a read, a write or a
  result of `splice` does.
- **IProto** (`IprotoBer`, `IprotoCodec`, `IprotoPacket`, `IprotoFraming`, `IprotoTable`, `IprotoConn`, `IprotoRun`). Packing
  into a buffer that grows, unpacking, cutting a stream into packets, and the table of callbacks that responses, timers and
  dismissals empty in any interleaving; together, packed answers in any fragmentation, among any events of other requests,
  reach their callbacks and unpack to their values.
- **Coroutine pool** (`CoroutinePool`) and **write queue** (`WriteBuffer`), as step systems between yield points, each with the
  class whose methods are its steps.

`Bytes` holds octets, machine words and a few sequence operations. A class or a method follows the program's loops and
field updates, and its contract ties it to a function or a step; the lemmas are about those. The standards behind the
formats are section 4.1 of RFC 7230 (chunked coding) and section 3 of RFC 7230 (message format). Characters are signed, as in
the scalar build on x86.

Some promises do not hold as they stand. For each of them there is a concrete case, and a theorem that says, for all inputs
or runs, exactly when it holds:

- a resumed parse of a bare header block misses the empty block (`HttpResume.ResumeEmptyHeadersFails`; exactly when:
  `HttpWait.ResumedHeaders`, and over a whole conversation `HttpWait.FedHeaders` with `HttpWait.BlockFoundFromStart`);
- a resumed parse may wait on a message that a parse from the start rejects (`HttpWait.BadRequestLooksPartial`; exactly when:
  `HttpWait.ResumedRequest` and `HttpWait.FedRequest`, with `HttpWait.NoticedFromStart` for what that comes to);
- the two builds differ on header names with bytes from 128 up, and the vectorised scan may reject what it accepts once more
  bytes are there (`HttpVector.VectorNameUnstable` shows both; exactly when the builds agree: `HttpVector.NameScansAgree`;
  exactly when the vectorised scan is stable: `HttpVector.VectorNameStableExactly`);
- a request that reuses the sync of a pending callback loses that callback (`IprotoTable.OverwriteLoses`; exactly when none is
  lost: `IprotoTable.KeptExactly` and `IprotoTable.NothingLost`);
- a shutdown of the write queue during a write can tell a callback of another entry's write (`WriteBuffer.ShutdownDuringWrite`;
  exactly when each is told of its own: `WriteBuffer.SettlesOwnExactly` for one step and `WriteBuffer.OwnExactly` over a run;
  `WriteBuffer.ExecExactly` is about the stricter invariant of one write at a time);
- a timer can time out another request, which uses the sync of its own again (`IprotoTable.StaleTimerHits`; exactly when:
  `IprotoTable.StaleExactly` for one step and `IprotoTable.OwnTimeoutsExactly` over a run; never with distinct syncs:
  `IprotoTable.FreshNeverStale`);
- the length check of the unpacker is late by one header, so that a value that is not there may be read instead of reported
  (`IprotoCodec.EmptyPacketRead`; exactly when: `IprotoCodec.UnpackOneExactly`, `IprotoCodec.UnpackAllExactly` and
  `IprotoCodec.NumbersExactly`);
- a pool without workers starts nothing (`CoroutinePool.EmptyPoolStarves`; exactly when everything can start: `CoroutinePool.StartsAllExactly`).

Where the code and its documents differ, the model follows the code. Its token table accepts a double quote, which is no
token character in section 3.2.6 of RFC 7230. Its chunked grammar is wider than section 4.1: an extension is anything
without an LF, and any number of CRs may precede the LF behind chunk data and in front of trailers. The branch of
`ReadAnswer` for a partial head (`src/http_conn.cpp:294`) is dead (`HttpResume.AnswerHeadDecided`).

## Model

| member | source | states |
|---|---|---|
| ChunkedMachine.HexExactly | src/picohttpparser.c:466-477 | a hexadecimal digit of either case is worth its place in the alphabet, and nothing else is a digit |
| ChunkedMachine.RunSplit | lib/picohttpparser.h:68-77 | for every decoder state and every cut, one call on the whole input is a call on the front resumed with the rest: same fields, output, verdict and tail |
| ChunkedMachine.FragmentationIndependent | lib/picohttpparser.h:68-77 | feeding any list of pieces, empty ones included, leaves what one call on their concatenation leaves |
| ChunkedMachine.VerdictIsFinal | src/picohttpparser.c:585-591 | after completion or an error on a prefix, further bytes only lengthen the tail |
| ChunkedMachine.RunConsumes | src/picohttpparser.c:484-591 | the tail is a suffix of the input and the output no longer than the rest; incomplete means that everything was consumed, complete that at least a byte was |
| ChunkedMachine.DataPhase | src/picohttpparser.c:527-543 | chunk data in bulk does what it does byte by byte: it uses up the input or finishes the chunk |
| ChunkedMachine.AddDigitExact | src/picohttpparser.c:498-503 | under the sixteen-digit limit the size never wraps around `size_t`, and stays below 16 to the number of its digits |
| ChunkedMachine.RunReachable | src/picohttpparser.c:486-543 | every run from a zero-filled decoder keeps the bound on a size being read and the counters at zero where they must be |
| ChunkedDecoder.Decoder.Decode | src/picohttpparser.c:479-592 | the in-place decoder refines the byte machine: fields and length are the machine's, the return code is -2 exactly when it wants more, and then all is used up, -1 exactly on an error, and otherwise the number of bytes behind the message; the buffer is the decoded bytes, then the unconsumed ones, then what lay behind, untouched |
| ChunkedDecoder.Decoder.Phases | src/picohttpparser.c:484-584 | the loop over the phases ends with the outcome of the machine, decoded bytes in front and the unread ones where they were |
| ChunkedDecoder.Decoder.ReadSize | src/picohttpparser.c:487-506 | the digit loop: it passes the size to the extension phase, or stops on lack of input, on no digit or on a seventeenth |
| ChunkedDecoder.Decoder.SkipExt | src/picohttpparser.c:510-525 | the extension loop, and the decision between data, trailers and completion |
| ChunkedDecoder.Decoder.MoveData | src/picohttpparser.c:527-543 | a bulk move extends the output by the bytes the machine would put out and overwrites no unread byte |
| ChunkedDecoder.Decoder.ExpectCrlf | src/picohttpparser.c:546-558 | the line end after chunk data: any CRs, then an LF, and an error on anything else |
| ChunkedDecoder.Decoder.TrailerHead | src/picohttpparser.c:560-568 | the start of a trailer line, and completion on an empty one |
| ChunkedDecoder.Decoder.TrailerMiddle | src/picohttpparser.c:571-579 | the rest of a trailer line |
| ChunkedDecoder.Decoder.Compact | src/picohttpparser.c:588-590 | the common exit closes the unconsumed bytes up to the decoded ones and touches nothing behind them |
| Bytes.MoveDown | src/picohttpparser.c:588-589 | `memmove` towards the front: the whole buffer afterwards |
| ChunkedGrammar.RunDigits | src/picohttpparser.c:487-504 | up to sixteen digits are read to the number they stand for, wherever the reading is interrupted |
| ChunkedGrammar.TooManyDigits | src/picohttpparser.c:498-501 | a seventeenth digit is an error |
| ChunkedGrammar.DecodeEncoded | src/picohttpparser.c:479-592 | round trip: any message of the decoder's grammar, followed by anything, decodes to its payload with exactly what follows as the tail |
| ChunkedGrammar.ParseMessage | src/picohttpparser.c:479-592 | the converse: whatever the decoder completes on is such a message, and the output is its payload |
| ChunkedGrammar.CompletesExactlyOnMessages | src/picohttpparser.c:479-592 | completion with a payload and a tail, if and only if the input is a message with that payload followed by that tail |
| ChunkedGrammar.MalformedExactly | src/picohttpparser.c:479-592 | an input is an error if and only if no way of going on makes it a message, and incomplete if and only if it is none yet but some way of going on does |
| ChunkedGrammar.DecodeStrict | src/picohttpparser.c:479-592 | round trip for the messages of section 4.1 of RFC 7230, with trailers consumed or left to the caller |
| HttpScan.TokenFound | src/picohttpparser.c:70-93 | a token is found at a position if and only if a space is there and no space, control character or DEL before it |
| HttpScan.TextFound | src/picohttpparser.c:128-193 | a text is found if and only if CR LF or LF follows bytes none of which is a control character other than HT, or DEL |
| HttpScan.NameFound | src/picohttpparser.c:286-300 | a name is found if and only if a colon follows 7-bit bytes from the space up, none of which is a colon |
| HttpScan.GetTokenToEol | src/picohttpparser.c:145-193 | the eight-way unrolled loop and the byte loop give the slice and the verdict of the one-byte scan, on every buffer |
| HttpScan.FoundCtl | src/picohttpparser.c:178-192 | the line end and the three verdicts at it |
| HttpScan.AdvanceToken | src/picohttpparser.c:70-93 | the token loop of the scalar build gives the slice and the verdict of the one-byte scan |
| HttpScan.FinishName | src/picohttpparser.c:290-299 | the name loop gives the verdict of the one-byte scan, with bytes from 128 up rejected |
| HttpVector.CompareRanges | src/picohttpparser.c:113-114 | the block comparison: the least index of a byte in a range, or sixteen |
| HttpVector.FindCharFast | src/picohttpparser.c:104-126 | the first byte in a range if it lies in a block of sixteen, and else the end of the last block |
| HttpVector.AdvanceTokenVector | src/picohttpparser.c:70-93 | the vectorised token scan equals the one-byte scan on every buffer |
| HttpVector.GetTokenToEolVector | src/picohttpparser.c:132-193 | the vectorised text scan equals the one-byte scan on every buffer |
| HttpVector.NameVector | src/picohttpparser.c:284-300 | the vectorised name scan is the byte loop started at the end of the blocks or on the byte that stopped them |
| HttpVector.NameScansAgree | src/picohttpparser.c:284-299 | the two builds agree on a name if and only if the bytes that the blocks pass over are 7-bit, or a byte from 128 up lies behind them, or the name ends on a control character |
| HttpVector.VectorNameExtends | src/picohttpparser.c:284-299 | whatever the scalar build accepts or waits for, the vectorised build treats alike |
| HttpVector.VectorNameStableExactly | src/picohttpparser.c:284-299 | for every buffer and every extension of it: the vectorised verdict is stable if and only if the bytes left to the byte loop are 7-bit, or the extension is rejected too, for a byte from 128 up behind its blocks or for the control character its name ends on |
| HttpVector.VectorNameUnstable | src/picohttpparser.c:284-299 | a name that the vectorised build rejects with eight bytes there and accepts with sixteen, while the scalar build rejects it |
| HttpVector.VectorHeadersAgree | src/picohttpparser.c:259-317 | the vectorised parse of a header block is the scalar one wherever that accepts or waits, and also where it rejects, if the builds agree on the bytes of every header name it comes to |
| HttpVector.VectorRequestAgrees | src/picohttpparser.c:319-351 | the same for the whole parse of a request |
| HttpVector.VectorResponseAgrees | src/picohttpparser.c:381-408 | the same for the whole parse of a response |
| HttpVector.SevenBitSame | src/picohttpparser.c:319-408 | on buffers of 7-bit bytes the two builds parse alike, rejections included |
| HttpParse.RequestStable | src/picohttpparser.c:319-351 | a success or a rejection of a buffer is that of every extension; a request found in an extension reaches beyond every partial prefix |
| HttpParse.ResponseStable | src/picohttpparser.c:381-408 | the same for responses |
| HttpParse.HeadersStable | src/picohttpparser.c:259-317 | the same for header blocks, from any position and header count |
| HttpParse.RequestLocal | src/picohttpparser.c:319-379 | the bytes consumed decide: alone or with anything behind them they parse to the same request and count |
| HttpParse.ResponseLocal | src/picohttpparser.c:381-434 | the same for responses |
| HttpParse.HeadersLocal | src/picohttpparser.c:436-455 | the same for header blocks |
| HttpParse.RequestNeedsAll | src/picohttpparser.c:57-68 | every proper prefix of the bytes consumed is partial |
| HttpParse.ResponseNeedsAll | src/picohttpparser.c:57-68 | the same for responses |
| HttpParse.HeadersNeedAll | src/picohttpparser.c:57-68 | the same for header blocks |
| HttpGrammar.LineExactly | src/picohttpparser.c:276-314 | one header line is parsed to a header if and only if the grammar has it there: a name, a colon and a value without its leading blanks, or, behind another header, a value alone with them |
| HttpGrammar.HeadersExactly | src/picohttpparser.c:259-317 | a header block is parsed to these headers and this end if and only if their lines and an empty line are there and there is room |
| HttpGrammar.RequestExactly | src/picohttpparser.c:319-351 | a buffer parses as a request, with these slices, version, headers and length, if and only if the grammar has it there and there is room |
| HttpGrammar.ResponseExactly | src/picohttpparser.c:381-408 | the same for responses |
| HttpReject.RequestRejectsExactly | src/picohttpparser.c:57-68 | a buffer is rejected if and only if no extension of it is a request; it is partial if and only if it is none yet and some extension is one |
| HttpReject.ResponseRejectsExactly | src/picohttpparser.c:57-68 | the same for responses |
| HttpReject.HeadersRejectExactly | src/picohttpparser.c:57-68 | the same for header blocks, from any line on |
| HttpParser.ParseInt | src/picohttpparser.c:224-244 | the digit loop gives the number, the position and the verdict of the specification |
| HttpParser.NoOverflowExactly | src/picohttpparser.c:232-240 | the loop stays within `int` at every step if and only if the number is at most `INT_MAX - 48`; then the number of the model is that of the program |
| HttpParser.ParseHttpVersion | src/picohttpparser.c:247-257 | the seven expected characters and the number |
| HttpParser.ParseName | src/picohttpparser.c:277-307 | a header name, its colon and the blanks behind it |
| HttpParser.ParseLine | src/picohttpparser.c:276-314 | one header line goes into its slot, and no other slot changes, whatever the verdict |
| HttpParser.ParseHeaders | src/picohttpparser.c:259-317 | the header loop fills the array with the headers read, in order, on failure too, and leaves the slots behind the one it was filling as they were; it never passes the limit |
| HttpParser.HeadersReadAll | src/picohttpparser.c:259-317 | the headers read by a parse that succeeds are all its headers |
| HttpParser.CheckComplete | src/picohttpparser.c:195-221 | the loop of the resumption check |
| HttpParser.PhrParseRequest | src/picohttpparser.c:353-379 | the return code is -2 exactly for a partial request, -1 exactly for a bad one, and else the number of bytes consumed; slices, version and header array of a request, resumed or not, and on failure everything that was read before it: tokens, version and headers, or nothing if the check stopped the parse |
| HttpParser.PhrParseResponse | src/picohttpparser.c:410-434 | the same for a response: code, version, status, message and headers |
| HttpParser.PhrParseHeaders | src/picohttpparser.c:436-455 | the same for a header block, resumed or not: code and header array, on failure too |
| HttpOuts.TokenSet | src/picohttpparser.c:70-93 | whatever the verdict, the method is set if and only if its token is there, and to that token |
| HttpOuts.PathIsSet | src/picohttpparser.c:333-336 | the path likewise, behind the method |
| HttpOuts.TailIsSet | src/picohttpparser.c:337-351 | version and headers likewise: -1 if there is no version, and the header lines up to the first place without one, or to the limit |
| HttpOuts.LinesSet | src/picohttpparser.c:259-317 | the headers read, on failure too, are the header lines that are there |
| HttpResume.CompleteExactly | src/picohttpparser.c:195-221 | the check succeeds if and only if a blank line lies ahead with no stray CR before its end |
| HttpResume.RequestClean | src/picohttpparser.c:319-351 | a parsed request holds no CR without its LF, and ends in a blank line |
| HttpResume.ResponseClean | src/picohttpparser.c:381-408 | the same for responses |
| HttpResume.HeadersClean | src/picohttpparser.c:259-317 | the same for header blocks that have a header or follow a line, and what an empty block is |
| HttpResume.ResumeRequest | src/picohttpparser.c:367-371 | a request that was partial and is now whole is found by the resumed parse |
| HttpResume.ResumeResponse | src/picohttpparser.c:423-427 | the same for responses |
| HttpResume.ResumeHeadersExactly | src/picohttpparser.c:444-448 | a header block is found by the resumed parse if and only if it does not start with a CR, or a blank line follows further on |
| HttpResume.ResumeEmptyHeadersFails | src/picohttpparser.c:444-448 | the empty block that arrives as CR, then LF, and is never found |
| HttpResume.AnswerHeadDecided | src/http_conn.cpp:292-295 | a head that ends in CR LF CR LF is never partial, so the branch for -2 is dead |
| HttpResume.RequestEnds | src/picohttpparser.c:319-351 | a buffer that ends in any blank line is never a partial request |
| HttpResume.ResponseEnds | src/picohttpparser.c:381-408 | the same for responses |
| HttpResume.HeadersEnd | src/picohttpparser.c:259-317 | the same for header blocks, from any line on |
| HttpWait.WaitsExactly | src/picohttpparser.c:195-221 | the check waits if and only if there is neither a stray CR nor a blank line ahead |
| HttpWait.RejectsExactly | src/picohttpparser.c:195-221 | the check rejects if and only if there is a stray CR ahead with no blank line before it |
| HttpWait.RequestWaits | src/picohttpparser.c:319-351 | a buffer that parses as partial holds no stray CR and no blank line |
| HttpWait.ResponseWaits | src/picohttpparser.c:381-408 | the same for responses |
| HttpWait.BlockWaits | src/picohttpparser.c:259-317 | the same for header blocks |
| HttpWait.ResumedRequest | src/picohttpparser.c:353-379 | if what was seen is no request yet, the resumed verdict is the verdict from the start, if and only if that is no rejection, or nothing had been seen, or there is a stray CR or a blank line from three bytes before the end of what was seen on; if not, it waits |
| HttpWait.ResumedResponse | src/picohttpparser.c:410-434 | the same for responses |
| HttpWait.ResumedHeaders | src/picohttpparser.c:436-455 | the same for header blocks, but that a block that starts with a CR is found only if a clean blank line follows |
| HttpWait.BadRequestLooksPartial | src/picohttpparser.c:367-371 | a bad request that does count as partial |
| HttpWait.FedRequest | src/picohttpparser.c:353-379 | over a whole conversation, however the buffer grows, resumed parsing gives what one parse of all bytes gives, if and only if that is no rejection or some look notices; if not, it waits |
| HttpWait.FedResponse | src/picohttpparser.c:410-434 | the same for responses |
| HttpWait.FedHeaders | src/picohttpparser.c:436-455 | the same for header blocks, where a block that starts with a CR has to be found; a rejected block that no look notices is waited for |
| HttpWait.BlockFoundExactly | src/picohttpparser.c:444-448 | once something had been seen, such a block is found, however the buffer is cut, if and only if a clean blank line lies from three bytes before that on |
| HttpWait.BlockFoundFromStart | src/picohttpparser.c:444-448 | from the start it is found if and only if the first look sees its two bytes or there is a clean blank line further on |
| HttpWait.WaitingSplits | src/picohttpparser.c:198 | rechecking three bytes is enough: no stray CR and no blank line falls between two looks |
| HttpWait.NoticedExactly | src/picohttpparser.c:195-221 | what the checks of a conversation notice does not depend on the cuts: it is what one check of the whole buffer would notice |
| HttpWait.NoticedFromStart | src/picohttpparser.c:367-371 | a bad message is noticed if and only if the first look rejects it, or a later one comes and there is a stray CR or a blank line from three bytes before the end of the first look on |
| HttpPrint.PrintThenParse | src/http_conn.cpp:158-163 | a printed request with well-formed parts, followed by anything, is read back to its command, path, minor version 1 and field list, consuming exactly its text |
| HttpPrint.ReadsBackExactly | src/http_conn.cpp:158-163 | it is read back so if and only if command, path, names and values are well formed and there is room for the headers |
| HttpPrint.EmptyLineSkippedExactly | src/picohttpparser.c:323-330 | with an empty line of either kind in front, which is consumed too, a printed request is read back under the same condition |
| HttpPrint.SecondEmptyLineRejected | src/picohttpparser.c:323-330 | a second empty line is an error |
| HttpPrint.ReadBackWellFormed | src/picohttpparser.c:319-351 | parts that are read back from any text are well formed and not too many |
| HttpPrint.FieldsRead | src/picohttpparser.c:259-317 | a printed block of fields, with either line end, is read back field by field |
| HttpPrint.RequestParsed | src/picohttpparser.c:319-351 | whatever the parser returns lies within the buffer and is well formed, for every input |
| HttpPrint.HeadersParsed | src/picohttpparser.c:259-317 | the same for headers, and there are no more of them than allowed |
| HttpPrint.DecimalReadsBack | src/picohttpparser.c:224-244 | a printed number is scanned to the number, whatever stands behind it |
| HttpReply.ReplyReadsBackExactly | src/picohttpparser.c:381-408 | a printed response, with either line end, is read back to version, status, message and fields if and only if its parts are well formed and there is room |
| HttpReply.PrintThenParseReply | src/picohttpparser.c:381-408 | the direction from well-formed parts, consuming exactly the text |
| HttpClient.InsertSorted | src/http_conn.cpp:148-153 | assignment to the header map keeps its order, which is the order of printing, and brings in no other field |
| HttpClient.InsertLookup | lib/http_conn.hpp:81-84 | it changes the value of its key and of no other |
| HttpClient.Conn.constructor | src/http_conn.cpp:68-75 | the two default headers and no others, and a cache that is marked stale |
| HttpClient.Conn.SetHeader | lib/http_conn.hpp:81-84 | writing a header through the map keeps the cache honest |
| HttpClient.Conn.HeadersCacheCheck | src/http_conn.cpp:144-156 | afterwards the cache is the printed map, whether it was rebuilt or not |
| HttpClient.Conn.SimpleRequest | src/http_conn.cpp:158-163 | the request text, or the exception beyond 4095 bytes |
| HttpClient.Conn.MoveRequest | src/http_conn.cpp:173-179 | the text of a MOVE request, or the exception |
| HttpClient.Conn.PostRequest | src/http_conn.cpp:181-184 | the text of a request with a body, or the exception |
| HttpClient.SimpleReadsBack | src/http_conn.cpp:158-163 | whatever its parts hold, a request is sent and read back as what was asked for if and only if they are well formed and the text fits |
| HttpClient.MoveReadsBack | src/http_conn.cpp:173-179 | a MOVE request is sent and read back, destination and flag in front of the headers, if and only if all its parts are well formed, there is room for two headers more, and it fits |
| HttpClient.PostReadsBack | src/http_conn.cpp:472-481 | a request with a body is sent and read back, its length in front in digits that scan to it, if and only if its parts are well formed, there is room for one header more, and it fits |
| HttpHeaders.LowerBound | src/http_conn.cpp:585-586 | the bisection ends between the pairs below the key and the others |
| HttpHeaders.GetHeader | src/http_conn.cpp:585-590 | a header is found if and only if there is one of that name, and then it is the least of its values |
| Bytes.LessExactly | src/http_conn.cpp:585-590 | the order of names and values: the first byte that differs decides, and a proper prefix is smaller |
| HttpHeaders.FoundExactly | src/http_conn.cpp:297-310 | a name is found if and only if it is the upper-case form of the name of a received field |
| HttpHeaders.FoundInAnyCase | src/http_conn.cpp:297-310 | a name is found if and only if it has no lower-case letter and equals the name of a received field but for the case of letters |
| HttpHeaders.PrintedIsFound | src/http_conn.cpp:292-310 | a response as a server prints it, parsed and collected: the list holds its fields, and a name is found if and only if it is the upper-case form of one of their names |
| HttpHeaders.LowerCaseNeverFound | src/http_conn.cpp:299-310 | a name with a lower-case letter is never found |
| HttpBody.StartBody | src/http_conn.cpp:312-334 | the counters after the head, the assertion that trips exactly when more arrived than was announced, and the body if it is to be read; it fails exactly when a read does, and reads only if a body is to be read and not all there |
| HttpBody.Transfer.ReadBody | src/http_conn.cpp:318-331 | on success the buffer holds exactly the announced bytes; it fails exactly when a read does, no read asks for more than the limit, nothing owed means no read, and on a failed read nothing is lost |
| HttpBody.Transfer.PreloadBytes | src/http_conn.cpp:336-353 | the buffer only grows, to exactly the count asked for, or to all that is owed; there is one read, for just what is missing, or none if the count is there, and the call fails exactly when that read does |
| HttpBody.Transfer.DrainRead | src/http_conn.cpp:577-583 | it returns and removes all that is buffered |
| HttpBody.Transfer.Serve | src/http_conn.cpp:361-374 | one pass over a buffer, for every callback: offered and consumed as far as taken, or dropped after a refusal |
| HttpBody.Transfer.StreamReadData | src/http_conn.cpp:355-390 | every callback, whatever it decides by, sees the body in order: first all that was buffered, then what it left of a chunk, or else one bounded read, until it takes nothing; accepted, dropped, buffered and unread bytes are the body; it ends drained, or, with draining disabled, with the refused chunk first in the buffer; it fails exactly when a read does |
| HttpBody.Transfer.FillPipe | src/http_conn.cpp:419-442 | the loop into the pipe conserves the bytes and the counters for every sequence of results; it fails exactly on a result that breaks, or when the server has closed too early, stops at the first one that would block, goes on after an interruption, and never reads into a pipe that holds the limit |
| HttpBody.Transfer.EmptyPipe | src/http_conn.cpp:446-465 | the loop out of the pipe does too: it moves what the results say, fails exactly on a result that breaks, and gives up on one that would block exactly if the pipe then holds less than is owed |
| HttpBody.Transfer.SpliceLoop | src/http_conn.cpp:415-467 | receiver, pipe and connection together are the rest of the body; a normal end means nothing owed and an empty pipe, so the assertion holds; of the results used only the last may break, and there is no error without one, or without a server that sends too little |
| HttpBody.Transfer.StreamSpliceData | src/http_conn.cpp:392-470 | the same with the buffered part in front and a failing plain write; a normal return means that the receiver has exactly the rest of the body; it fails only if the plain write does, a result that it used breaks, or the server sends less than it owes |
| IprotoBer.Ber | src/iproto.cpp:69-82 | a size takes one to five bytes |
| IprotoBer.DecodeBer | src/iproto.cpp:69-82 | a base-128 decoder maps the code back to the size and leaves what follows |
| IprotoBer.BerMinimal | src/iproto.cpp:69-82 | no shorter code decodes to the same size |
| IprotoBer.BerPrefixFree | src/iproto.cpp:69-82 | no code is a prefix of another |
| IprotoBer.DecodeBerAll | src/iproto.cpp:69-82 | a list of codes decodes to the list of sizes |
| IprotoCodec.PackUnpack | lib/iproto.hpp:108-157 | the leading values of a packed packet unpack to themselves by their types, with exactly the bytes of the others left by `BytesLeft`; neither the header field nor spare memory matters, so a reset packet unpacks like a fresh one |
| IprotoCodec.PackUnpackMeant | src/iproto.cpp:99-113 | the same in the callers' terms: a `char *` comes back as the string before its NUL, whatever lies behind it, and every string up to its 32-bit size |
| Bytes.Terminated | src/iproto.cpp:101 | what `strlen` sees of memory that holds a string, its NUL and anything behind it is that string |
| IprotoCodec.BerPackUnpack | src/iproto.cpp:84-113 | packed with the BER flag, values are read back by a reader that decodes the sizes base 128, and leave what follows |
| IprotoCodec.UnpackSplit | lib/iproto.hpp:108-119 | several calls equal one combined call, on every packet in every state |
| IprotoCodec.UnpackAllSplit | lib/iproto.hpp:89-106 | the recursion over the types may be split anywhere, failures included |
| IprotoCodec.WireHeader | lib/iproto.hpp:154-155 | the header in memory is read back to command, length and sync |
| Bytes.LittleEndian | src/iproto.cpp:57-65 | a word is packed with its least significant byte first |
| IprotoCodec.UnpackOneExactly | src/iproto.cpp:126-152 | a value of a received packet is read if and only if it ends within the memory; one that does not is reported if and only if its end, computed as the check computes it, lies more than a header behind the memory or wrapped around in front of the payload; and otherwise it is read from outside |
| IprotoCodec.UnpackOneBounds | src/iproto.cpp:128 | without a wrap-around the check is late by exactly one header |
| IprotoCodec.UnpackAllExactly | lib/iproto.hpp:89-106 | for a list of values, the first that does not fit decides in the same way |
| IprotoCodec.NumbersExactly | lib/iproto.hpp:108-119 | numbers of a whole received packet are never reported missing: they are read outside the memory if and only if they need more bytes than the payload has |
| IprotoCodec.EmptyPacketRead | src/iproto.cpp:127-131 | a number unpacked from an empty packet is read outside the memory |
| IprotoPacket.Packet.ForPacking | lib/iproto.hpp:148-151 | an empty packet whose cursor field holds the capacity |
| IprotoPacket.Packet.FromWire | src/iproto.cpp:10-15 | a copy of header and payload, and no byte more |
| IprotoPacket.Packet.Reserve | src/iproto.cpp:59-62 | room is made without wrap-around or loss, and a grown capacity is at most three times the new length |
| IprotoPacket.Packet.Append | src/iproto.cpp:57-65 | the bytes are appended and counted, within the capacity |
| IprotoPacket.Packet.PackBersize | src/iproto.cpp:69-82 | the nested tests append the code of the size |
| IprotoPacket.Packet.PackString | src/iproto.cpp:84-113 | a string is its size, in either form, and its bytes; the 32-bit size is modelled |
| IprotoPacket.Packet.PackValue | src/iproto.cpp:57-123 | every kind of argument appends its encoding |
| IprotoPacket.Packet.PackAll | lib/iproto.hpp:129-143 | the arguments are appended in order, and the capacity stays bounded |
| IprotoPacket.Packet.FinishPacking | lib/iproto.hpp:153-155 | the raw header is written in front of the payload, and the fields get their normal meaning |
| IprotoPacket.Packer | lib/iproto.hpp:145-157 | the memory starts with the packet as it goes over the wire, and its size is at most the initial capacity or three times the packet |
| IprotoPacket.Packet.Reset | lib/iproto.hpp:48-51 | the cursor is at the start again and the header is the one in memory |
| IprotoPacket.Packet.BytesLeft | lib/iproto.hpp:52-54 | the cursor and the bytes left make up the length |
| IprotoPacket.Packet.UnpackString | src/iproto.cpp:136-146 | a string is taken by its size, with the two length checks as they are |
| IprotoPacket.Packet.UnpackValue | src/iproto.cpp:126-152 | every kind of value is taken off the cursor, or the mismatch is reported |
| IprotoPacket.Packet.Unpacker | lib/iproto.hpp:108-119 | the first call sets up from memory, and the values, the cursor and the length are those of the specification |
| IprotoFraming.CutConserves | src/iproto_conn.cpp:143-160 | packets delivered and residue are the bytes received; every packet is whole, the residue is none |
| IprotoFraming.CutExactly | src/iproto_conn.cpp:143-160 | the cutting is the only way to divide the bytes into whole packets and an incomplete rest |
| IprotoFraming.CutResumes | src/iproto_conn.cpp:130-164 | cutting may stop anywhere and go on with the residue |
| IprotoFraming.CutPackets | src/iproto_conn.cpp:143-160 | whole packets in front of anything are delivered one by one |
| IprotoFraming.WantIsCovered | src/iproto_conn.cpp:153-163 | the reader never asks for more than the packet it is in still has |
| IprotoFraming.WantIsProgress | src/iproto_conn.cpp:148-163 | a read that honours the minimum completes a header or delivers a packet |
| IprotoTable.StepInv | src/iproto_conn.cpp:212-270 | every event keeps this: each registration is pending, posted once or overwritten, never two of these, and a success carries a packet with its own sync |
| IprotoTable.ExecInv | src/iproto_conn.cpp:212-270 | so does every interleaving of requests, responses, timers and dismissals |
| IprotoTable.NothingLost | src/iproto_conn.cpp:212-221 | the registered callbacks are the disjoint union of those pending and those posted, each exactly once, if and only if no request reuses the sync of a callback that is pending |
| IprotoTable.KeptExactly | src/iproto_conn.cpp:219 | from any table, over any run: every callback ends pending or posted if and only if it was so at the start and no request replaces a pending callback |
| IprotoTable.OverwriteLoses | src/iproto_conn.cpp:219 | a callback that is neither pending nor posted, because its sync was used again |
| IprotoTable.DismissEmpties | src/iproto_conn.cpp:99-107 | a dismissal leaves nothing pending and posts every callback that was, with an error |
| IprotoTable.LateHasNoEffect | src/iproto_conn.cpp:238-251 | with fresh syncs, whatever comes late for a settled request changes nothing |
| IprotoTable.StaleExactly | src/iproto_conn.cpp:238-244 | a timer leaves all other registrations pending if and only if its sync is not pending for another one |
| IprotoTable.OwnTimeoutsExactly | src/iproto_conn.cpp:238-270 | from any table, over any run, every callback timed out was timed out by its own timer if and only if it was so at the start and no timer fired while its sync was pending for another callback |
| IprotoTable.FreshNeverStale | src/iproto_conn.cpp:212-251 | if the syncs of a run are distinct, no timer in it is stale, and every callback timed out was timed out by its own |
| IprotoTable.StaleTimerHits | src/iproto_conn.cpp:238-244 | without them, an earlier timer times out a later request |
| IprotoConn.Conn.Write | src/iproto_conn.cpp:212-221 | a request is registered, and an entry with its sync replaced |
| IprotoConn.Conn.InvokeCallback | src/iproto_conn.cpp:245-270 | the entry goes, and its callback, if there is one, is posted |
| IprotoConn.Conn.OnTimeout | src/iproto_conn.cpp:238-244 | a timer that was not cancelled times out whatever is pending under its sync |
| IprotoConn.Conn.DismissCallbacks | src/iproto_conn.cpp:99-107 | the loop meets every entry once and empties the map |
| IprotoConn.Conn.OnRead | src/iproto_conn.cpp:139-164 | the loop delivers the packets of the cutting in order, keeps the residue and asks for what is missing; it terminates, with every pass consuming a header at least |
| IprotoConn.Conn.OnReadError | src/iproto_conn.cpp:131-138 | a read error dismisses every callback and gives up the buffer |
| IprotoConn.ReadsJoin | src/iproto_conn.cpp:130-164 | reads of any pieces do what one read of their concatenation would do |
| IprotoConn.AnswersPosted | src/iproto_conn.cpp:245-265 | answers to distinct pending requests post their callbacks in order, each with its packet |
| IprotoConn.EndToEnd | src/iproto_conn.cpp:130-164 | packed, concatenated, cut anywhere, read and dispatched: every callback gets its packet, in order, every packet unpacks to the values packed, and the buffer ends empty |
| IprotoRun.RunSimilar | src/iproto_conn.cpp:130-270 | over a whole run, requests, timers and dismissals of other syncs change nothing in what a set of syncs sees: their pending requests and their posts are those of the reads alone, and so is the read buffer |
| IprotoRun.EndToEndAmongOthers | src/iproto_conn.cpp:130-270 | the end-to-end theorem for reads interleaved with any events that leave the answered requests alone |
| IprotoRun.RunIsExec | src/iproto_conn.cpp:130-164 | reads among other events are the run of the packets that they complete among those events |
| IprotoRun.PacketsOfRun | src/iproto_conn.cpp:130-164 | those packets are the packets of the bytes read, in order, however they were read |
| IprotoRun.GivenExactly | src/iproto_conn.cpp:245-265 | over any run, the callbacks of a set of syncs are given exactly the packets for them, in order, if and only if each meets a callback that waits for it; they are never given more |
| IprotoRun.AllArriveExactly | src/iproto_conn.cpp:130-270 | the same end to end: whole packets of any syncs, read in any pieces, among any requests, timers and dismissals, requests made during the run included; and the read buffer ends empty |
| CoroutinePool.StepInv | src/couroutine_pool.cpp:24-66 | every step keeps this: each worker is in exactly one state, handlers started and queued are those scheduled, a waiting handler means a worker on its way, and while a worker sleeps there are as many on their way as handlers wait |
| CoroutinePool.StepAttended | src/couroutine_pool.cpp:24-40 | the last of these by itself: scheduling wakes a sleeper whatever the others do |
| CoroutinePool.ExecInv | src/couroutine_pool.cpp:24-66 | so does every interleaving |
| CoroutinePool.StartWithoutReturns | src/couroutine_pool.cpp:24-40 | while a worker sleeps, no waiting handler has to wait for another one to return: the workers on their way start them all |
| CoroutinePool.QuiescentDone | src/couroutine_pool.cpp:57-63 | when all workers sleep, the queue is empty and everything scheduled has been processed |
| CoroutinePool.StartedInOrder | src/couroutine_pool.cpp:57-60 | the handlers started are a prefix of those scheduled: each at most once, in order |
| CoroutinePool.ResumedOnce | src/couroutine_pool.cpp:24-40 | a worker with a posted resume stays so until it runs: one sleep is resumed once |
| CoroutinePool.StuckExactly | src/couroutine_pool.cpp:44-64 | the event loop has nothing to do if and only if all workers sleep |
| CoroutinePool.RunsEnd | src/couroutine_pool.cpp:42-66 | without further scheduling every run ends, within a bound |
| CoroutinePool.EverythingGetsDone | src/couroutine_pool.cpp:42-66 | from every state that keeps the invariant, the event loop left alone comes to rest with every handler processed |
| CoroutinePool.StartsAllExactly | src/couroutine_pool.cpp:17-22 | after any run, everything scheduled can still get started if and only if the pool has a worker or was given nothing |
| CoroutinePool.EmptyPoolStarves | src/couroutine_pool.cpp:17-22 | without workers, no run starts anything |
| CoroutinePool.BusyCount | lib/coroutine_pool.hpp:43 | the workers that do not sleep are those inside a handler, resumed or not yet started |
| CoroutinePool.BusyExactly | lib/coroutine_pool.hpp:43 | there is none if and only if all sleep |
| CoroutinePool.CoroutinePool.GetWorkersBusy | lib/coroutine_pool.hpp:43 | the number returned is that of the workers inside a handler, resumed or not yet started; it is zero if and only if all sleep |
| CoroutinePool.CoroutinePool.constructor | src/couroutine_pool.cpp:17-22 | the spawned workers have not run yet |
| CoroutinePool.CoroutinePool.ResumeOne | src/couroutine_pool.cpp:24-40 | a sleeper, if there is one, leaves the free set and its resume is posted, whatever the other workers do |
| CoroutinePool.CoroutinePool.ScheduleHandler | lib/coroutine_pool.hpp:21-27 | a handler joins the queue and a sleeper is woken; without workers too |
| CoroutinePool.DrainInv | src/couroutine_pool.cpp:44-64 | a worker that has been given the control restores the invariant by the time it yields, inside a handler or asleep |
| CoroutinePool.CoroutinePool.StartWorker | src/couroutine_pool.cpp:42-64 | a spawned worker runs for the first time, and the invariant is kept |
| CoroutinePool.CoroutinePool.RunResume | src/couroutine_pool.cpp:34-64 | a posted resume runs its worker, and the invariant is kept |
| CoroutinePool.CoroutinePool.HandlerReturns | src/couroutine_pool.cpp:61-62 | a handler that returns is counted, and its worker looks at the queue again |
| WriteBuffer.ExecInv | src/write_buffer.cpp:17-62 | over any run without a shutdown during a write: one write at a time, that of the front entry, in the order of the requests, each callback called once |
| WriteBuffer.ExecExactly | src/write_buffer.cpp:17-62 | a run keeps this invariant, history included, if and only if no shutdown meets a write |
| WriteBuffer.EverythingGetsWritten | src/write_buffer.cpp:50-62 | if the writes end one after the other and well, everything that waits gets written, in order |
| WriteBuffer.StepNamed | src/write_buffer.cpp:17-62 | every step of every run, shutdowns or not, keeps this: the last write begun is that of the front entry, and every other write in flight was cut off from an entry that has left the queue |
| WriteBuffer.SettlesOwnExactly | src/write_buffer.cpp:50-62 | the end of a write settles another entry than its own if and only if an entry waits and that write was cut off; with an empty queue it settles nothing |
| WriteBuffer.OwnExactly | src/write_buffer.cpp:17-62 | over any run, every callback is told of its own write if and only if no write that was cut off ends while an entry waits |
| WriteBuffer.OwnFromStart | src/write_buffer.cpp:17-62 | from the empty queue, with the callbacks called being those of the entries settled as written, each once; and without a shutdown during a write nothing is mixed up |
| WriteBuffer.ShutdownDuringWrite | src/write_buffer.cpp:23-29 | a run in which a callback is called for another entry's write |
| WriteBuffer.WriteBuffer.Enqueue | src/write_buffer.cpp:17-36 | an entry joins the queue and its write begins if none is under way, and the invariants are kept |
| WriteBuffer.WriteBuffer.WriteEnds | src/write_buffer.cpp:50-62 | the front entry is settled and its callback called, an error drops the others, success begins the next write; the invariants are kept |
| WriteBuffer.WriteBuffer.Stop | src/write_buffer.cpp:23-29 | the shutdown step: the queue is dropped and no callback called; it keeps the invariant if nothing is in flight, and the weaker one always |

## Left out

HTTP parsing and printing:

- HttpParser.ParseInt: numbers are unbounded; beyond the bound of `HttpParser.NoOverflowExactly` the overflow of `int` in `src/picohttpparser.c:236` is undefined in C. The `(int)` cast of the consumed length is exact for buffers below 2 GB.
- HttpParser.ParseLine: when it fails, nothing is said about the slot it was filling.
- HttpVector.VectorHeadersAgree: the vectorised parsers are functions; of their loops only the three scans are methods.
- HttpClient.Conn.SetHeader: the map reference that `Headers()` returns could be kept and written through later, behind the cache's back.
- HttpClient.Conn.PostRequest: the upload loop of `DoPostRequest`, its retries and its data callback are socket work.
- HttpHeaders.FoundExactly: `std::sort` is "some sorted permutation" (`Collected`); the values of Content-Length (`strtol`) and Connection are not interpreted.

HTTP bodies:

- HttpBody.Transfer.AsyncRead: `async_read` is a read that yields any number of bytes up to the one asked for, with or without an error.
- HttpBody.Transfer.StreamSpliceData: results of `splice` are an arbitrary list; a run that uses it up ends as waiting. Timeouts count as failures of the server's side; failing to make the pipe is not modelled.
- HttpBody.Transfer.ReadBody: `max_read_transfer` is positive; with zero the loops of the source read nothing for ever.
- Sockets, connecting and reconnecting, timers, `TCP_CORK`, `tee`, `WriteSplice`, `WriteRequestData`: input and output.

IProto:

- IprotoPacket.Packer: three times the packet's length fits in 32 bits, as the growth computation needs; the global sequence counter is a parameter. The host is little-endian.
- IprotoPacket.Packet.UnpackValue: what a read outside the packet's memory yields; it is the outcome `Outside`.
- IprotoCodec.BerPackUnpack: packets packed with the BER flag have no unpacker in the source; their reader here (`IprotoCodec.UnpackBer`) is a reference.
- IprotoConn.Conn.Write: arming the timer, the write queue, pings and reconnects of the connection are not modelled; the sync of a ping is an ordinary sync here.
- IprotoConn.Conn.OnRead: whether the socket is still open, which decides if a next read is posted at all.
- IprotoConn.Conn.OnReadError: the reconnect that follows is not modelled.

Coroutine pool and write queue:

- CoroutinePool.StepInv: `shutdown` stays unset; `Dispatch` and `RunQueue` drive the event loop from inside and are left out. Exceptions out of a handler end the program.
- WriteBuffer.ExecInv: callbacks do not call back into the buffer; the choice between the plain and the SSL stream makes no difference to the queue.

Not modelled at all: the flow graph, statistics, the stopwatch, the coroutine barrier, the yield helper, hexadecimal dumps and
conversions, and the bundled unit-test framework.
