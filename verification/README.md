# Verification of the SSE client

A model of the Server-Sent Events client, from the bytes on the socket to the script's callback, with proofs of what
the path promises. `dafny verify dfyconfig.toml` checks the whole project.

## What is modelled

- **Parser and resume position** (`ParserModel`, `SseParser`, `StreamSpec`, `Delivery`, `Replay`, `RoundTrip`,
  `FieldLines`, `RecentId`, `LateMark`). The parser is an object with its twelve fields, updated byte by byte. It is
  tied to a parser on values, which is proved to report exactly what a declarative reading of the stream says: LF ends
  a line, one CR is stripped, a blank line ends a block, and a block yields an event, a bare commit of its id, or
  nothing. The queue's answer to each event is an arbitrary function of everything reported before, and the buffer cap
  is symbolic. On that reading stand the commit discipline, at-least-once delivery over any number of attempts, and the
  round trip of printed events. For at-least-once delivery the server only promises what its bytes mean, so it may end
  lines and frame as it likes.
- **Chunked decoder and response reader** (`ChunkSize`, `ChunkDecoder`, `ChunkedBody`, `HeaderEnd`, `ResponseReader`,
  `ResponseHead`, `ResponseLoop`, `Request`, `Worker`, `PoolDelivery`, `LostEvent`, `BlockedResume`). Transfer coding
  without trailers (section 7.1 of RFC 9112), the header phase, the receive loop, the request and the attempt loop of
  the connection-pool adapter. Receives, waits, failures, stops and the end of the stream are arbitrary. `PoolDelivery`
  joins the whole path.
- **Queue and lifecycle** (`EventQueue`, `Lifecycle`, `Extension`). The double-buffered bounded queue, and connect,
  disconnect, dispatch and flush, where a callback may call back into the extension. `Lifecycle` has the steps in any
  order; `Extension` is the object whose methods are runs of those steps.
- **Two concurrent protocols** (`TeardownGuard`, `Reaper`), as steps of any number of threads in any interleaving.
- **Reconnect delay** (`Backoff`), with C++ division, for the adapters that back off. The connection-pool worker does
  not: it sleeps for the plain retry delay.
- **Two more readers of the stream** (`Html5Client`, `JavaScanner`): the browser adapter, coupled to the byte-driven
  parser, and the Android adapter's line scanner.

`Bytes` holds what the others share. Strings are byte sequences; where the code passes a C string, the model cuts it at
the first NUL, so NULs in a stream are not assumed away.

## What the proofs found

- **Where headers end can depend on the receives.** CRLFCRLF anywhere in the buffer wins over an earlier LFLF, but only
  once it has arrived. With LF-only headers and a body that holds CRLFCRLF, everything up to there is taken for headers
  if it arrives in one receive, and its event is lost (`LostEvent.LosesEvent`). `HeaderEnd.HeaderInvariantIff` gives
  the exact condition under which receives do not matter.
- **An id with a CR inside blocks reconnecting.** The parser accepts and commits it, the request is then refused before
  it is sent, and the worker adds nothing but failures from then on (`BlockedResume.CommittedIdBlocks`).
  `BlockedResume.FailsForeverIff` says that this happens exactly with a CR or LF in the stored position.
- **The browser adapter processes an unfinished last line; the native parser does not.** `Html5Client.TailReportsIff`
  says exactly when their reports differ. One case is a retry value cut off in its digits
  (`Html5Client.CutRetryReports`).
- **The byte-order mark is dropped from the first line that is not over-long**, not from the first line: an over-long
  line does not clear the flag. It shows exactly when a mark stands on a line of its own behind over-long lines: then
  it is a blank line and ends the block they poisoned (`LateMark.MarkBehindLongLine`, `LateMark.MarkShowsIff`).
- **The repository's README.md (line 89) says that the most recent id field received is sent on reconnect.** The code
  stores the last id of the sound blocks before the first refused event (`Delivery.ResumeExact`);
  `RecentId.RecentIdStoredIff` says exactly when that is the most recent id, and `RecentId.RecentIdSentIff` exactly
  when the next request carries it: not if it is empty, and not if it holds a CR. The proofs follow the code.
- **The last lower clamp of the reconnect delay never acts**: the jittered delay is at least 800 ms
  (`Backoff.ComputeRetryDelayMS`).
- **The Android scanner's limit is one byte lower**: a line of exactly 1048576 bytes is poisoned there and accepted by
  the native parser (`JavaScanner.LimitsAgreeIff`).

## Model

| member | source | states |
|---|---|---|
| SseParser.SSEParser.Feed | sse/src/sse_parser.cpp:50-87 | Fed any bytes, the parser object and everything it reports end as the parser on values says; where the calls cut the bytes is invisible. |
| SseParser.SSEParser.FeedOne | sse/src/sse_parser.cpp:54-85 | One byte: LF ends the line or the discarding, an over-long line is reported once, dropped, and poisons its block. |
| SseParser.SSEParser.ProcessLine | sse/src/sse_parser.cpp:89-198 | One line: byte-order mark and one CR stripped, blank lines dispatch, poisoned blocks and comments skip, otherwise the field is applied. |
| SseParser.SSEParser.CutField | sse/src/sse_parser.cpp:126-142 | The line is cut at its first colon, and one space behind it is dropped. |
| FieldLines.CutExact | sse/src/sse_parser.cpp:126-142 | The name ends at the first colon; one space behind it is dropped, any other first character stays, and a line without a colon is a name with an empty value. |
| FieldLines.NamesExact | sse/src/sse_parser.cpp:144-171 | Exactly data, event, id and retry mean something, whole and in lower case. |
| FieldLines.MarksExact | sse/src/sse_parser.cpp:91-106 | The mark is dropped from text on the first line only, one CR from the end of every line, and nothing else. |
| FieldLines.CStrExact | sse/src/sse_parser.cpp:225-228 | What is passed on ends at the first NUL. |
| FieldLines.TightDataOffered | sse/src/sse_parser.cpp:138-141 | The stream "data:a" and a blank line offers the data "a" under the name "message". |
| FieldLines.MarkedDataOffered | sse/src/sse_parser.cpp:94-100 | The same behind a byte-order mark. |
| FieldLines.NulEndsData | sse/src/sse_parser.cpp:225-228 | A NUL in the data ends what the event shows of it. |
| FieldLines.TightIdStored | sse/src/sse_parser.cpp:138-170 | The stream "id:7" and a blank line stores "7". |
| FieldLines.RetryExact | sse/src/sse_parser.cpp:173-195 | Any decimal numeral, zeros in front or not, asks for its value, raised to 1000 and lowered to 300000. |
| FieldLines.RetryNone | sse/src/sse_parser.cpp:173-183 | A retry value asks for nothing exactly if it is empty or holds anything but the digits 0 to 9. |
| FieldLines.RetryReported | sse/src/sse_parser.cpp:171-196 | A retry line is reported as soon as its LF arrives. |
| FieldLines.LongLineReported | sse/src/sse_parser.cpp:74-84 | An over-long line is reported once, however much of it still comes. |
| FieldLines.DataOverflowReported | sse/src/sse_parser.cpp:146-154 | Two data lines that do not fit together are one report and no event. |
| SseParser.SSEParser.ProcessField | sse/src/sse_parser.cpp:144-197 | The new block state for each field name; data over the cap poisons; retry counts only as a non-empty row of digits, clamped, also when the value leaves the range of long. |
| SseParser.SSEParser.Dispatch | sse/src/sse_parser.cpp:200-257 | The whole new block state and the reports of a blank line: event, bare commit or nothing, rollback and freeze on a refusal, and the new rollback point. |
| SseParser.SSEParser.PoisonEvent | sse/src/sse_parser.cpp:39-48 | Data and id of the block are gone, its id state is back at the rollback point, and line state is untouched. |
| SseParser.SSEParser.Reset | sse/src/sse_parser.cpp:23-37 | Every one of the twelve fields is at its initial value. |
| SseParser.Strtol | sse/src/sse_parser.cpp:185-195 | Whichever way the conversion leaves the range of long, the value is above the upper clamp. |
| SseParser.Connection.OnParserEvent | sse/src/sse_connection_pool_impl.h:461-471 | The resume position is overwritten exactly if the queue took the event and the parser offered an id. |
| SseParser.Connection.OnParserId | sse/src/sse_connection_pool_impl.h:479-484 | The commit is the last one in the log and the stored value. |
| SseParser.Connection.OnParserRetry | sse/src/sse_connection_pool_impl.h:473-477 | The retry is the last one in the log and the stored value. |
| SseParser.Connection.OnParserError | sse/src/sse_connection_pool_impl.h:486-490 | A recoverable parser error is one report and changes neither stored value. |
| ParserModel.FeedAppend | sse/src/sse_parser.cpp:50-87 | Feeding a then b is feeding a followed by b, for the state and for every report. |
| ParserModel.FeedPiecesIsFeed | sse/src/sse_parser.cpp:50-87 | Any partition into receives gives the state and the reports of one call. |
| StreamSpec.Refinement | sse/src/sse_parser.cpp:50-257 | From a reset parser, for every byte sequence, cap and answer of the queue, the reports are those of the declarative reading: lines at LF, blocks at blank lines, each block an event, a commit or nothing. |
| StreamSpec.FeedIsLines | sse/src/sse_parser.cpp:50-87 | Byte by byte and line by line are the same; the byte-order mark is dropped from the first line that is not over-long. |
| LateMark.MarkBehindLongLine | sse/src/sse_parser.cpp:74-100 | Behind an over-long line, a byte-order mark on a line of its own is a blank line and ends the poisoned block: the event behind it is offered. |
| LateMark.MarkShowsIff | sse/src/sse_parser.cpp:91-119 | In a poisoned block, stripping the mark matters exactly for a line that is a mark and nothing else. |
| StreamSpec.TrackLine | sse/src/sse_parser.cpp:114-197 | After any line inside a block the parser holds exactly the block's data lines, last name and last id, or has rolled everything back if the block is poisoned. |
| StreamSpec.TrackBlank | sse/src/sse_parser.cpp:200-257 | The blank line brings the parser to the declarative end of the block. |
| StreamSpec.OffersMessage | sse/src/sse_parser.cpp:219-228 | The event offered has the block's last name or "message", its data lines joined by LF, and the block's own id. |
| StreamSpec.BuffersBounded | sse/src/sse_parser.cpp:74-84 | Line and data buffers are within the cap after every byte. |
| Delivery.OffersAreDeliverables | sse/src/sse_parser.cpp:200-257 | A stream offers exactly its sound blocks with data, in order, once each, and is frozen exactly if one of them was refused. |
| Delivery.ResumeExact | sse/src/sse_parser.cpp:206-256 | The stored resume position is the last id of the sound blocks completed before the first refused event, or the one stored before. |
| RecentId.RecentIdStored | sse/src/sse_parser.cpp:162-256 | What is stored after a stream, from the block of its most recent id field: that id if the block is complete, sound and before the first refused event, otherwise what was stored before it. |
| RecentId.RecentIdStoredIff | sse/src/sse_parser.cpp:162-256 | The most recent id field is the stored one if and only if its block is complete, sound and before the first refused event, or it repeats what was stored before. |
| RecentId.RecentIdSentIff | sse/src/sse_connection_pool_impl.h:404-410 | With valid headers of the caller, the next request is sent and carries the most recent id if and only if that id is the stored one, not empty, and free of CR and LF. |
| RecentId.RecentIdUnsent | sse/src/sse_connection_pool_impl.h:363-410 | An id with a CR inside, in a complete and sound block: stored, and then no request is sent. |
| RecentId.RecentIdExample | sse/src/sse_parser.cpp:206-246 | A stream, in bytes, whose most recent id is received and not stored. |
| Delivery.CommitDiscipline | sse/src/sse_parser.cpp:162-256 | Over any byte stream, every commit comes from a sound block before any refusal, and carries the last id field up to that block. |
| Delivery.CommitInBlock | sse/src/sse_parser.cpp:206-246 | Which block each commit belongs to. |
| Delivery.StreamOutcome | sse/src/sse_parser.cpp:50-257 | For every byte stream: the events offered, and the resume position left behind. |
| Replay.AtLeastOnce | sse/src/sse_connection_pool_impl.h:905-960 | Over any number of attempts, any bytes in each and any answers of the queue: if what arrives says, item by item, a first part of what follows the id sent, every event before the stored position was accepted in some attempt. Line endings, comments, heartbeats, field order and cuts are free. |
| Replay.AttemptAdvances | sse/src/sse_parser.cpp:200-257 | One attempt never moves the position back, and moves it forward only over items whose event it had accepted. |
| Replay.AttemptOutcome | sse/src/sse_connection_pool_impl.h:823-892 | What one attempt offers and leaves stored, for any bytes, in terms of the blocks it completed. |
| Replay.CutStream | sse/src/sse_parser.cpp:50-87 | However early a stream is cut off, the client has completed a first part of its blocks. |
| Replay.ReplaysCut | sse/src/sse_parser.cpp:50-87 | A replay that is cut off anywhere still replays. |
| Replay.ServedReplays | sse/src/sse_parser.cpp:103-112 | A server that looks the id up in its raw blocks and renders what follows, with heartbeats among them and each blank line with or without its CR, keeps that promise wherever it is cut off. |
| Replay.WholeReplay | sse/src/sse_parser.cpp:50-257 | A rendered history reads as its blocks, with nothing left over, whichever lines end in CRLF. |
| RoundTrip.PrintParse | sse/src/sse_parser.cpp:50-257 | Printed events, with or without the space behind each colon and the CR in front of each LF, fed in any pieces to a reset parser, are offered as exactly those events in order, and nothing but events and commits is reported. |
| RoundTrip.FieldsMean | sse/src/sse_parser.cpp:219-228 | The fields of a printed event mean that event, embedded LFs included. |
| RoundTrip.FieldTextReads | sse/src/sse_parser.cpp:103-142 | A printed field line is read back as its name and value, in every layout. |
| ChunkSize.ParseChunkSize | sse/src/sse_connection_pool_impl.h:492-542 | It finds a size exactly when the part before the first ';', blanks removed, is a non-empty hexadecimal numeral of at most SIZE_MAX, and the accumulator never wraps. |
| ChunkSize.SizeExact | sse/src/sse_connection_pool_impl.h:492-542 | A line means v if and only if v fits and its non-blank characters up to the first ';' are a hexadecimal numeral of v, in letters of either case, zeros in front or not. |
| ChunkSize.NonBlanksExact | sse/src/sse_connection_pool_impl.h:504-507 | Spaces and tabs are dropped wherever they stand, and nothing else. |
| ChunkSize.SizeExample | sse/src/sse_connection_pool_impl.h:510-521 | "1A", "1a" and "0 1 a ; x" are all 26. |
| ChunkSize.PrefixDecides | sse/src/sse_connection_pool_impl.h:524-530 | Giving up at a bad digit or at a prefix that overflows is right: no continuation of it has a size. |
| ChunkSize.PrintParseSize | sse/src/sse_connection_pool_impl.h:492-542 | Every size up to SIZE_MAX printed in hexadecimal is parsed back, and takes at most 16 digits. |
| ChunkedBody.BodyDecoder.FeedChunkedBody | sse/src/sse_connection_pool_impl.h:544-635 | The loop with bulk copies ends with the state, the error and the parser of the byte-wise decoder; at each return, being in the payload means that a byte is left to take. |
| ChunkedBody.BodyDecoder.TakeFraming | sse/src/sse_connection_pool_impl.h:554-631 | One framing byte: collected, ending the size line, delimiter, or one of the three errors. |
| ChunkDecoder.DecodeAppend | sse/src/sse_connection_pool_impl.h:544-635 | Decoding a then b is decoding a followed by b: state, payload and error, also when an error or the last chunk lies inside a. |
| ChunkDecoder.DecodeStopped | sse/src/sse_connection_pool_impl.h:549-552 | Behind the last chunk or an error nothing changes any more. |
| ChunkDecoder.DecodeKeepsValid | sse/src/sse_connection_pool_impl.h:585-601 | In the payload there is always a byte left to take. |
| ChunkDecoder.DecodeRun | sse/src/sse_connection_pool_impl.h:585-601 | A run within the chunk is passed on whole and counted down. |
| ChunkDecoder.Transparent | sse/src/sse_connection_pool_impl.h:544-717 | However the chunks are sized, the size lines written (extensions, blanks, letter case) and the bytes received, the payload comes out whole, the decoder is done and there is no error. |
| ChunkDecoder.CutBody | sse/src/sse_connection_pool_impl.h:544-635 | What has come out of a body cut anywhere is a first part of its payload. |
| ChunkDecoder.PlainChunkWellFormed | sse/src/sse_connection_pool_impl.h:564-580 | A non-empty payload behind its plain hexadecimal size is a chunk the decoder takes. |
| ChunkDecoder.UpperChunkWellFormed | sse/src/sse_connection_pool_impl.h:518-521 | So is one whose size is printed in capitals. |
| ChunkDecoder.AnySizeLine | sse/src/sse_connection_pool_impl.h:564-580 | A size line may have capitals, blanks, zeros in front and an extension. |
| ChunkDecoder.TrimExact | sse/src/sse_connection_pool_impl.h:566-569 | CRs and LFs at the end of a size line are dropped, and nothing else. |
| ChunkDecoder.LongSizeLineFails | sse/src/sse_connection_pool_impl.h:558-562 | A size line over 1024 bytes is an error. |
| ChunkDecoder.BadSizeLineFails | sse/src/sse_connection_pool_impl.h:571-576 | A size line that means no size is an error. |
| ChunkDecoder.DelimitersExact | sse/src/sse_connection_pool_impl.h:603-631 | Behind a payload CRLF or a bare LF leads to the next size line; any other byte is an error. |
| HeaderEnd.HeaderInvariantIff | sse/src/sse_connection_pool_impl.h:637-654 | Where the headers end is independent of the receives if and only if the response is stable: no CRLFCRLF can arrive in the receive that completes an earlier LFLF, and the buffer cannot overflow in it. |
| HeaderEnd.ReadHeaderStops | sse/src/sse_connection_pool_impl.h:762-776 | The header phase ends at the first receive boundary with enough bytes, with the scan of everything received by then. |
| HeaderEnd.MixedHeaderEnds | sse/src/sse_connection_pool_impl.h:637-654 | With headers that an LFLF ends and CRLF lines behind them, the headers end at the CRLFCRLF if all arrives at once, and at the LFLF if they arrive first. |
| HeaderEnd.LFLinesAreHead | sse/src/sse_connection_pool_impl.h:637-654 | Any non-empty header lines that end in LF are such headers. |
| LostEvent.LosesEvent | sse/src/sse_connection_pool_impl.h:719-821 | A 2xx response with such headers and one event: received at once it opens and offers nothing; with the headers in a receive of their own it opens and offers exactly its event. |
| LostEvent.LostEventExample | sse/src/sse_connection_pool_impl.h:719-821 | Such a response, in bytes and with two header lines, and what is offered in one receive and in two. |
| ResponseReader.ParseResponseHeaders | sse/src/sse_connection_pool_impl.h:665-701 | The loop over the header lines finds what the header text says. |
| ResponseHead.HeadersExact | sse/src/sse_connection_pool_impl.h:665-701 | The first line alone gives the status, and the body is chunked exactly if some later line, its CR stripped and in lower case, starts with transfer-encoding: and mentions chunked. |
| ResponseHead.SaysChunkedExact | sse/src/sse_connection_pool_impl.h:164-175 | A header line says chunked if and only if, letter case aside, it starts with transfer-encoding: and holds the word chunked. |
| ResponseHead.ChunkedHeadOpens | sse/src/sse_connection_pool_impl.h:665-701 | "HTTP/1.1 200 OK" and "Transfer-Encoding: chunked" open a chunked stream. |
| ResponseHead.StatusExact | sse/src/sse_connection_pool_impl.h:670-678 | HTTP/, a version, white space and a number with or without a sign give that number; without a number there is no status. |
| ResponseHead.StatusNone | sse/src/sse_connection_pool_impl.h:673-677 | Another protocol or a missing version gives no status. |
| ResponseHead.OtherStatusFails | sse/src/sse_connection_pool_impl.h:783-787 | Every status outside of 200..299 fails the attempt, opens nothing and feeds nothing. |
| ResponseHead.NoStatusFails | sse/src/sse_connection_pool_impl.h:778-781 | So do headers without a status. |
| ResponseHead.EndlessHeadersFail | sse/src/sse_connection_pool_impl.h:765-769 | So do headers that do not end within 65536 bytes. |
| ResponseHead.FramingErrorFails | sse/src/sse_connection_pool_impl.h:793-812 | A framing error fails the attempt behind what came out before it. |
| ResponseHead.StatusLineReads | sse/src/sse_connection_pool_impl.h:670-678 | The status of a well-formed status line is read as printed, with any version and reason. |
| ResponseHead.LinesAreClean | sse/src/sse_connection_pool_impl.h:637-654 | Headers of non-empty CRLF lines are unambiguous, unless they come within one receive of the limit. |
| ResponseHead.PlainDelivered | sse/src/sse_connection_pool_impl.h:703-821 | Behind clean headers a plain body reaches the parser unchanged after Open, in any receives. |
| ResponseHead.ChunkedDelivered | sse/src/sse_connection_pool_impl.h:703-821 | Behind clean headers exactly the payload of a chunked body reaches the parser after Open, in any receives, and the attempt succeeds. |
| ResponseReader.FeedBody | sse/src/sse_connection_pool_impl.h:703-717 | One more piece of body, for either coding: parser, decoder, and whether the attempt is over. |
| ResponseReader.ResponseInvariant | sse/src/sse_connection_pool_impl.h:719-821 | A stable response has the same outcome in every partition into receives and waits. |
| ResponseLoop.ReadResponse | sse/src/sse_connection_pool_impl.h:719-821 | The receive loop has the outcome of the response read all at once: reports, opened flag, status and success, on every error, stop and end of stream. |
| ResponseLoop.TakePiece | sse/src/sse_connection_pool_impl.h:757-817 | One received piece keeps the loop where the pieces so far put it, or decides the attempt for good. |
| ResponseLoop.TakeHeaderPiece | sse/src/sse_connection_pool_impl.h:762-806 | The same while the headers are incomplete, the four ways to fail included. |
| Request.BuildRequest | sse/src/sse_connection_pool_impl.h:382-414 | It succeeds exactly if every header to be sent is valid, and then the request is exactly the intended lines. |
| Request.AppendHeader | sse/src/sse_connection_pool_impl.h:363-380 | A header with an empty name, a colon in its name, or a CR or LF anywhere is refused. |
| Request.RequestArrives | sse/src/sse_connection_pool_impl.h:382-414 | A server that cuts the request at LF reads exactly the intended lines: no header or resume position can add one. |
| Request.RequestInFull | sse/src/sse_connection_pool_impl.h:384-412 | The request in full, in characters: path, host, the four fixed headers, the others in order, and the empty line. |
| Request.ValidHeaderExact | sse/src/sse_connection_pool_impl.h:369-378 | A header is valid if and only if its line is one line whose first colon ends its non-empty name. |
| Request.SendableIff | sse/src/sse_connection_pool_impl.h:404-410 | With valid headers of the caller, the headers to be sent are valid if and only if the stored resume position has no CR and no LF. |
| BlockedResume.IdStored | sse/src/sse_parser.cpp:162-214 | A block with any printable id, one with a CR inside too, makes it the resume position. |
| BlockedResume.FailsForever | sse/src/sse_connection_pool_impl.h:905-960 | With a CR or LF in the stored position, any number of further attempts adds only failures and leaves the position as it is. |
| BlockedResume.FailsForeverIff | sse/src/sse_connection_pool_impl.h:905-960 | With valid headers, a running worker can add nothing but failures if and only if its stored position has a CR or an LF. |
| BlockedResume.CommittedIdBlocks | sse/src/sse_connection_pool_impl.h:823-960 | A worker whose first response holds a block with an id with a CR inside stores it, and then only fails. |
| BlockedResume.BlockedExample | sse/src/sse_connection_pool_impl.h:823-960 | Such a response, in bytes. |
| Worker.PerformOnce | sse/src/sse_connection_pool_impl.h:823-892 | One attempt, on every way it can fail, with a reset parser and the stored resume position in the request. |
| Worker.Run | sse/src/sse_connection_pool_impl.h:905-960 | The attempt loop reports exactly the run on values, over any sequence of attempts. |
| Worker.WorkerGrammar | sse/src/sse_connection_pool_impl.h:905-960 | A run is one segment per attempt (at most one Open, with a 2xx status; parser output only behind it; at most one Failure, last), then at most one Closed, which needs reconnect off, a single attempt, and no look taken at the stop flag that found it set, given that a set flag stays set. |
| Worker.ClosedUnlessStopped | sse/src/sse_connection_pool_impl.h:946-959 | The other way round: reconnect off and no stop seen, the run is its one attempt and then Closed. |
| Worker.EarlyFailures | sse/src/sse_connection_pool_impl.h:825-881 | Each failure in front of a response is reported once, with its status, unless a stop was seen. |
| Worker.UndecidedAttempt | sse/src/sse_connection_pool_impl.h:735-760 | An attempt that is not decided by what it receives fails if and only if a wait or a receive fails. |
| Worker.KeepsTrying | sse/src/sse_connection_pool_impl.h:910-954 | With reconnect on and no stop seen the worker goes on, attempt after attempt. |
| Worker.StopsTrying | sse/src/sse_connection_pool_impl.h:936-950 | Without reconnect, or behind a stop, no further attempt is made. |
| Worker.AttemptSegments | sse/src/sse_connection_pool_impl.h:910-954 | The same for the loop alone, and why it was left. |
| Worker.FeedOutput | sse/src/sse_connection_pool_impl.h:461-490 | The parser only adds reports, and only messages, commits, retries and recoverable errors. |
| PoolDelivery.PoolAtLeastOnce | sse/src/sse_connection_pool_impl.h:719-960 | At-least-once delivery by the worker itself, from the socket through headers, transfer coding and parser to the queue, if the decoded payload of each opened response replays what follows the id sent. |
| PoolDelivery.TryIsAttempt | sse/src/sse_connection_pool_impl.h:823-952 | One turn of the worker is one attempt whose bytes are the decoded payload, or has offered and stored nothing. |
| PoolDelivery.FramedServes | sse/src/sse_connection_pool_impl.h:544-635 | A server that frames a replay in chunks keeps its promise, wherever the connection is lost. |
| PoolDelivery.RenderedServes | sse/src/sse_connection_pool_impl.h:544-635 | So does one that renders what follows the id among its raw blocks, in LF or CRLF, in a single chunk. |
| PoolDelivery.EventsArrive | sse/src/sse_connection_pool_impl.h:544-821 | From the server's events to the queue: printed, chunked, framed and received in any pieces, exactly those events are offered in order. |
| PoolDelivery.EventsArrivePlain | sse/src/sse_connection_pool_impl.h:703-821 | The same for a plain body. |
| PoolDelivery.EventsArriveAtOnce | sse/src/sse_connection_pool_impl.h:544-821 | One such response in full: a single chunk behind two header lines, in one receive. |
| EventQueue.SSEEventQueue.Push | sse/src/sse.cpp:213-241 | A push extends the window and is accepted exactly if the extension is active and the window is still shorter than the capacity. |
| EventQueue.SSEEventQueue.Swap | sse/src/sse.cpp:456-467 | A flush takes the accepted events and the overflow notes of the whole window and leaves an empty queue. |
| EventQueue.PushExtendsWindow | sse/src/sse.cpp:213-241 | One push keeps the queue at the result of its window: the accepted pushes are the first ones. |
| EventQueue.OverflowExact | sse/src/sse.cpp:224-236 | An overflow note means a full queue, is made once per handle, and names exactly the handles that lost an event. |
| EventQueue.HandlesGrow | sse/src/sse.cpp:200-233 | Overflow notes stand in the order of the first losses. |
| EventQueue.SSEEventQueue.HasOverflowHandle | sse/src/sse.cpp:200-211 | The scan finds a handle exactly if it is noted. |
| Lifecycle.NothingLostOrRepeated | sse/src/sse.cpp:456-481 | Over all flushes and interleavings: what was handed to the dispatcher and what the flush still holds are, window by window, the accepted events in order and then one note per handle that lost one; the queue holds the open window. |
| Lifecycle.DisconnectIsFinal | sse/src/sse.cpp:404-441 | Once a handle is closed, no callback of it is started again, whatever is still queued for it in either buffer. |
| Lifecycle.NoCallbackAfterDisconnect | sse/src/sse.cpp:629-658 | The same for a whole run of the application, from the disconnect on. |
| Lifecycle.DestroyedOnce | sse/src/sse.cpp:171-198 | Every connection is alive or destroyed exactly once, none while its callback runs, and a closed one is gone unless its own callback is still running. |
| Lifecycle.ConnectOpens | sse/src/sse.cpp:585-626 | A successful connect opens a handle that no connection ever had; a failed one leaves nothing behind. |
| Lifecycle.DispatchStarts | sse/src/sse.cpp:404-441 | A dispatch starts exactly the callback of the item's handle if that is open and its callback valid and set up, and none otherwise; an open handle with an invalid callback loses its connection. |
| Lifecycle.OnlyDispatchStarts | sse/src/sse.cpp:404-441 | No other step starts a callback. |
| Lifecycle.CalmRunStarts | sse/src/sse.cpp:456-481 | Over any run whose callbacks are sound and disconnect nothing, the callbacks started are those of the handed items whose handle is open, in order. |
| Lifecycle.FlushDelivers | sse/src/sse.cpp:456-481 | Such a flush as a whole: one callback for each event of the window, then one for each overflow note, in order. |
| Lifecycle.EventReachesScript | sse/src/sse.cpp:404-441 | Connect, one event, one flush: the callback is started. |
| Lifecycle.ReturnDestroys | sse/src/sse.cpp:433-440 | A connection is destroyed behind its own callback exactly if it was disconnected meanwhile. |
| Lifecycle.DisconnectTwice | sse/src/sse.cpp:635-638 | Once a handle was disconnected, disconnecting it again at any later point of any run changes nothing. |
| Lifecycle.ConnectionStep | sse/src/sse.cpp:404-658 | Every step keeps the connection invariant: fresh handles, flags that match the running callback, closed means user-closed. |
| Extension.SSEExtension.Enqueue | sse/src/sse.cpp:213-241 | The push as a step of the lifecycle, and whether it was accepted. |
| Extension.SSEExtension.Connect | sse/src/sse.cpp:585-626 | Connecting as a step of the lifecycle, its two failures included; a handle is returned only for a live connection. |
| Extension.SSEExtension.Disconnect | sse/src/sse.cpp:629-658 | Disconnecting as a step of the lifecycle: destroyed at once, or behind the running callback. |
| Extension.SSEExtension.DispatchEvent | sse/src/sse.cpp:404-441 | One item: the callback it may start and call, every call the script makes inside it, and the destruction behind it, as a run of lifecycle steps; the callbacks called are the ones the lifecycle says are started. |
| Extension.SSEExtension.FlushQueue | sse/src/sse.cpp:456-481 | One flush hands every item of the swapped window to the dispatcher, events first and notes last, whatever the callbacks do. |
| Extension.DispatchKeepsPending | sse/src/sse.cpp:469-480 | A dispatch consumes exactly one item of the flush. |
| TeardownGuard.MutexesOutliveThreads | sse/src/sse.cpp:44-74 | In every interleaving, any number of threads and of init and teardown cycles, a thread inside the guard finds both mutexes alive, and the counter is the number of registered threads. |
| TeardownGuard.LookDecides | sse/src/sse.cpp:57-65 | Over any run: a thread that looks at the flag enters if and only if its look falls between an activation and the next clearing of the flag. |
| TeardownGuard.EntersWhileUp | sse/src/sse.cpp:57-65 | While the extension is up any thread can count itself in, and whatever others do meanwhile, it enters. |
| TeardownGuard.StaysInside | sse/src/sse.cpp:67-73 | And stays inside until it counts itself out. |
| TeardownGuard.NobodyEnters | sse/src/sse.cpp:746-756 | Behind the cleared flag nobody enters until the next activation. |
| TeardownGuard.WaitCanEnd | sse/src/sse.cpp:752-756 | The wait can always end: the registered threads need nobody else to leave, and then the poll succeeds. |
| Reaper.FreedOnceAfterExit | sse/src/sse_desktop.cpp:599-669 | In every interleaving each object is in exactly one place, is freed at most once, and only when its worker has exited. |
| Reaper.OnlyFinishedAwaited | sse/src/sse_desktop.cpp:599-669 | In every reachable state outside of the finalization, a worker that is waited for has set its finished flag and only has to exit. |
| Reaper.ConnectExact | sse/src/sse_desktop.cpp:557-596 | A connected object is attached, and its worker runs. |
| Reaper.DisconnectExact | sse/src/sse_desktop.cpp:607-637 | Disconnect sets the stop flag; a running worker leaves the object among the zombies at once, a finished one is joined. |
| Reaper.ScanExact | sse/src/sse_desktop.cpp:652-668 | An update passes over a running worker, and joins, frees and erases a finished one. |
| Reaper.FinalizeFreesAll | sse/src/sse.cpp:734-744 | From any state, with objects connected, waiting or finished, in every interleaving: when the teardown (disconnect what is connected, then finalize) is over, every object there ever was is freed. |
| Reaper.TeardownCanEnd | sse/src/sse.cpp:734-744 | From every state of a teardown it can be completed, needing nobody but the main thread and the workers it joins, and then every object is freed. |
| Reaper.StepKeeps | sse/src/sse_desktop.cpp:484-669 | Each step of main thread or worker keeps the ownership invariant. |
| Reaper.EraseSwapExact | sse/src/sse_desktop.cpp:652-668 | Erasing by swapping in the last entry removes exactly that entry from distinct ones. |
| Reaper.ZombieArray.Update | sse/src/sse_desktop.cpp:645-669 | One scan while workers may finish at any time: every zombie is polled once, those found finished are joined and then freed, exactly the others stay. |
| Reaper.ZombieArray.Finalize | sse/src/sse_desktop.cpp:516-531 | The teardown takes every zombie, joins it and frees it, one after another. |
| Reaper.JoinedBeforeFreed | sse/src/sse_desktop.cpp:522-531 | Each object is freed right behind its own join. |
| Backoff.ComputeRetryDelayMS | sse/src/sse_desktop.cpp:145-178 | The delay is the clamped base doubled per failure, capped, with jitter truncated towards zero; it lies in 800..360000, so the last clamp never acts and the result fits. |
| Backoff.FirstDelay | sse/src/sse_desktop.cpp:147-157 | Up to one failure the delay before jitter is the retry time between 1000 and 300000. |
| Backoff.DelayDoubles | sse/src/sse_desktop.cpp:157-167 | The second to the ninth failure double it, up to 300000; more change nothing. |
| Backoff.TruncExact | sse/src/sse_desktop.cpp:171-171 | The jitter's division by 1000 drops the fraction towards zero. |
| Backoff.DelayMonotone | sse/src/sse_desktop.cpp:145-178 | For a fixed jitter a longer retry or more failures never shorten the delay. |
| Backoff.CountFailures | sse/src/sse_desktop.cpp:424-466 | The worker's counter, reset by an attempt that opened and increased by one that failed, as a 32-bit counter. |
| Backoff.BackoffShape | sse/src/sse_desktop.cpp:457-466 | Behind an attempt that opened, k attempts that never opened count k, plus one if the opened one ended in an error; nothing earlier matters. |
| Backoff.FailuresInARow | sse/src/sse_desktop.cpp:457-466 | k failures that never opened add k, from any start. |
| Html5Client.Client.OnChunk | sse/src/sse_html5.cpp:370-393 | At every chunk boundary of ASCII text the chunk-at-a-time splitter and line machine are coupled to the byte-driven parser fed the same text: same reports, same block, same held-back line. |
| Html5Client.Client.OnLine | sse/src/sse_html5.cpp:373-386 | One line that an LF ended is what the byte-driven parser makes of it. |
| Html5Client.Client.ProcessLine | sse/src/sse_html5.cpp:160-207 | One line keeps the two parsers coupled. |
| Html5Client.Client.Dispatch | sse/src/sse_html5.cpp:208-247 | A blank line keeps the two parsers coupled, under every answer of the queue. |
| Html5Client.Client.Poison | sse/src/sse_html5.cpp:148-159 | Poisoning keeps the two parsers coupled. |
| Html5Client.Client.OnEnd | sse/src/sse_html5.cpp:396-403 | At the end of the stream the browser adapter reports what the byte-driven parser would if an LF followed the unfinished line. |
| Html5Client.Client.ReadBody | sse/src/sse_html5.cpp:365-403 | The whole read loop, stopped anywhere: the reports do not depend on the chunks. |
| Html5Client.TailReportsIff | sse/src/sse_html5.cpp:396-403 | For everything received and flushed: the two adapters have different reports at the end of the stream if and only if an unfinished line is left that is not being discarded, not empty, and over-long or one that reports something. |
| Html5Client.CutRetryReports | sse/src/sse_html5.cpp:396-403 | A retry field cut off in its digits, behind anything sound: the browser reports the delay they spell, the native parser nothing. |
| Html5Client.CutRetryExample | sse/src/sse_html5.cpp:396-403 | Such a stream, in bytes, and both logs. |
| JavaScanner.Scanner.ReadStream | sse/src/java/com/projecttower/sse/SseClient.java:229-250 | However the source buffers the bytes, unless stopped, exactly the LF-ended lines below the limit are handed over in order, each longer one is one poison, and an unended tail that fits is dropped; stopped, a first part of that. |
| JavaScanner.Scanner.SkipUntilNewline | sse/src/java/com/projecttower/sse/SseClient.java:252-275 | The rest of an over-long line and its LF are skipped, and no byte behind it. |
| JavaScanner.ScanLine | sse/src/java/com/projecttower/sse/SseClient.java:231-238 | What the stream says is its first line and then what the rest says. |
| JavaScanner.ScanTooLong | sse/src/java/com/projecttower/sse/SseClient.java:240-246 | A window without LF is one poison and then what follows the line says, whether its LF ever comes. |
| JavaScanner.LimitsAgreeIff | sse/src/java/com/projecttower/sse/SseClient.java:229-250 | With the same limit the Android and the native client find the same lines of a stream too long if and only if no line has exactly the limit's length. |
| JavaScanner.LimitExample | sse/src/java/com/projecttower/sse/SseClient.java:229-250 | A comment of exactly that length: poison in the one, nothing at all in the other. |

## Left out

- Replay.AtLeastOnce: assumes a server that replays, and distinct, non-empty ids in its history; without distinct ids there is no position to resume from.
- PoolDelivery.PoolAtLeastOnce: the same, for the decoded payload of each opened response; a server that sends something else is not promised anything.
- Replay.ServedReplays: rendered lines that start with a byte-order mark are left to the general promise.
- RoundTrip.PrintParse: printed events have a name that is not empty; an event without one has the name "message".
- LostEvent.LosesEvent: headers that hold a CRLFCRLF in front of their LFLF are not LF-only, and end there.
- Html5Client.Client.OnChunk: ASCII text only, since the browser counts UTF-16 units where the native parser counts bytes; the text decoder and its byte-order mark are not modelled.
- Html5Client.Client.ReadBody: the id the browser keeps for its own reconnects is not cut at NUL as the reported one is; the model has the reported one.
- JavaScanner.Scanner.ReadStream: lines stay bytes; their UTF-8 decoding and the Java copy of the line parser are not modelled. The buffered source (okio, not part of this repository) is modelled by its documented behaviour.
- ResponseReader.ParseResponseHeaders: a status of more digits than a C int holds is read as its mathematical value.
- Extension.SSEExtension.Disconnect: connections are a map from handle to connection, so the order of the connection array after an erase is not captured.
- Extension.SSEExtension.Connect: handles stay below the int32 limit, as the step Connect requires; wrap-around is not modelled.
- Lifecycle.NothingLostOrRepeated: events still queued when the application shuts down are dropped, as in the code, and are no part of any flushed window.
- Reaper.FreedOnceAfterExit: a worker thread that fails to start is not modelled; its object is freed by connect itself.
- Worker.WorkerGrammar: for the connection-pool adapter only; the libcurl write callback feeds bodies of other statuses too, so open-before-message is not promised there.
- Backoff.BackoffShape: stated while the 32-bit counter does not wrap.
- Sockets, TLS, the connection pool, libcurl, WinHTTP, OkHttp and fetch, beyond what they deliver and how they fail.
- URL parsing: host and path are inputs of the request.
- The Lua stack, option tables and event tables; a callback is the calls it makes.
- The connected flag and sse.is_connected, debug logging, error texts.
- JNI, the null adapter and the iOS adapter, which repeats the same parser.
- Memory allocation and its failures; strings are values.
- Real time and sleeping: the clock reading that gives the jitter is an input.
- Memory orders weaker than sequential consistency; the code uses the default order.
- Parsers without callbacks installed: all four callbacks are assumed present, as every adapter installs them.
- Full conformance to sections 9.2.5 and 9.2.6 of the WHATWG HTML Standard: lone CRs, NULs in ids, clamped retries and ids reported per event differ there.
