/** The event that is lost or kept depending on how a response with LF-only headers is received. */
module LostEvent {
  import opened Bytes
  import opened ParserModel
  import opened StreamSpec
  import opened Delivery
  import opened HeaderEnd
  import opened ResponseReader
  import opened ResponseHead
  import opened RoundTrip

  /** The message of a block with one data line. */
  lemma DataBlockOffers(e: Env, log: Log, value: ByteString)
    requires Printable(e, DATA_KEY, value) && |FieldLine(DATA_KEY, value)| < e.cap
    ensures Offers(Feed(e, Reset(log), FieldLine(DATA_KEY, value) + CRLFCRLF).core.log)
         == Offers(log) + [Message(MESSAGE, value, [], e.accept(log))]
  {
    hide Feed, Blocks, NameOf, FieldOf, CStr, Offers;
    var line := FieldLine(DATA_KEY, value);
    var block := [Field(Data, value)];
    DataLineReads(e, value);
    assert line + CRLFCRLF == (line + [CR]) + [LF] + ([CR] + [LF]);
    OneFieldBlock(e, line + [CR], [CR], Data, value);
    StreamOutcome(e, log, line + CRLFCRLF, []);
    DataBlockMeans(e, log, value);
  }

  lemma DataLineReads(e: Env, value: ByteString)
    requires Printable(e, DATA_KEY, value) && |FieldLine(DATA_KEY, value)| < e.cap
    ensures Classify(e, FieldLine(DATA_KEY, value) + [CR], true) == Field(Data, value)
    ensures Classify(e, [CR], false) == Blank
    ensures LF !in FieldLine(DATA_KEY, value) + [CR]
  {
    hide NameOf, FieldOf;
    var line := FieldLine(DATA_KEY, value);
    FieldLineCut(DATA_KEY, value);
    assert (line + [CR])[0] == 100;
    InitLast(line, CR);
    assert Init([CR]) == [];
    KeyNames();
  }

  lemma DataBlockMessage(value: ByteString, accepted: bool)
    requires NUL !in value
    ensures MessageOf([Field(Data, value)], accepted) == Message(MESSAGE, value, [], accepted)
  {
    hide CStr, Values;
    ValuesOne(Data, value, Data);
    ValuesOne(Data, value, ParserModel.Event);
    ValuesOne(Data, value, Id);
    CStrWhole(value);
    CStrWhole([]);
    CStrWhole(MESSAGE);
  }

  lemma DataBlockMeans(e: Env, log: Log, value: ByteString)
    requires NUL !in value && |value| < e.cap
    ensures var blocks, pos := [[Field(Data, value)]], Position(None, false, log);
            Announce(Deliverables(e, blocks), Answers(e, pos, blocks)) == [Message(MESSAGE, value, [], e.accept(log))]
  {
    hide CStr, Values, Immediate, MessageOf;
    var block := [Field(Data, value)];
    assert Init(block) == [] && Init([block]) == [];
    ValuesOne(Data, value, Data);
    UnsplitOne(value, LF);
    FieldsSilent(e, block);
    assert log + [] == log;
    DataBlockMessage(value, e.accept(log));
  }

  /** Received at once, everything up to the CRLFCRLF is taken for headers, and no body is left. */
  lemma TakenForHeaders(e: Env, m: Machine, head: ByteString, info: HeaderInfo, event: ByteString, turns: seq<Turn>)
    requires LFHead(head) && HeadersOf(head) == Some(info) && 200 <= info.status < 300
    requires LF !in event && |MixedResponse(head, event)| <= MAX_RECEIVE
    requires Pieces(turns) == [MixedResponse(head, event)]
    ensures ReadWhole(e, m, turns).hasOpened && ReadWhole(e, m, turns).machine == Report(m, Open(info.status))
  {
    hide Feed, HeadersOf, LFHead, ReadHeader, ReadBody, StableHeader, Pieces, Flatten;
    var response := MixedResponse(head, event);
    MixedHeaderEnds(head, event);
    FlattenOne(response);
    FirstLineDecides(head, [LF] + event);
    var text := response[..|response| - 4];
    assert text == head + [LF] + ([LF] + event);
    assert response[|response| - 4 + 4..] == [];
    NothingRead(e, Report(m, Open(info.status)), HeadersOf(text).value.chunked);
  }

  /** With the headers in a receive of their own, the body is read. */
  lemma ReadAsBody(e: Env, m: Machine, head: ByteString, info: HeaderInfo, event: ByteString, turns: seq<Turn>)
    requires LFHead(head) && HeadersOf(head) == Some(info) && 200 <= info.status < 300
    requires !info.chunked && LF !in event && |MixedResponse(head, event)| <= MAX_RECEIVE
    requires Pieces(turns) == [head + LFLF, event + CRLFCRLF]
    ensures ReadWhole(e, m, turns).hasOpened
    ensures ReadWhole(e, m, turns).machine == Feed(e, Report(m, Open(info.status)), event + CRLFCRLF)
  {
    hide Feed, HeadersOf, LFHead, ReadHeader, ReadBody, StableHeader, Pieces, Flatten;
    MixedHeaderEnds(head, event);
    FlattenPair(head + LFLF, event + CRLFCRLF);
    var all := (head + LFLF) + (event + CRLFCRLF);
    assert all[..|head|] == head && all[|head| + 2..] == event + CRLFCRLF;
    PlainRead(e, Report(m, Open(info.status)), event + CRLFCRLF);
  }

  /**
   LF-only headers and one event with CRLF lines: received at once, the response opens and offers nothing;
   with the headers in a receive of their own, it opens and offers its event.
   */
  lemma LosesEvent(e: Env, log: Log, head: ByteString, info: HeaderInfo, value: ByteString,
                   atOnce: seq<Turn>, apart: seq<Turn>)
    requires LFHead(head) && HeadersOf(head) == Some(info) && 200 <= info.status < 300
    requires !info.chunked && Printable(e, DATA_KEY, value) && |FieldLine(DATA_KEY, value)| < e.cap
    requires var event := FieldLine(DATA_KEY, value);
             && |MixedResponse(head, event)| <= MAX_RECEIVE
             && Pieces(atOnce) == [MixedResponse(head, event)]
             && Pieces(apart) == [head + LFLF, event + CRLFCRLF]
    ensures var lost, kept := ReadWhole(e, Reset(log), atOnce), ReadWhole(e, Reset(log), apart);
            && lost.hasOpened && Offers(lost.machine.core.log) == Offers(log)
            && kept.hasOpened && Offers(kept.machine.core.log)
               == Offers(log) + [Message(MESSAGE, value, [], e.accept(log + [Open(info.status)]))]
  {
    hide Feed, HeadersOf, LFHead, ReadWhole, Offers, MixedResponse, Pieces;
    var event := FieldLine(DATA_KEY, value);
    TakenForHeaders(e, Reset(log), head, info, event, atOnce);
    ReadAsBody(e, Reset(log), head, info, event, apart);
    OffersSnoc(log, Open(info.status));
    DataBlockOffers(e, log + [Open(info.status)], value);
  }

  lemma NothingRead(e: Env, m: Machine, chunked: bool)
    ensures ReadBody(e, m, chunked, []).0 == m
  {
  }

  lemma PlainRead(e: Env, m: Machine, body: ByteString)
    ensures ReadBody(e, m, false, body) == (Feed(e, m, body), None)
  {
  }

  /** "cache-control: none" */
  const CACHE_LINE: ByteString :=
    [99, 97, 99, 104, 101, 45, 99, 111, 110, 116, 114, 111, 108, 58, 32, 110, 111, 110, 101]

  /** "HTTP/1.1 200 OK" and a header line, with an LF between them. */
  const TWO_LINES: ByteString := OK_HEAD + [LF] + CACHE_LINE

  lemma TwoLinesHead()
    ensures LFHead(TWO_LINES) && HeadersOf(TWO_LINES) == Some(HeaderInfo(200, false))
  {
    hide HeadersOf, LFHead, SaysChunked, StripCR;
    UnsplitPair(OK_HEAD, CACHE_LINE, LF);
    assert TWO_LINES + [LF] == Unsplit([OK_HEAD, CACHE_LINE], LF);
    OkHead();
    OkHeadLine();
    LFLinesAreHead([OK_HEAD, CACHE_LINE], TWO_LINES);
    FirstLineDecides(OK_HEAD, CACHE_LINE);
    OneChunkedLine(OK_HEAD, CACHE_LINE);
  }

  lemma OkHeadLine()
    ensures OK_HEAD != [] && LF !in OK_HEAD && CR !in OK_HEAD
    ensures CACHE_LINE != [] && LF !in CACHE_LINE && CR !in CACHE_LINE
    ensures !SaysChunked(StripCR(CACHE_LINE))
  {
    hide Find;
    assert LowerASCII(CACHE_LINE)[0] == 99 && TRANSFER_ENCODING[0] == 116;
  }

  /** Of two header lines, the second decides the coding. */
  lemma OneChunkedLine(first: ByteString, second: ByteString)
    requires LF !in first && LF !in second && second != []
    ensures var info := HeadersOf(first + [LF] + second);
            info.Some? ==> info.value.chunked == SaysChunked(StripCR(second))
  {
    hide SaysChunked, StripCR, ScanStatus, IndexOf, CStr;
    var text := first + [LF] + second;
    assert text[..|first|] == first && text[|first| + 1..] == second;
    FirstIndex(text, LF, |first|);
    NotBefore(second, LF, |second|);
    assert second[..|second|] == second;
  }

  /** "HTTP/1.1 200 OK", LF, a header line, two LFs, "data: a", CRLF, CRLF: in one receive, and in two. */
  lemma LostEventExample(e: Env)
    requires e.cap >= 8
    ensures var event: ByteString := [100, 97, 116, 97, 58, 32, 97];
            var lost := ReadWhole(e, Reset([]), [Got(MixedResponse(TWO_LINES, event)), EndOfStream]);
            var kept := ReadWhole(e, Reset([]), [Got(TWO_LINES + LFLF), Got(event + CRLFCRLF), EndOfStream]);
            && Offers(lost.machine.core.log) == []
            && Offers(kept.machine.core.log) == [Message(MESSAGE, [97], [], e.accept([Open(200)]))]
  {
    hide ReadWhole, HeadersOf, LFHead, Pieces;
    var event: ByteString := [100, 97, 116, 97, 58, 32, 97];
    assert event == FieldLine(DATA_KEY, [97]);
    TwoLinesHead();
    var atOnce, apart :=
      [Got(MixedResponse(TWO_LINES, event)), EndOfStream],
      [Got(TWO_LINES + LFLF), Got(event + CRLFCRLF), EndOfStream];
    OnePiece(MixedResponse(TWO_LINES, event));
    TwoPieces(TWO_LINES + LFLF, event + CRLFCRLF);
    assert [] + [Open(200)] == [Open(200)];
    LosesEvent(e, [], TWO_LINES, HeaderInfo(200, false), [97], atOnce, apart);
  }
}
