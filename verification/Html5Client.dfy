/**
 The browser adapter: a second parser, which takes decoded text chunk by chunk, splits it at LF itself and
 keeps its ids as strings that may be null. On ASCII text it stays coupled to the byte-driven parser: at
 every chunk boundary both have made the same reports, under the same answers of the queue.
 */
module Html5Client {
  import opened Bytes
  import opened ParserModel
  import RoundTrip

  predicate Ascii(s: ByteString) {
    forall c :: c in s ==> c < 128
  }

  class Client {
    const e: Env
    var data: ByteString
    var eventName: ByteString
    var eventId: ByteString
    var hasId: bool
    var pendingLastEventId: Option<ByteString>
    var pendingAtBlockStart: Option<ByteString>
    var dropObserved: bool
    var eventPoisoned: bool
    var discardLine: bool
    var pending: ByteString
    var log: Log

    constructor (e: Env)
      ensures this.e == e && Coupled(ParserModel.Reset([]))
    {
      this.e := e;
      data, eventName, eventId, hasId := [], [], [], false;
      pendingLastEventId, pendingAtBlockStart := None, None;
      dropObserved, eventPoisoned, discardLine := false, false, false;
      pending, log := [], [];
    }

    // ---------- the coupling ----------

    /** The block being read means the same to both parsers. */
    ghost predicate CoupledCore(c: Core)
      reads this`data, this`eventName, this`eventId, this`hasId, this`pendingLastEventId
      reads this`pendingAtBlockStart, this`dropObserved, this`eventPoisoned, this`log
    {
      && log == c.log
      && data == c.b.data && (data == [] || EndsWith(data, LF))
      && (c.b.eventPoisoned || eventName == c.b.event)
      && hasId == c.b.hasId && (hasId ==> eventId == c.b.id && c.b.hasIdEver)
      && pendingLastEventId == (if c.b.hasIdEver then Some(c.b.id) else None)
      && pendingAtBlockStart == (if c.b.hasIdEverAtBlockStart then Some(c.b.idAtBlockStart) else None)
      && dropObserved == c.b.dropObserved && eventPoisoned == c.b.eventPoisoned
      && (eventPoisoned ==> !hasId)
    }

    /** At a chunk boundary the unfinished lines agree, unless both are dropping an over-long one. */
    ghost predicate Coupled(m: Machine)
      reads this
    {
      && CoupledCore(m.core)
      && discardLine == m.discardingLine
      && m.line == (if discardLine then [] else pending)
      && |pending| <= e.cap && LF !in pending && Ascii(pending)
    }

    // ---------- one block ----------

    method ResetEvent()
      modifies this`data, this`eventName, this`eventId, this`hasId, this`pendingAtBlockStart
      ensures data == [] && eventName == [] && eventId == [] && !hasId && pendingAtBlockStart == pendingLastEventId
    {
      data := [];
      eventName := [];
      eventId := [];
      hasId := false;
      pendingAtBlockStart := pendingLastEventId;
    }

    method Poison(kind: FaultKind, ghost c: Core)
      requires CoupledCore(c)
      modifies this
      ensures CoupledCore(ParserModel.Poison(c, kind))
      ensures discardLine == old(discardLine) && pending == old(pending)
    {
      log := log + [Fault(kind)];
      pendingLastEventId := pendingAtBlockStart;
      ResetEvent();
      eventPoisoned := true;
    }

    method ProcessLine(raw: ByteString, ghost c: Core)
      requires CoupledCore(c)
      modifies this
      ensures CoupledCore(ProcessText(e, c, StripCR(raw)))
      ensures discardLine == old(discardLine) && pending == old(pending)
    {
      var line := if EndsWith(raw, CR) then Init(raw) else raw;
      if line == [] {
        Dispatch(c);
        return;
      }
      if eventPoisoned {
        return;
      }
      if line[0] == COLON {
        return;
      }
      var colon := IndexOf(line, COLON);
      var field := if colon == |line| then line else line[..colon];
      var value := if colon == |line| then [] else line[colon + 1..];
      if value != [] && value[0] == SPACE {
        value := value[1..];
      }
      assert (NameOf(field), value) == FieldOf(line);
      ProcessField(NameOf(field), value, c);
    }

    method ProcessField(name: FieldName, value: ByteString, ghost c: Core)
      requires CoupledCore(c) && !eventPoisoned
      modifies this
      ensures CoupledCore(ParserModel.ProcessField(e, c, name, value))
      ensures discardLine == old(discardLine) && pending == old(pending)
    {
      match name
      case Data =>
        if |data| + |value| + 1 > e.cap {
          Poison(DataTooLong, c);
          return;
        }
        data := data + value + [LF];
      case Event =>
        eventName := value;
      case Id =>
        eventId := value;
        hasId := true;
        pendingLastEventId := Some(value);
      case RetryTime =>
        if value != [] && AllDigits(value) {
          var parsed := DecimalValue(value);
          if parsed < RETRY_MIN_MS {
            parsed := RETRY_MIN_MS;
          }
          if parsed > RETRY_MAX_MS {
            parsed := RETRY_MAX_MS;
          }
          log := log + [Retry(parsed)];
        }
      case Unknown =>
    }

    method Dispatch(ghost c: Core)
      requires CoupledCore(c)
      modifies this
      ensures CoupledCore(ParserModel.Dispatch(e, c))
      ensures discardLine == old(discardLine) && pending == old(pending)
    {
      hide CStr;
      if eventPoisoned {
        eventPoisoned := false;
        ResetEvent();
        return;
      }
      if data == [] {
        if hasId && !dropObserved && pendingLastEventId.Some? {
          log := log + [Commit(CStr(pendingLastEventId.value))];
        }
        ResetEvent();
        return;
      }
      OfferEvent(c);
      ResetEvent();
    }

    /** callMessage, and what follows from its answer. */
    method OfferEvent(ghost c: Core)
      requires CoupledCore(c) && !eventPoisoned && data != [] && EndsWith(data, LF)
      modifies this`log, this`pendingLastEventId, this`dropObserved
      ensures var (delivered, after) := OnParserEvent(e, c.log, EventToOffer(c.b));
              && log == after
              && pendingLastEventId == (if delivered then old(pendingLastEventId) else pendingAtBlockStart)
              && dropObserved == (old(dropObserved) || !delivered)
    {
      hide CStr;
      var enqueued := e.accept(log);
      log := log + [Message(CStr(if eventName != [] then eventName else MESSAGE), CStr(Init(data)),
                            CStr(if hasId then eventId else []), enqueued)];
      if enqueued {
        if !dropObserved && pendingLastEventId.Some? {
          log := log + [Commit(CStr(pendingLastEventId.value))];
        }
      } else {
        pendingLastEventId := pendingAtBlockStart;
        dropObserved := true;
      }
    }

    // ---------- chunks ----------

    /** A line an LF ended. */
    method OnLine(line: ByteString, ghost m: Machine)
      requires CoupledCore(m.core) && discardLine == m.discardingLine
      requires m.line == [] && LF !in line && Ascii(line)
      modifies this
      ensures var after := Feed(e, m, line + [LF]);
              CoupledCore(after.core) && after.line == [] && discardLine == after.discardingLine
      ensures pending == old(pending)
    {
      hide Feed, ProcessText, CoupledCore, ParserModel.Poison;
      WholeLine(e, m, line);
      if discardLine {
        discardLine := false;
      } else if |line| > e.cap {
        Poison(LineTooLong, m.core);
      } else {
        ProcessLine(line, m.core);
      }
    }

    /** One decoded chunk: the text held back, cut into lines, each in turn. */
    method OnChunk(chunk: ByteString, ghost m: Machine)
      requires Coupled(m) && Ascii(chunk)
      modifies this
      ensures Coupled(Feed(e, m, chunk))
    {
      hide Feed, CoupledCore, Split, Unsplit, ParserModel.Poison;
      var text := pending + chunk;
      var (lines, rest) := Split(text, LF);
      HeldBack(e, m, pending, chunk);
      ghost var start := m.(line := []);
      SplitAscii(text);
      pending := rest;
      FeedNothing(e, start);
      assert Unsplit(lines[..0], LF) == [] by {
        UnsplitNothing();
      }
      for i := 0 to |lines|
        invariant pending == rest
        invariant var now := Feed(e, start, Unsplit(lines[..i], LF));
                  CoupledCore(now.core) && now.line == [] && discardLine == now.discardingLine
      {
        ghost var now := Feed(e, start, Unsplit(lines[..i], LF));
        assert lines[i] in lines;
        FeedAppend(e, start, Unsplit(lines[..i], LF), lines[i] + [LF]);
        UnsplitNext(lines, i);
        OnLine(lines[i], now);
      }
      assert lines[..|lines|] == lines;
      FeedAppend(e, start, Unsplit(lines, LF), rest);
      ghost var now := Feed(e, start, Unsplit(lines, LF));
      WithinLine(e, now, rest);
      if |pending| > e.cap {
        if !discardLine {
          Poison(LineTooLong, now.core);
          discardLine := true;
        }
        pending := [];
      }
    }

    /**
     The end of the stream, with what the text decoder still held. Here the two differ: the browser adapter
     processes an unfinished line as if an LF followed it, the byte-driven parser never sees it.
     */
    method OnEnd(flushed: ByteString, ghost m: Machine)
      requires Coupled(m) && Ascii(flushed) && LF !in flushed
      modifies this
      ensures log == Ended(e, m, flushed).core.log
    {
      hide Feed, FeedByte, ParserModel.Poison, ProcessText;
      pending := pending + flushed;
      HeldBack(e, m, old(pending), flushed + [LF]);
      assert old(pending) + (flushed + [LF]) == pending + [LF];
      WholeLine(e, m.(line := []), pending);
      if pending != [] && !discardLine {
        if |pending| > e.cap {
          Poison(LineTooLong, m.core);
        } else {
          ProcessLine(pending, m.core);
        }
      }
    }

    /**
     The read loop over a whole body: the chunks read before the client was stopped, then the tail. However the
     text was cut into chunks, the reports are those of the byte-driven parser, plus those of the tail line.
     */
    method ReadBody(chunks: seq<ByteString>, stopped: nat -> bool, flushed: ByteString) returns (read: nat)
      requires Coupled(ParserModel.Reset([]))
      requires forall chunk :: chunk in chunks ==> Ascii(chunk)
      requires Ascii(flushed) && LF !in flushed
      modifies this
      ensures read <= |chunks| && (read < |chunks| ==> stopped(read)) && (forall k :: 0 <= k < read ==> !stopped(k))
      ensures log == Ended(e, Feed(e, ParserModel.Reset([]), Flatten(chunks[..read])), flushed).core.log
    {
      hide Feed, CoupledCore;
      ghost var m := ParserModel.Reset([]);
      read := 0;
      FeedNothing(e, m);
      while read < |chunks| && !stopped(read)
        invariant read <= |chunks| && forall k :: 0 <= k < read ==> !stopped(k)
        invariant m == Feed(e, ParserModel.Reset([]), Flatten(chunks[..read])) && Coupled(m)
      {
        assert Init(chunks[..read + 1]) == chunks[..read];
        FeedAppend(e, ParserModel.Reset([]), Flatten(chunks[..read]), chunks[read]);
        OnChunk(chunks[read], m);
        m := Feed(e, m, chunks[read]);
        read := read + 1;
      }
      OnEnd(flushed, m);
    }
  }

  // ---------- the byte-driven parser over whole lines ----------

  /** ASCII text has no byte-order mark. */
  lemma AsciiLine(raw: ByteString, first: bool)
    requires Ascii(raw)
    ensures LineText(raw, first) == StripCR(raw)
  {
    assert raw != [] ==> raw[0] in raw;
    assert BOM[0] == 0xEF;
  }

  lemma UnsplitNothing()
    ensures Unsplit([], LF) == []
  {
  }

  lemma UnsplitNext(lines: seq<ByteString>, i: nat)
    requires i < |lines|
    ensures Unsplit(lines[..i + 1], LF) == Unsplit(lines[..i], LF) + (lines[i] + [LF])
  {
    assert Init(lines[..i + 1]) == lines[..i];
  }

  lemma {:induction false} WithinLine(e: Env, m: Machine, run: ByteString)
    requires m.line == [] && LF !in run
    ensures Feed(e, m, run)
         == if m.discardingLine then m
            else if |run| > e.cap then m.(discardingLine := true, core := Poison(m.core, LineTooLong))
            else m.(line := run)
  {
    if run != [] {
      WithinLine(e, m, Init(run));
      assert Last(run) in run;
      assert run == Init(run) + [Last(run)];
    }
  }

  lemma WholeLine(e: Env, m: Machine, raw: ByteString)
    requires m.line == [] && LF !in raw && Ascii(raw)
    ensures var after := Feed(e, m, raw + [LF]);
            && after.line == [] && !after.discardingLine
            && after.core == if m.discardingLine then m.core
                             else if |raw| > e.cap then Poison(m.core, LineTooLong)
                             else ProcessText(e, m.core, StripCR(raw))
  {
    hide ProcessText;
    WithinLine(e, m, raw);
    AsciiLine(raw, m.firstLine);
    InitLast(raw, LF);
  }

  /** Text held back and fed again from the start of its line. */
  lemma HeldBack(e: Env, m: Machine, pending: ByteString, chunk: ByteString)
    requires |pending| <= e.cap && LF !in pending
    requires m.line == if m.discardingLine then [] else pending
    ensures Feed(e, m, chunk) == Feed(e, m.(line := []), pending + chunk)
  {
    hide FeedByte;
    WithinLine(e, m.(line := []), pending);
    FeedAppend(e, m.(line := []), pending, chunk);
  }

  lemma {:induction false} UnsplitMembers(pieces: seq<ByteString>, c: byte)
    ensures forall piece :: piece in pieces && c in piece ==> c in Unsplit(pieces, LF)
  {
    if pieces != [] {
      UnsplitMembers(Init(pieces), c);
      assert forall piece :: piece in pieces ==> piece in Init(pieces) || piece == Last(pieces);
    }
  }

  lemma SplitAscii(text: ByteString)
    requires Ascii(text)
    ensures Ascii(Split(text, LF).1) && forall line :: line in Split(text, LF).0 ==> Ascii(line)
  {
    var (lines, rest) := Split(text, LF);
    assert Unsplit(lines, LF) + rest == text;
    forall c | c in rest
      ensures c < 128
    {
      assert c in text;
    }
    forall line, c | line in lines && c in line
      ensures c < 128
    {
      UnsplitMembers(lines, c);
      assert c in text;
    }
  }

  // ---------- the end of the stream ----------

  /** The browser's reports at the end of the stream, as those of the byte-driven parser: an LF ends its last line. */
  function Ended(e: Env, m: Machine, flushed: ByteString): Machine {
    if m.discardingLine || m.line + flushed == [] then m else Feed(e, m, flushed + [LF])
  }

  /** A line that would still report something: a blank one that ends a block, a retry, or data that overflows. */
  predicate LineReports(e: Env, m: Machine, raw: ByteString) {
    var b, text := m.core.b, LineText(raw, m.firstLine);
    !b.eventPoisoned &&
    if text == [] then b.data != [] || (b.hasId && !b.dropObserved)
    else
      text[0] != COLON &&
      var (name, value) := FieldOf(text);
      (name == RetryTime && RetryOf(value).Some?) || (name == Data && |b.data| + |value| + 1 > e.cap)
  }

  /** Between bytes, the line being read fits and holds no LF. */
  predicate ReadingLine(e: Env, m: Machine) {
    |m.line| <= e.cap && LF !in m.line && (m.discardingLine ==> m.line == [])
  }

  lemma {:induction false} FeedReadsLine(e: Env, m: Machine, bytes: ByteString)
    requires ReadingLine(e, m)
    ensures ReadingLine(e, Feed(e, m, bytes))
  {
    hide ParserModel.ProcessLine, ParserModel.Poison;
    if bytes != [] {
      FeedReadsLine(e, m, Init(bytes));
    }
  }

  /** An unfinished line, ended: nothing but its own reports are added. */
  lemma LineEnded(e: Env, m: Machine, flushed: ByteString)
    requires ReadingLine(e, m) && !m.discardingLine && LF !in flushed
    ensures var raw := m.line + flushed;
            Feed(e, m, flushed + [LF]).core
            == if |raw| > e.cap then Poison(m.core, LineTooLong)
               else ProcessText(e, m.core, LineText(raw, m.firstLine))
  {
    hide ProcessText, LineText, ParserModel.Poison;
    var raw := m.line + flushed;
    HeldBack(e, m, m.line, flushed + [LF]);
    assert m.line + (flushed + [LF]) == raw + [LF];
    WithinLine(e, m.(line := []), raw);
    InitLast(raw, LF);
  }

  lemma TextReportsIff(e: Env, m: Machine, raw: ByteString)
    ensures ProcessText(e, m.core, LineText(raw, m.firstLine)).log != m.core.log <==> LineReports(e, m, raw)
  {
    hide CStr, LineText, FieldOf, RetryOf, EventToOffer;
  }

  /**
   When the two adapters differ at the end of a stream, whatever was received and flushed: exactly if an unfinished
   line is left that is not being discarded, not empty, and too long or one that reports something.
   */
  lemma TailReportsIff(e: Env, received: ByteString, flushed: ByteString)
    requires LF !in flushed
    ensures var m := Feed(e, ParserModel.Reset([]), received);
            var raw := m.line + flushed;
            Ended(e, m, flushed).core.log != m.core.log
            <==> !m.discardingLine && raw != [] && (|raw| > e.cap || LineReports(e, m, raw))
  {
    hide Feed, LineReports, ProcessText, LineText;
    var m := Feed(e, ParserModel.Reset([]), received);
    FeedReadsLine(e, ParserModel.Reset([]), received);
    if !m.discardingLine {
      LineEnded(e, m, flushed);
      TextReportsIff(e, m, m.line + flushed);
    }
  }

  const RETRY_KEY: ByteString := [114, 101, 116, 114, 121]

  lemma RetryKey()
    ensures NameOf(RETRY_KEY) == RetryTime && COLON !in RETRY_KEY
  {
  }

  lemma DigitsEndLine(line: ByteString, first: bool)
    requires line != [] && line[0] < 128 && Last(line) != CR
    ensures LineText(line, first) == line
  {
  }

  /**
   A retry field cut off anywhere in its digits, behind anything: the browser sets the delay to what is left of
   them, the byte-driven parser reports nothing.
   */
  lemma CutRetryReports(e: Env, received: ByteString, digits: ByteString)
    requires digits != [] && AllDigits(digits)
    requires var m := Feed(e, ParserModel.Reset([]), received);
             m.line == RoundTrip.FieldLine(RETRY_KEY, digits) && !m.core.b.eventPoisoned
    ensures var m := Feed(e, ParserModel.Reset([]), received);
            Ended(e, m, []).core.log == m.core.log + [Retry(ClampRetry(DecimalValue(digits)))]
  {
    hide Feed, LineText, FieldOf, NameOf, DecimalValue, ClampRetry, CStr;
    var m := Feed(e, ParserModel.Reset([]), received);
    FeedReadsLine(e, ParserModel.Reset([]), received);
    assert Last(m.line) == Last(digits) && Last(digits) in digits;
    DigitsEndLine(m.line, m.firstLine);
    RetryKey();
    RoundTrip.FieldLineCut(RETRY_KEY, digits);
    LineEnded(e, m, []);
    assert m.line + [] == m.line;
  }

  /** "retry: 12" of "retry: 12000": the browser takes a delay of 1000 ms from it, the native parser none. */
  lemma CutRetryExample(e: Env)
    requires e.cap >= 9
    ensures var m := Feed(e, ParserModel.Reset([]), [114, 101, 116, 114, 121, 58, 32, 49, 50]);
            m.core.log == [] && Ended(e, m, []).core.log == [Retry(1000)]
  {
    hide Feed, Ended;
    var received: ByteString := [114, 101, 116, 114, 121, 58, 32, 49, 50];
    var digits: ByteString := [49, 50];
    WithinLine(e, ParserModel.Reset([]), received);
    assert received == RoundTrip.FieldLine(RETRY_KEY, digits);
    CutRetryReports(e, received, digits);
    assert Init(digits) == [49] && DecimalValue([49]) == 1 && DecimalValue(digits) == 12;
  }
}
