/** The parser and its adapter as the objects the client updates in place. */
module SseParser {
  import opened Bytes
  import opened ParserModel

  /** The resume position a log leaves behind: its last commit. */
  function Resume(initial: ByteString, log: Log): ByteString {
    if log == [] then initial
    else if Last(log).Commit? then Last(log).id
    else Resume(initial, Init(log))
  }

  /** The reconnect delay a log leaves behind: its last valid retry field. */
  function RetryDelay(initial: int, log: Log): int {
    if log == [] then initial
    else if Last(log).Retry? then Last(log).ms
    else RetryDelay(initial, Init(log))
  }

  /** The connection's side of the parser callbacks. */
  class Connection {
    const e: Env
    ghost const initialId: ByteString
    ghost const initialRetry: int
    var lastEventId: ByteString
    var retryMS: int
    var status: int
    var hasOpened: bool
    var log: Log  // every call that left the connection, in order

    /** The two stored values are the ones the log left behind. */
    ghost predicate Valid()
      reads this
    {
      lastEventId == Resume(initialId, log) && retryMS == RetryDelay(initialRetry, log)
    }

    constructor (e: Env, lastEventId: ByteString, retryMS: int)
      ensures Valid() && log == [] && this.e == e && this.lastEventId == lastEventId && this.retryMS == retryMS
      ensures initialId == lastEventId && initialRetry == retryMS
    {
      this.e, this.log := e, [];
      this.lastEventId, this.initialId := lastEventId, lastEventId;
      this.retryMS, this.initialRetry := retryMS, retryMS;
      this.status, this.hasOpened := 0, false;
    }

    method Report(action: Action)
      requires Valid() && !action.Commit? && !action.Retry?
      modifies this`log
      ensures Valid() && log == old(log) + [action]
    {
      log := log + [action];
      assert Init(log) == old(log);
    }

    method OnParserEvent(event: ParsedEvent) returns (enqueued: bool)
      requires Valid()
      modifies this`log, this`lastEventId
      ensures Valid()
      ensures (enqueued, log) == ParserModel.OnParserEvent(e, old(log), event)
    {
      enqueued := e.accept(log);
      Report(Message(event.name, event.data, event.id, enqueued));
      if enqueued && event.lastEventId.Some? {
        OnParserId(event.lastEventId.value);
      }
    }

    method OnParserId(id: ByteString)
      requires Valid()
      modifies this`log, this`lastEventId
      ensures Valid() && log == old(log) + [Commit(id)] && lastEventId == id
    {
      lastEventId := id;
      log := log + [Commit(id)];
      assert Init(log) == old(log);
    }

    method OnParserRetry(ms: int)
      requires Valid()
      modifies this`log, this`retryMS
      ensures Valid() && log == old(log) + [Retry(ms)] && retryMS == ms
    {
      retryMS := ms;
      log := log + [Retry(ms)];
      assert Init(log) == old(log);
    }

    method OnParserError(kind: FaultKind)
      requires Valid()
      modifies this`log
      ensures Valid() && log == old(log) + [Fault(kind)]
    {
      Report(Fault(kind));
    }
  }

  /** strtol on a row of digits: its value, and whether it left the range of long. */
  function Strtol(value: ByteString): (r: (int, bool))
    requires AllDigits(value)
    ensures !r.1 ==> r.0 == DecimalValue(value)
    ensures r.1 ==> DecimalValue(value) > RETRY_MAX_MS
  {
    if DecimalValue(value) > LONG_MAX then (LONG_MAX, true) else (DecimalValue(value), false)
  }

  class SSEParser {
    var line: ByteString
    var data: ByteString
    var event: ByteString
    var id: ByteString
    var idAtBlockStart: ByteString
    var hasId: bool
    var hasIdEver: bool
    var hasIdEverAtBlockStart: bool
    var dropObserved: bool
    var firstLine: bool
    var discardingLine: bool
    var eventPoisoned: bool

    ghost function Block(): BlockState
      reads this
    {
      BlockState(data, event, id, idAtBlockStart, hasId, hasIdEver, hasIdEverAtBlockStart, dropObserved, eventPoisoned)
    }

    /** The parser together with what has been reported through the connection. */
    ghost function View(connection: Connection): Machine
      reads this, connection
    {
      Machine(line, discardingLine, firstLine, Core(Block(), connection.log))
    }

    ghost predicate IsReset()
      reads this
    {
      line == [] && !discardingLine && firstLine && Block() == FRESH_BLOCK
    }

    lemma ResetView(connection: Connection)
      requires IsReset()
      ensures View(connection) == ParserModel.Reset(connection.log)
    {
    }

    constructor ()
      ensures IsReset()
    {
      new;
      Reset();
    }

    method Reset()
      modifies this
      ensures IsReset()
    {
      line, data, event, id, idAtBlockStart := [], [], [], [], [];
      hasId, hasIdEver, hasIdEverAtBlockStart, dropObserved := false, false, false, false;
      firstLine, discardingLine, eventPoisoned := true, false, false;
    }

    method PoisonEvent()
      modifies this
      ensures Block() == ParserModel.PoisonEvent(old(Block()))
      ensures unchanged(`line) && unchanged(`discardingLine) && unchanged(`firstLine)
    {
      data := [];
      hasId := false;
      eventPoisoned := true;
      id := idAtBlockStart;
      hasIdEver := hasIdEverAtBlockStart;
    }

    method Feed(bytes: ByteString, connection: Connection)
      requires connection.Valid()
      modifies this, connection`log, connection`lastEventId, connection`retryMS
      ensures connection.Valid()
      ensures View(connection) == ParserModel.Feed(connection.e, old(View(connection)), bytes)
    {
      ghost var start := View(connection);
      for i := 0 to |bytes|
        invariant connection.Valid()
        invariant View(connection) == ParserModel.Feed(connection.e, start, bytes[..i])
      {
        assert Init(bytes[..i + 1]) == bytes[..i];
        FeedOne(bytes[i], connection);
      }
      assert bytes[..|bytes|] == bytes;
    }

    method FeedOne(c: byte, connection: Connection)
      requires connection.Valid()
      modifies this, connection`log, connection`lastEventId, connection`retryMS
      ensures connection.Valid()
      ensures View(connection) == FeedByte(connection.e, old(View(connection)), c)
    {
      if c == LF {
        if discardingLine {
          discardingLine := false;
          line := [];
        } else {
          ProcessLine(line, connection);
          line := [];
        }
      } else if discardingLine {
        // the rest of an over-long line
      } else {
        line := line + [c];
        if |line| > connection.e.cap {
          connection.OnParserError(LineTooLong);
          line := [];
          discardingLine := true;
          PoisonEvent();
        }
      }
    }

    method ProcessLine(raw: ByteString, connection: Connection)
      requires connection.Valid()
      modifies this, connection`log, connection`lastEventId, connection`retryMS
      ensures connection.Valid()
      ensures View(connection) == ParserModel.ProcessLine(connection.e, old(View(connection)), raw)
    {
      var text := StripLine(raw);
      if text == [] {
        Dispatch(connection);
        return;
      }
      if eventPoisoned {
        return;
      }
      if text[0] == COLON {
        return;
      }
      var field, value := CutField(text);
      ProcessField(NameOf(field), value, connection);
    }

    method StripLine(raw: ByteString) returns (text: ByteString)
      modifies this`firstLine
      ensures !firstLine && text == LineText(raw, old(firstLine))
    {
      text := raw;
      if firstLine {
        firstLine := false;
        if |text| >= 3 && text[0] == 0xEF && text[1] == 0xBB && text[2] == 0xBF {
          text := text[3..];
        }
      }
      if text != [] && text[|text| - 1] == CR {
        text := text[..|text| - 1];
      }
    }

    method CutField(text: ByteString) returns (field: ByteString, value: ByteString)
      ensures (NameOf(field), value) == FieldOf(text)
    {
      var colon := IndexOf(text, COLON);
      field, value := text, [];
      if colon < |text| {
        field, value := text[..colon], text[colon + 1..];
        if value != [] && value[0] == SPACE {
          value := value[1..];
        }
      }
    }

    method ProcessField(name: FieldName, value: ByteString, connection: Connection)
      requires connection.Valid()
      modifies this, connection`log, connection`retryMS
      ensures connection.Valid()
      ensures Core(Block(), connection.log)
           == ParserModel.ProcessField(connection.e, old(Core(Block(), connection.log)), name, value)
      ensures unchanged(`line) && unchanged(`discardingLine) && unchanged(`firstLine)
    {
      match name
      case Data =>
        if |data| + |value| + 1 > connection.e.cap {
          connection.OnParserError(DataTooLong);
          PoisonEvent();
          return;
        }
        data := data + value;
        data := data + [LF];
        assert data == old(data) + value + [LF];
      case Event =>
        event := value;
      case Id =>
        id := value;
        hasId := true;
        hasIdEver := true;
      case RetryTime =>
        var valid := value != [];
        for i := 0 to |value|
          invariant valid ==> value != [] && AllDigits(value[..i])
        {
          if !IsDigit(value[i]) {
            valid := false;
            break;
          }
          assert value[..i + 1] == value[..i] + [value[i]];
        }
        assert value[..|value|] == value;
        assert valid == (value != [] && AllDigits(value));
        if valid {
          var (parsed, erange) := Strtol(value);
          if erange || parsed > RETRY_MAX_MS {
            parsed := RETRY_MAX_MS;
          }
          if parsed < RETRY_MIN_MS {
            parsed := RETRY_MIN_MS;
          }
          connection.OnParserRetry(parsed);
        }
      case Unknown =>
    }

    method Dispatch(connection: Connection)
      requires connection.Valid()
      modifies this, connection`log, connection`lastEventId
      ensures connection.Valid()
      ensures Core(Block(), connection.log) == ParserModel.Dispatch(connection.e, old(Core(Block(), connection.log)))
      ensures unchanged(`line) && unchanged(`discardingLine) && unchanged(`firstLine)
    {
      hide CStr, EventToOffer, Resume, RetryDelay;
      if eventPoisoned {
        eventPoisoned := false;
      } else if data == [] {
        if hasId && !dropObserved {
          connection.OnParserId(CStr(id));
        }
      } else {
        var _ := OfferEvent(connection);
      }
      StartBlock();
    }

    method StartBlock()
      modifies this
      ensures Block() == ParserModel.StartBlock(old(Block()))
      ensures unchanged(`line) && unchanged(`discardingLine) && unchanged(`firstLine)
    {
      data := [];
      event := [];
      hasId := false;
      idAtBlockStart := id;
      hasIdEverAtBlockStart := hasIdEver;
    }

    method OfferEvent(connection: Connection) returns (delivered: bool)
      requires connection.Valid() && data != []
      modifies this`data, this`id, this`hasIdEver, this`dropObserved, connection`log, connection`lastEventId
      ensures connection.Valid()
      ensures (delivered, connection.log)
           == ParserModel.OnParserEvent(connection.e, old(connection.log), old(EventToOffer(Block())))
      ensures id == if delivered then old(id) else idAtBlockStart
      ensures hasIdEver == if delivered then old(hasIdEver) else hasIdEverAtBlockStart
      ensures dropObserved == (!delivered || old(dropObserved))
    {
      hide CStr, EventToOffer, Resume, RetryDelay;
      var parsed := BuildEvent();
      delivered := connection.OnParserEvent(parsed);
      if !delivered {
        id := idAtBlockStart;
        hasIdEver := hasIdEverAtBlockStart;
        dropObserved := true;
      }
    }

    method BuildEvent() returns (parsed: ParsedEvent)
      requires data != []
      modifies this`data
      ensures parsed == old(EventToOffer(Block()))
    {
      hide CStr;
      if data[|data| - 1] == LF {
        data := data[..|data| - 1];
      }
      parsed := ParsedEvent(
        CStr(if event == [] then MESSAGE else event),
        CStr(data),
        CStr(if hasId then id else []),
        if hasIdEver && !dropObserved then Some(CStr(id)) else None);
    }
  }
}
