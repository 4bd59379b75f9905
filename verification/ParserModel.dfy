/**
 The event-stream parser on values: its fields, and what each of its operations makes of them.
 A Machine pairs the parser with everything the client has reported so far. The queue may take or
 refuse any event, so its answer is an arbitrary function of the reports before it.
 */
module ParserModel {
  import opened Bytes

  // ---------- what the client reports ----------

  datatype FaultKind = LineTooLong | DataTooLong

  /** One call out of the parser and its adapter, or out of the connection around them. */
  datatype Action =
    | Open(status: int)
    | Message(name: ByteString, data: ByteString, id: ByteString, accepted: bool)
    | Commit(id: ByteString)       // the resume position is overwritten
    | Retry(ms: int)
    | Fault(kind: FaultKind)       // a recoverable parser error
    | Failure(status: int)         // the error that ends an attempt
    | Closed

  type Log = seq<Action>

  /** The buffer cap, and the queue's answer to an event offered after a given log. */
  datatype Env = Env(cap: nat, accept: Log -> bool)

  datatype ParsedEvent = ParsedEvent(
    name: ByteString,
    data: ByteString,
    id: ByteString,
    lastEventId: Option<ByteString>
  )

  /** The adapter's event callback: enqueue, and commit the resume position if the queue took the event. */
  function OnParserEvent(e: Env, log: Log, event: ParsedEvent): (r: (bool, Log)) {
    var enqueued := e.accept(log);
    var offered := log + [Message(event.name, event.data, event.id, enqueued)];
    (enqueued, if enqueued && event.lastEventId.Some? then offered + [Commit(event.lastEventId.value)] else offered)
  }

  // ---------- lines ----------

  datatype FieldName = Data | Event | Id | RetryTime | Unknown

  function NameOf(name: ByteString): FieldName {
    if name == [100, 97, 116, 97] then Data
    else if name == [101, 118, 101, 110, 116] then Event
    else if name == [105, 100] then Id
    else if name == [114, 101, 116, 114, 121] then RetryTime
    else Unknown
  }

  /** The name of an event that does not give one: "message". */
  const MESSAGE: ByteString := [109, 101, 115, 115, 97, 103, 101]

  const BOM: ByteString := [0xEF, 0xBB, 0xBF]

  function StripBom(line: ByteString): ByteString {
    if BOM <= line then line[3..] else line
  }

  function StripCR(line: ByteString): ByteString {
    if EndsWith(line, CR) then Init(line) else line
  }

  /** A field line cut at its first colon, with one space after the colon dropped. */
  function FieldOf(line: ByteString): (FieldName, ByteString) {
    var colon := IndexOf(line, COLON);
    if colon == |line| then (NameOf(line), [])
    else
      var value := line[colon + 1..];
      (NameOf(line[..colon]), if value != [] && value[0] == SPACE then value[1..] else value)
  }

  predicate IsDigit(c: byte) { 48 <= c <= 57 }

  predicate AllDigits(s: ByteString) { forall c :: c in s ==> IsDigit(c) }

  function DecimalValue(s: ByteString): nat
    requires AllDigits(s)
  {
    if s == [] then 0
    else
      assert IsDigit(Last(s));
      10 * DecimalValue(Init(s)) + (Last(s) as int - 48)
  }

  const RETRY_MIN_MS := 1000
  const RETRY_MAX_MS := 300000
  const LONG_MAX := 0x7fff_ffff

  function ClampRetry(ms: int): int {
    if ms < RETRY_MIN_MS then RETRY_MIN_MS else if ms > RETRY_MAX_MS then RETRY_MAX_MS else ms
  }

  /** What a retry value asks for; nothing unless it is a non-empty row of digits. */
  function RetryOf(value: ByteString): Option<int> {
    if value != [] && AllDigits(value) then Some(ClampRetry(DecimalValue(value))) else None
  }

  // ---------- the parser ----------

  /** The parser's fields that concern the current block and the resume position. */
  datatype BlockState = BlockState(
    data: ByteString,
    event: ByteString,
    id: ByteString,
    idAtBlockStart: ByteString,
    hasId: bool,
    hasIdEver: bool,
    hasIdEverAtBlockStart: bool,
    dropObserved: bool,
    eventPoisoned: bool
  )

  /** A block being read, and everything reported before. */
  datatype Core = Core(b: BlockState, log: Log)

  /** All of the parser's fields, and everything reported before. */
  datatype Machine = Machine(line: ByteString, discardingLine: bool, firstLine: bool, core: Core)

  const FRESH_BLOCK: BlockState := BlockState([], [], [], [], false, false, false, false, false)

  function Reset(log: Log): Machine {
    Machine([], false, true, Core(FRESH_BLOCK, log))
  }

  function PoisonEvent(b: BlockState): BlockState {
    b.(data := [], hasId := false, eventPoisoned := true,
       id := b.idAtBlockStart, hasIdEver := b.hasIdEverAtBlockStart)
  }

  /** Give up the current block because of a cap, and say so. */
  function Poison(c: Core, kind: FaultKind): Core {
    Core(PoisonEvent(c.b), c.log + [Fault(kind)])
  }

  /** The event a block with data announces. */
  function EventToOffer(b: BlockState): ParsedEvent {
    ParsedEvent(
      CStr(if b.event == [] then MESSAGE else b.event),
      CStr(if EndsWith(b.data, LF) then Init(b.data) else b.data),
      CStr(if b.hasId then b.id else []),
      if b.hasIdEver && !b.dropObserved then Some(CStr(b.id)) else None)
  }

  /** The block ends: forget it, and make its ids the point a later block rolls back to. */
  function StartBlock(b: BlockState): BlockState {
    b.(data := [], event := [], hasId := false, idAtBlockStart := b.id, hasIdEverAtBlockStart := b.hasIdEver)
  }

  /** A refused event takes its id back and freezes the resume position. */
  function RollBack(b: BlockState): BlockState {
    b.(id := b.idAtBlockStart, hasIdEver := b.hasIdEverAtBlockStart, dropObserved := true)
  }

  function Dispatch(e: Env, c: Core): Core {
    var b := c.b;
    if b.eventPoisoned then
      Core(StartBlock(b.(eventPoisoned := false)), c.log)
    else if b.data == [] then
      Core(StartBlock(b), if b.hasId && !b.dropObserved then c.log + [Commit(CStr(b.id))] else c.log)
    else
      var (delivered, log) := OnParserEvent(e, c.log, EventToOffer(b));
      Core(StartBlock(if delivered then b else RollBack(b)), log)
  }

  function ProcessField(e: Env, c: Core, name: FieldName, value: ByteString): Core {
    var b := c.b;
    match name
    case Data =>
      if |b.data| + |value| + 1 > e.cap then Poison(c, DataTooLong)
      else c.(b := b.(data := b.data + value + [LF]))
    case Event => c.(b := b.(event := value))
    case Id => c.(b := b.(id := value, hasId := true, hasIdEver := true))
    case RetryTime => if RetryOf(value).Some? then c.(log := c.log + [Retry(RetryOf(value).value)]) else c
    case Unknown => c
  }

  /** A line without its byte-order mark and its trailing CR. */
  function ProcessText(e: Env, c: Core, line: ByteString): Core {
    if line == [] then Dispatch(e, c)
    else if c.b.eventPoisoned || line[0] == COLON then c
    else ProcessField(e, c, FieldOf(line).0, FieldOf(line).1)
  }

  function LineText(raw: ByteString, first: bool): ByteString {
    StripCR(if first then StripBom(raw) else raw)
  }

  function ProcessLine(e: Env, m: Machine, raw: ByteString): Machine {
    m.(firstLine := false, core := ProcessText(e, m.core, LineText(raw, m.firstLine)))
  }

  function FeedByte(e: Env, m: Machine, c: byte): Machine {
    if c == LF then
      if m.discardingLine then m.(discardingLine := false, line := [])
      else ProcessLine(e, m, m.line).(line := [])
    else if m.discardingLine then m
    else if |m.line| + 1 > e.cap then m.(line := [], discardingLine := true, core := Poison(m.core, LineTooLong))
    else m.(line := m.line + [c])
  }

  function Feed(e: Env, m: Machine, bytes: ByteString): Machine {
    if bytes == [] then m else FeedByte(e, Feed(e, m, Init(bytes)), Last(bytes))
  }

  lemma FeedNothing(e: Env, m: Machine)
    ensures Feed(e, m, []) == m
  {
  }

  /** Where the receive boundaries fall makes no difference to the parser. */
  lemma {:induction false} FeedAppend(e: Env, m: Machine, a: ByteString, b: ByteString)
    ensures Feed(e, m, a + b) == Feed(e, Feed(e, m, a), b)
  {
    if b == [] {
      assert a + b == a;
    } else {
      assert Init(a + b) == a + Init(b);
      FeedAppend(e, m, a, Init(b));
    }
  }

  function FeedPieces(e: Env, m: Machine, pieces: seq<ByteString>): Machine {
    if pieces == [] then m else Feed(e, FeedPieces(e, m, Init(pieces)), Last(pieces))
  }

  /** However the bytes are cut into receives, the parser ends the same. */
  lemma {:induction false} FeedPiecesIsFeed(e: Env, m: Machine, pieces: seq<ByteString>)
    ensures FeedPieces(e, m, pieces) == Feed(e, m, Flatten(pieces))
  {
    if pieces != [] {
      FeedPiecesIsFeed(e, m, Init(pieces));
      FeedAppend(e, m, Flatten(Init(pieces)), Last(pieces));
    }
  }
}
