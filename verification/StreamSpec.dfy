/**
 What an event stream means, without a parser: LF ends a line, a blank line ends a block, and each block
 yields an event, a bare resume position, or nothing. Refinement proves the byte-driven parser reports
 exactly this, for every byte sequence, every buffer cap and every answer of the queue.
 */
module StreamSpec {
  import opened Bytes
  import opened ParserModel

  // ---------- lines ----------

  datatype Line = TooLong | Blank | Comment | Field(name: FieldName, value: ByteString)

  /** What one line says; first marks the line a byte-order mark is dropped from. */
  function Classify(e: Env, raw: ByteString, first: bool): Line {
    var line := LineText(raw, first);
    if |raw| > e.cap then TooLong
    else if line == [] then Blank
    else if line[0] == COLON then Comment
    else Field(FieldOf(line).0, FieldOf(line).1)
  }

  /** A line over the cap does not use up the byte-order mark. */
  predicate BomPending(e: Env, raws: seq<ByteString>) {
    forall raw :: raw in raws ==> |raw| > e.cap
  }

  function ClassifyAll(e: Env, raws: seq<ByteString>): (lines: seq<Line>)
    ensures |lines| == |raws|
  {
    if raws == [] then []
    else ClassifyAll(e, Init(raws)) + [Classify(e, Last(raws), BomPending(e, Init(raws)))]
  }

  // ---------- blocks ----------

  /** The values of a block's fields of one name, in order. */
  function Values(block: seq<Line>, name: FieldName): seq<ByteString> {
    if block == [] then []
    else if Last(block).Field? && Last(block).name == name then Values(Init(block), name) + [Last(block).value]
    else Values(Init(block), name)
  }

  function LastValue(block: seq<Line>, name: FieldName): Option<ByteString> {
    var values := Values(block, name);
    if values == [] then None else Some(Last(values))
  }

  function JoinLF(values: seq<ByteString>): ByteString {
    if values == [] then []
    else if |values| == 1 then values[0]
    else JoinLF(Init(values)) + [LF] + Last(values)
  }

  /** The block lost data to a cap: it holds an over-long line, or its data does not fit. */
  predicate Poisoned(e: Env, block: seq<Line>) {
    TooLong in block || |Unsplit(Values(block, Data), LF)| > e.cap
  }

  predicate Deliverable(e: Env, block: seq<Line>) {
    !Poisoned(e, block) && Values(block, Data) != []
  }

  /** The event of a deliverable block, with the queue's answer. */
  function MessageOf(block: seq<Line>, accepted: bool): Action {
    var name := LastValue(block, Event).GetOr([]);
    Message(
      CStr(if name == [] then MESSAGE else name),
      CStr(JoinLF(Values(block, Data))),
      CStr(LastValue(block, Id).GetOr([])),
      accepted)
  }

  /** What is reported while the block is still being read. */
  function Immediate(e: Env, block: seq<Line>): Log {
    if block == [] then []
    else Immediate(e, Init(block)) + LineReport(e, Init(block), Last(block))
  }

  function LineReport(e: Env, before: seq<Line>, line: Line): Log {
    if line.TooLong? then [Fault(LineTooLong)]
    else if Poisoned(e, before) || !line.Field? then []
    else if line.name == Data && Poisoned(e, before + [line]) then [Fault(DataTooLong)]
    else if line.name == RetryTime && RetryOf(line.value).Some? then [Retry(RetryOf(line.value).value)]
    else []
  }

  /** The last id of the stream's completed blocks, whether an event was refused, and the reports so far. */
  datatype Position = Position(lastId: Option<ByteString>, dropped: bool, log: Log)

  function EndBlock(e: Env, pos: Position, block: seq<Line>): Position {
    var log := pos.log + Immediate(e, block);
    var id := if LastValue(block, Id).Some? then LastValue(block, Id) else pos.lastId;
    if Poisoned(e, block) then pos.(log := log)
    else if Values(block, Data) == [] then
      Position(id, pos.dropped,
               if LastValue(block, Id).Some? && !pos.dropped then log + [Commit(CStr(id.value))] else log)
    else
      var accepted := e.accept(log);
      var offered := log + [MessageOf(block, accepted)];
      if !accepted then Position(pos.lastId, true, offered)
      else Position(id, pos.dropped, if id.Some? && !pos.dropped then offered + [Commit(CStr(id.value))] else offered)
  }

  function EndBlocks(e: Env, pos: Position, blocks: seq<seq<Line>>): Position {
    if blocks == [] then pos else EndBlock(e, EndBlocks(e, pos, Init(blocks)), Last(blocks))
  }

  // ---------- streams ----------

  /** The completed blocks of a stream, and the lines of the block it stops in. */
  function Blocks(e: Env, bytes: ByteString): (seq<seq<Line>>, seq<Line>) {
    var (raws, rest) := Split(bytes, LF);
    var (blocks, open) := Split(ClassifyAll(e, raws), Blank);
    (blocks, if |rest| > e.cap then open + [TooLong] else open)
  }

  /** A stream of one field line and a blank line is one block. */
  lemma OneFieldBlock(e: Env, raw: ByteString, blank: ByteString, name: FieldName, value: ByteString)
    requires LF !in raw && LF !in blank
    requires Classify(e, raw, true) == Field(name, value) && Classify(e, blank, false) == Blank
    requires |raw| <= e.cap
    ensures Blocks(e, (raw + [LF]) + (blank + [LF])) == ([[Field(name, value)]], [])
  {
    hide Classify, Split, Unsplit;
    var line, bytes := Field(name, value), (raw + [LF]) + (blank + [LF]);
    UnsplitPair(raw, blank, LF);
    assert Unsplit([raw, blank], LF) + [] == bytes;
    SplitUnsplit([raw, blank], [], LF);
    ClassifyPair(e, raw, blank);
    UnsplitOne([line], Blank);
    assert Unsplit([[line]], Blank) + [] == [line, Blank];
    SplitUnsplit([[line]], [], Blank);
  }

  lemma ClassifyPair(e: Env, raw: ByteString, next: ByteString)
    ensures ClassifyAll(e, [raw, next]) == [Classify(e, raw, true), Classify(e, next, |raw| > e.cap)]
  {
    hide Classify;
    assert Init([raw, next]) == [raw] && Init([raw]) == [];
    assert BomPending(e, [raw]) == (|raw| > e.cap) by {
      assert raw in [raw];
    }
  }

  function SpecLog(e: Env, log: Log, bytes: ByteString): Log {
    var (blocks, open) := Blocks(e, bytes);
    EndBlocks(e, Position(None, false, log), blocks).log + Immediate(e, open)
  }

  // ---------- the parser meets the specification ----------

  /** c is what the parser should hold after the given lines of a block that began at pos. */
  ghost predicate Tracks(e: Env, c: Core, pos: Position, block: seq<Line>) {
    && c.log == pos.log + Immediate(e, block)
    && c.b.dropObserved == pos.dropped
    && c.b.idAtBlockStart == pos.lastId.GetOr([])
    && c.b.hasIdEverAtBlockStart == pos.lastId.Some?
    && c.b.eventPoisoned == Poisoned(e, block)
    && (if Poisoned(e, block) then RolledBack(c.b) else Holds(c.b, block))
  }

  /** A poisoned block keeps no data and no id. */
  ghost predicate RolledBack(b: BlockState) {
    b.data == [] && !b.hasId && b.id == b.idAtBlockStart && b.hasIdEver == b.hasIdEverAtBlockStart
  }

  /** A sound block holds exactly its data lines, its last name and its last id. */
  ghost predicate Holds(b: BlockState, block: seq<Line>) {
    && b.data == Unsplit(Values(block, Data), LF)
    && b.event == LastValue(block, Event).GetOr([])
    && b.hasId == LastValue(block, Id).Some?
    && b.id == LastValue(block, Id).GetOr(b.idAtBlockStart)
    && b.hasIdEver == (b.hasId || b.hasIdEverAtBlockStart)
  }

  /** The block once a whole line has been read; first marks the line a byte-order mark is dropped from. */
  function TakeLine(e: Env, c: Core, raw: ByteString, first: bool): Core {
    if |raw| > e.cap then Poison(c, LineTooLong) else ProcessText(e, c, LineText(raw, first))
  }

  function TakeLines(e: Env, c: Core, raws: seq<ByteString>): Core {
    if raws == [] then c
    else TakeLine(e, TakeLines(e, c, Init(raws)), Last(raws), BomPending(e, Init(raws)))
  }

  /** The parser after some whole lines and the beginning of another. */
  function Reading(e: Env, c: Core, raws: seq<ByteString>, rest: ByteString): Machine {
    var core := TakeLines(e, c, raws);
    if |rest| > e.cap then Machine([], true, BomPending(e, raws), Poison(core, LineTooLong))
    else Machine(rest, false, BomPending(e, raws), core)
  }

  lemma {:induction false} FeedIsLines(e: Env, c: Core, bytes: ByteString)
    ensures var (raws, rest) := Split(bytes, LF);
            Feed(e, Machine([], false, true, c), bytes) == Reading(e, c, raws, rest)
  {
    if bytes != [] {
      FeedIsLines(e, c, Init(bytes));
      var (raws, rest) := Split(Init(bytes), LF);
      if Last(bytes) == LF {
        FeedLF(e, c, raws, rest);
      } else {
        FeedWithinLine(e, c, raws, rest, Last(bytes));
      }
    }
  }

  lemma FeedLF(e: Env, c: Core, raws: seq<ByteString>, rest: ByteString)
    ensures FeedByte(e, Reading(e, c, raws, rest), LF) == Reading(e, c, raws + [rest], [])
  {
    InitLast(raws, rest);
    assert BomPending(e, raws + [rest]) == (BomPending(e, raws) && |rest| > e.cap) by {
      assert rest in raws + [rest];
      assert forall raw :: raw in raws ==> raw in raws + [rest];
    }
  }

  lemma FeedWithinLine(e: Env, c: Core, raws: seq<ByteString>, rest: ByteString, x: byte)
    requires x != LF
    ensures FeedByte(e, Reading(e, c, raws, rest), x) == Reading(e, c, raws, rest + [x])
  {
  }

  lemma ValuesSnoc(block: seq<Line>, line: Line, name: FieldName)
    ensures Values(block + [line], name)
         == Values(block, name) + if line.Field? && line.name == name then [line.value] else []
  {
  }

  lemma ValuesOne(own: FieldName, value: ByteString, name: FieldName)
    ensures Values([Field(own, value)], name) == if own == name then [value] else []
  {
    assert Init([Field(own, value)]) == [];
  }

  lemma DataSnoc(e: Env, block: seq<Line>, line: Line)
    ensures Unsplit(Values(block + [line], Data), LF)
         == Unsplit(Values(block, Data), LF)
            + if line.Field? && line.name == Data then line.value + [LF] else []
    ensures Poisoned(e, block + [line]) <==>
            Poisoned(e, block) || line.TooLong?
            || (line.Field? && line.name == Data && |Unsplit(Values(block, Data), LF)| + |line.value| + 1 > e.cap)
  {
    hide Values;
    ValuesSnoc(block, line, Data);
    assert TooLong in block + [line] <==> TooLong in block || line.TooLong?;
    if line.Field? && line.name == Data {
      InitLast(Values(block, Data), line.value);
    } else {
      assert Values(block, Data) + [] == Values(block, Data);
    }
  }

  /** One line inside a block. */
  lemma TrackLine(e: Env, c: Core, pos: Position, block: seq<Line>, raw: ByteString, first: bool)
    requires Tracks(e, c, pos, block)
    requires Classify(e, raw, first) != Blank
    ensures Tracks(e, TakeLine(e, c, raw, first), pos, block + [Classify(e, raw, first)])
  {
    hide Values, Unsplit, Immediate, LineText, FieldOf, RetryOf, CStr, Poisoned, EventToOffer;
    var line := Classify(e, raw, first);
    DataSnoc(e, block, line);
    ValuesSnoc(block, line, Event);
    ValuesSnoc(block, line, Id);
    ImmediateSnoc(e, block, line);
  }

  lemma ImmediateSnoc(e: Env, block: seq<Line>, line: Line)
    ensures Immediate(e, block + [line]) == Immediate(e, block) + LineReport(e, block, line)
  {
  }

  lemma {:induction false} JoinIsUnsplit(values: seq<ByteString>)
    requires values != []
    ensures JoinLF(values) + [LF] == Unsplit(values, LF)
  {
    if |values| == 1 {
      assert Unsplit(values, LF) == Unsplit([], LF) + values[0] + [LF];
    } else {
      JoinIsUnsplit(Init(values));
    }
  }

  /** The event the parser offers is the one the block means. */
  lemma OffersMessage(e: Env, c: Core, pos: Position, block: seq<Line>)
    requires Tracks(e, c, pos, block) && Deliverable(e, block)
    ensures c.b.data != []
    ensures var event := EventToOffer(c.b);
            forall accepted :: MessageOf(block, accepted) == Message(event.name, event.data, event.id, accepted)
  {
    var values := Values(block, Data);
    JoinIsUnsplit(values);
    InitLast(JoinLF(values), LF);
  }

  /** The blank line that ends a block. */
  lemma TrackBlank(e: Env, c: Core, pos: Position, block: seq<Line>)
    requires Tracks(e, c, pos, block)
    ensures Tracks(e, Dispatch(e, c), EndBlock(e, pos, block), [])
  {
    if Deliverable(e, block) {
      OffersMessage(e, c, pos, block);
      TrackEvent(e, c, pos, block);
    } else if !Poisoned(e, block) {
      assert c.b.data == [];
    }
  }

  lemma TrackEvent(e: Env, c: Core, pos: Position, block: seq<Line>)
    requires Tracks(e, c, pos, block) && Deliverable(e, block) && c.b.data != []
    requires var event := EventToOffer(c.b);
             forall accepted :: MessageOf(block, accepted) == Message(event.name, event.data, event.id, accepted)
    ensures Tracks(e, Dispatch(e, c), EndBlock(e, pos, block), [])
  {
    hide Values, Unsplit, CStr, JoinLF, Poisoned, Immediate, MessageOf;
    var accepted := e.accept(c.log);
    var event := EventToOffer(c.b);
    assert MessageOf(block, accepted) == Message(event.name, event.data, event.id, accepted);
    TracksFresh(e, Dispatch(e, c), EndBlock(e, pos, block));
  }

  lemma {:induction false} TrackLines(e: Env, c: Core, pos: Position, raws: seq<ByteString>)
    requires Tracks(e, c, pos, [])
    ensures var (blocks, open) := Split(ClassifyAll(e, raws), Blank);
            Tracks(e, TakeLines(e, c, raws), EndBlocks(e, pos, blocks), open)
  {
    if raws != [] {
      var before, first := Init(raws), BomPending(e, Init(raws));
      TrackLines(e, c, pos, before);
      var (blocks, open) := Split(ClassifyAll(e, before), Blank);
      var line := Classify(e, Last(raws), first);
      InitLast(ClassifyAll(e, before), line);
      var reached := TakeLines(e, c, before);
      if line == Blank {
        InitLast(blocks, open);
        TrackBlank(e, reached, EndBlocks(e, pos, blocks), open);
      } else {
        TrackLine(e, reached, EndBlocks(e, pos, blocks), open, Last(raws), first);
      }
    }
  }

  /** What the parser holds at the start of a block. */
  lemma TracksFresh(e: Env, c: Core, pos: Position)
    requires c.log == pos.log && c.b.dropObserved == pos.dropped && !c.b.eventPoisoned
    requires c.b.idAtBlockStart == pos.lastId.GetOr([]) && c.b.hasIdEverAtBlockStart == pos.lastId.Some?
    requires c.b.data == [] && c.b.event == [] && !c.b.hasId
    requires c.b.id == c.b.idAtBlockStart && c.b.hasIdEver == c.b.hasIdEverAtBlockStart
    ensures Tracks(e, c, pos, [])
  {
  }

  lemma ReadingLog(e: Env, c: Core, pos: Position, block: seq<Line>, rest: ByteString)
    requires c.log == pos.log + Immediate(e, block)
    ensures (if |rest| > e.cap then Poison(c, LineTooLong) else c).log
         == pos.log + Immediate(e, if |rest| > e.cap then block + [TooLong] else block)
  {
  }

  /** From a reset parser, every byte sequence is reported exactly as the specification says. */
  lemma Refinement(e: Env, log: Log, bytes: ByteString)
    ensures Feed(e, Reset(log), bytes).core.log == SpecLog(e, log, bytes)
  {
    var (raws, rest) := Split(bytes, LF);
    var (blocks, open) := Split(ClassifyAll(e, raws), Blank);
    var c, pos := Core(FRESH_BLOCK, log), Position(None, false, log);
    FeedIsLines(e, c, bytes);
    TracksFresh(e, c, pos);
    TrackLines(e, c, pos, raws);
    ReadingLog(e, TakeLines(e, c, raws), EndBlocks(e, pos, blocks), open, rest);
  }

  lemma CoreBounded(e: Env, c: Core, line: ByteString)
    requires |c.b.data| <= e.cap
    ensures |ProcessText(e, c, line).b.data| <= e.cap
  {
  }

  /** The two buffers never hold more than the cap between bytes. */
  lemma {:induction false} BuffersBounded(e: Env, m: Machine, bytes: ByteString)
    requires |m.line| <= e.cap && |m.core.b.data| <= e.cap
    ensures |Feed(e, m, bytes).line| <= e.cap && |Feed(e, m, bytes).core.b.data| <= e.cap
  {
    if bytes != [] {
      var before := Feed(e, m, Init(bytes));
      BuffersBounded(e, m, Init(bytes));
      CoreBounded(e, before.core, LineText(before.line, before.firstLine));
    }
  }
}
