/** Printing events as an event stream and reading them back. */
module RoundTrip {
  import opened Bytes
  import opened ParserModel
  import opened StreamSpec
  import opened Delivery
  import opened Replay

  datatype Event = Event(name: ByteString, data: ByteString, id: Option<ByteString>)

  const DATA_KEY: ByteString := [100, 97, 116, 97]
  const EVENT_KEY: ByteString := [101, 118, 101, 110, 116]
  const ID_KEY: ByteString := [105, 100]

  /** How a field line is written: with or without the space behind the colon, with or without a CR. */
  datatype Layout = Layout(spaced: bool, cr: bool)

  type Style = (ByteString, ByteString) -> Layout

  function FieldLine(key: ByteString, value: ByteString): ByteString {
    key + [COLON, SPACE] + value
  }

  function FieldText(key: ByteString, value: ByteString, layout: Layout): ByteString {
    var line := if layout.spaced then FieldLine(key, value) else key + [COLON] + value;
    if layout.cr then line + [CR] else line
  }

  /** Spaces, and no CR: the style of FieldLine. */
  const SPACED: Layout := Layout(true, false)

  function Segments(data: ByteString): (segments: seq<ByteString>)
    ensures segments != []
  {
    var (pieces, rest) := Split(data, LF);
    pieces + [rest]
  }

  function Styled(key: ByteString, value: ByteString, style: Style): ByteString {
    FieldText(key, value, style(key, value))
  }

  function DataLines(segments: seq<ByteString>, style: Style): Block {
    seq(|segments|, i requires 0 <= i < |segments| => Styled(DATA_KEY, segments[i], style))
  }

  /** The lines of one event, in any style; data that spans lines takes one data line each. */
  function Print(event: Event, style: Style): Block {
    [Styled(EVENT_KEY, event.name, style)]
    + (if event.id.Some? then [Styled(ID_KEY, event.id.value, style)] else [])
    + DataLines(Segments(event.data), style)
  }

  function PrintAll(events: seq<Event>, style: Style): seq<Block> {
    seq(|events|, i requires 0 <= i < |events| => Print(events[i], style))
  }

  /**
   A value that survives as a field: no LF, no NUL, no CR at its end that would be taken for the line's, no space
   in front that would be taken for the colon's, and its line fits.
   */
  predicate PrintableAs(e: Env, key: ByteString, value: ByteString, layout: Layout) {
    && LF !in value && NUL !in value
    && (layout.cr || !EndsWith(value, CR))
    && (layout.spaced || value == [] || value[0] != SPACE)
    && |FieldText(key, value, layout)| <= e.cap
  }

  predicate Printable(e: Env, key: ByteString, value: ByteString) {
    PrintableAs(e, key, value, SPACED)
  }

  predicate PrintableIn(e: Env, key: ByteString, value: ByteString, style: Style) {
    PrintableAs(e, key, value, style(key, value))
  }

  predicate PrintableEvent(e: Env, event: Event, style: Style) {
    && event.name != [] && PrintableIn(e, EVENT_KEY, event.name, style)
    && (event.id.Some? ==> PrintableIn(e, ID_KEY, event.id.value, style))
    && NUL !in event.data
    && (forall segment :: segment in Segments(event.data) ==> PrintableIn(e, DATA_KEY, segment, style))
    && |event.data| + 1 <= e.cap
  }

  /** The events in some style: with or without spaces behind colons, and CRs in front of LFs, line by line. */
  ghost predicate Prints(e: Env, events: seq<Event>, text: ByteString) {
    exists style: Style, blanks ::
      && (forall event :: event in events ==> PrintableEvent(e, event, style))
      && BlankLines(e, PrintAll(events, style), blanks)
      && text == RenderWith(PrintAll(events, style), blanks)
  }

  // ---------- one line ----------

  lemma {:induction false} IndexOfFirst<T>(a: seq<T>, x: T, b: seq<T>)
    requires x !in a
    ensures IndexOf(a + [x] + b, x) == |a|
  {
    if a != [] {
      IndexOfFirst(a[1..], x, b);
      assert (a + [x] + b)[1..] == a[1..] + [x] + b;
    }
  }

  /** A field line is read back as its name and value, in every layout. */
  lemma FieldTextReads(e: Env, key: ByteString, value: ByteString, layout: Layout)
    requires PrintableAs(e, key, value, layout)
    requires key in [DATA_KEY, EVENT_KEY, ID_KEY]
    ensures Classify(e, FieldText(key, value, layout), false) == Field(NameOf(key), value)
    ensures PlainLine(e, FieldText(key, value, layout))
  {
    hide NameOf, FieldOf;
    var raw := FieldText(key, value, layout);
    var line := if layout.spaced then FieldLine(key, value) else key + [COLON] + value;
    if layout.spaced {
      FieldLineCut(key, value);
    } else {
      TightLineCut(key, value);
    }
    assert line[0] == key[0] == raw[0];
    if layout.cr {
      InitLast(line, CR);
    } else {
      assert Last(line) == if value != [] then Last(value) else if layout.spaced then SPACE else COLON;
    }
    assert StripCR(raw) == line;
  }

  lemma FieldLineReads(e: Env, key: ByteString, value: ByteString)
    requires Printable(e, key, value)
    requires key in [DATA_KEY, EVENT_KEY, ID_KEY]
    ensures Classify(e, FieldLine(key, value), false) == Field(NameOf(key), value)
    ensures PlainLine(e, FieldLine(key, value))
  {
    FieldTextReads(e, key, value, SPACED);
  }

  lemma KeyNames()
    ensures NameOf(DATA_KEY) == Data && NameOf(EVENT_KEY) == FieldName.Event && NameOf(ID_KEY) == Id
  {
  }

  lemma FieldLineCut(key: ByteString, value: ByteString)
    requires COLON !in key
    ensures FieldOf(FieldLine(key, value)) == (NameOf(key), value)
  {
    hide NameOf, IndexOf;
    var line := FieldLine(key, value);
    assert line == key + [COLON] + ([SPACE] + value);
    IndexOfFirst(key, COLON, [SPACE] + value);
    assert line[..|key|] == key && line[|key| + 1..] == [SPACE] + value;
  }

  /** Without a space behind the colon, every character of the value counts. */
  lemma TightLineCut(key: ByteString, value: ByteString)
    requires COLON !in key && (value == [] || value[0] != SPACE)
    ensures FieldOf(key + [COLON] + value) == (NameOf(key), value)
  {
    hide NameOf, IndexOf;
    var line := key + [COLON] + value;
    IndexOfFirst(key, COLON, value);
    assert line[..|key|] == key && line[|key| + 1..] == value;
  }

  /** A line without a colon is a name with an empty value. */
  lemma BareLineCut(line: ByteString)
    requires COLON !in line
    ensures FieldOf(line) == (NameOf(line), [])
  {
    hide NameOf;
    NotBefore(line, COLON, |line|);
  }

  // ---------- one event ----------

  function FieldsOf(event: Event): seq<Line> {
    [Field(FieldName.Event, event.name)]
    + (if event.id.Some? then [Field(Id, event.id.value)] else [])
    + DataFields(Segments(event.data))
  }

  function DataFields(segments: seq<ByteString>): seq<Line> {
    seq(|segments|, i requires 0 <= i < |segments| => Field(Data, segments[i]))
  }

  lemma DataLinesRead(e: Env, segments: seq<ByteString>, style: Style)
    requires forall segment :: segment in segments ==> PrintableIn(e, DATA_KEY, segment, style)
    ensures PlainBlock(e, DataLines(segments, style))
    ensures Meaning(e, DataLines(segments, style)) == DataFields(segments)
  {
    hide Classify, FieldText, PrintableAs, NameOf, PlainLine;
    KeyNames();
    forall i | 0 <= i < |segments|
      ensures PlainLine(e, DataLines(segments, style)[i])
      ensures Classify(e, DataLines(segments, style)[i], false) == Field(Data, segments[i])
    {
      assert segments[i] in segments;
      FieldTextReads(e, DATA_KEY, segments[i], style(DATA_KEY, segments[i]));
    }
  }

  lemma PrintReads(e: Env, event: Event, style: Style)
    requires PrintableEvent(e, event, style)
    ensures PlainBlock(e, Print(event, style))
    ensures Meaning(e, Print(event, style)) == FieldsOf(event)
  {
    hide Classify, FieldText, PrintableAs, PlainLine, Segments, DataLines, DataFields, NameOf;
    var segments := Segments(event.data);
    KeyNames();
    FieldTextReads(e, EVENT_KEY, event.name, style(EVENT_KEY, event.name));
    DataLinesRead(e, segments, style);
    var first := [Styled(EVENT_KEY, event.name, style)];
    assert Meaning(e, first) == [Field(FieldName.Event, event.name)];
    if event.id.Some? {
      FieldTextReads(e, ID_KEY, event.id.value, style(ID_KEY, event.id.value));
      var second := [Styled(ID_KEY, event.id.value, style)];
      assert Meaning(e, second) == [Field(Id, event.id.value)];
      MeaningAppend(e, first, second);
      MeaningAppend(e, first + second, DataLines(segments, style));
    } else {
      MeaningAppend(e, first, DataLines(segments, style));
      assert first + [] == first;
    }
  }

  lemma MeaningAppend(e: Env, a: Block, b: Block)
    ensures Meaning(e, a + b) == Meaning(e, a) + Meaning(e, b)
    ensures PlainBlock(e, a) && PlainBlock(e, b) ==> PlainBlock(e, a + b)
  {
  }

  lemma {:induction false} DataFieldsValues(head: seq<Line>, segments: seq<ByteString>, name: FieldName)
    ensures Values(head + DataFields(segments), name) == Values(head, name) + if name == Data then segments else []
  {
    hide Values;
    if segments == [] {
      assert head + DataFields(segments) == head;
      assert Values(head, name) + [] == Values(head, name);
    } else {
      DataFieldsValues(head, Init(segments), name);
      var before, line := head + DataFields(Init(segments)), Field(Data, Last(segments));
      assert head + DataFields(segments) == before + [line];
      ValuesSnoc(before, line, name);
      assert name == Data ==> segments == Init(segments) + [Last(segments)];
    }
  }

  lemma CStrWhole(s: ByteString)
    requires NUL !in s
    ensures CStr(s) == s
  {
  }

  lemma SegmentsJoin(data: ByteString)
    ensures Unsplit(Segments(data), LF) == data + [LF]
    ensures JoinLF(Segments(data)) == data
  {
    var (pieces, rest) := Split(data, LF);
    InitLast(pieces, rest);
    JoinIsUnsplit(Segments(data));
    InitLast(JoinLF(Segments(data)), LF);
    InitLast(data, LF);
  }

  lemma FieldsValues(event: Event, name: FieldName)
    ensures Values(FieldsOf(event), name)
         == if name == Data then Segments(event.data)
            else if name == FieldName.Event then [event.name]
            else if name == Id && event.id.Some? then [event.id.value]
            else []
  {
    var first := Field(FieldName.Event, event.name);
    var head := [first] + if event.id.Some? then [Field(Id, event.id.value)] else [];
    DataFieldsValues(head, Segments(event.data), name);
    ValuesSnoc([], first, name);
    assert [] + [first] == [first];
    if event.id.Some? {
      ValuesSnoc([first], Field(Id, event.id.value), name);
    }
  }

  lemma FieldsDeliver(e: Env, event: Event, style: Style)
    requires PrintableEvent(e, event, style)
    ensures Deliverable(e, FieldsOf(event))
  {
    hide Segments, Values;
    FieldsValues(event, Data);
    SegmentsJoin(event.data);
    assert TooLong !in FieldsOf(event);
  }

  /** The fields of a printed event mean that event. */
  lemma FieldsMean(e: Env, event: Event, style: Style, accepted: bool)
    requires PrintableEvent(e, event, style)
    ensures MessageOf(FieldsOf(event), accepted) == Message(event.name, event.data, event.id.GetOr([]), accepted)
  {
    hide CStr, JoinLF, Segments, Values, FieldsOf;
    FieldsValues(event, Data);
    FieldsValues(event, FieldName.Event);
    FieldsValues(event, Id);
    SegmentsJoin(event.data);
    CStrWhole(event.name);
    CStrWhole(event.data);
    CStrWhole(event.id.GetOr([]));
  }

  /** Nothing but the event itself is reported. */
  lemma {:induction false} FieldsSilent(e: Env, block: seq<Line>)
    requires !Poisoned(e, block)
    requires forall line :: line in block ==> line.Field? && line.name != RetryTime
    ensures Immediate(e, block) == []
  {
    if block != [] {
      assert block == Init(block) + [Last(block)];
      DataSnoc(e, Init(block), Last(block));
      FieldsSilent(e, Init(block));
      assert Last(block) in block;
    }
  }

  // ---------- the round trip ----------

  function MessagesOf(events: seq<Event>, answers: seq<bool>): seq<Action>
    requires |events| == |answers|
  {
    seq(|events|, i requires 0 <= i < |events| =>
      Message(events[i].name, events[i].data, events[i].id.GetOr([]), answers[i]))
  }

  lemma {:induction false} AllDeliverable(e: Env, blocks: seq<seq<Line>>)
    requires forall block :: block in blocks ==> Deliverable(e, block)
    ensures Deliverables(e, blocks) == blocks
  {
    if blocks != [] {
      assert forall block :: block in Init(blocks) ==> block in blocks;
      AllDeliverable(e, Init(blocks));
      assert Last(blocks) in blocks;
    }
  }

  lemma PrintAllReads(e: Env, events: seq<Event>, style: Style)
    requires forall event :: event in events ==> PrintableEvent(e, event, style)
    ensures PlainHistory(e, PrintAll(events, style))
    ensures Meanings(e, PrintAll(events, style)) == seq(|events|, i requires 0 <= i < |events| => FieldsOf(events[i]))
  {
    hide Print, FieldsOf, Meaning, PrintableEvent, PlainBlock;
    forall i | 0 <= i < |events|
      ensures PlainBlock(e, Print(events[i], style)) && Meaning(e, Print(events[i], style)) == FieldsOf(events[i])
    {
      PrintReads(e, events[i], style);
    }
  }

  predicate EventsOnly(log: Log) {
    forall a :: a in log ==> a.Message? || a.Commit?
  }

  lemma {:induction false} SilentBlocks(e: Env, pos: Position, blocks: seq<seq<Line>>)
    requires forall block :: block in blocks ==> Immediate(e, block) == []
    ensures pos.log <= EndBlocks(e, pos, blocks).log
    ensures EventsOnly(EndBlocks(e, pos, blocks).log[|pos.log|..])
  {
    hide Immediate, Poisoned, Values, LastValue, CStr;
    if blocks != [] {
      var before := EndBlocks(e, pos, Init(blocks));
      assert forall block :: block in Init(blocks) ==> block in blocks;
      SilentBlocks(e, pos, Init(blocks));
      assert Last(blocks) in blocks;
      assert before.log + [] == before.log;
    }
  }

  lemma PrintParseIn(e: Env, log: Log, events: seq<Event>, style: Style, blanks: seq<ByteString>,
                     pieces: seq<ByteString>)
      returns (answers: seq<bool>)
    requires forall event :: event in events ==> PrintableEvent(e, event, style)
    requires BlankLines(e, PrintAll(events, style), blanks)
    requires Flatten(pieces) == RenderWith(PrintAll(events, style), blanks)
    ensures |answers| == |events|
    ensures var after := FeedPieces(e, Reset(log), pieces).core.log;
            && Offers(after) == Offers(log) + MessagesOf(events, answers)
            && log <= after && EventsOnly(after[|log|..])
  {
    hide Print, FieldsOf, Meaning, PrintableEvent, PlainBlock, Deliverable, MessageOf, Feed, RenderWith, EndBlock;
    hide FeedPieces;
    var bytes, pos := RenderWith(PrintAll(events, style), blanks), Position(None, false, log);
    FeedPiecesIsFeed(e, Reset(log), pieces);
    PrintAllReads(e, events, style);
    WholeReplay(e, PrintAll(events, style), blanks);
    StreamOutcome(e, log, bytes, []);
    Refinement(e, log, bytes);
    var blocks := Meanings(e, PrintAll(events, style));
    forall i | 0 <= i < |events|
      ensures Deliverable(e, blocks[i]) && Immediate(e, blocks[i]) == []
    {
      FieldsDeliver(e, events[i], style);
      PrintSilent(e, events[i], style);
    }
    AllDeliverable(e, blocks);
    SilentBlocks(e, pos, blocks);
    answers := Answers(e, pos, blocks);
    forall i | 0 <= i < |events|
      ensures Announce(blocks, answers)[i] == MessagesOf(events, answers)[i]
    {
      FieldsMean(e, events[i], style, answers[i]);
    }
    assert Announce(blocks, answers) == MessagesOf(events, answers);
  }

  /**
   Feeding the printed events to a reset parser, in any style and cut anywhere, offers exactly those events in
   order, and reports nothing besides them and the commits of their ids.
   */
  lemma PrintParse(e: Env, log: Log, events: seq<Event>, pieces: seq<ByteString>) returns (answers: seq<bool>)
    requires Prints(e, events, Flatten(pieces))
    ensures |answers| == |events|
    ensures var after := FeedPieces(e, Reset(log), pieces).core.log;
            && Offers(after) == Offers(log) + MessagesOf(events, answers)
            && log <= after && EventsOnly(after[|log|..])
  {
    hide PrintableEvent, BlankLine, RenderWith, PrintAll, FeedPieces, EventsOnly, MessagesOf, Offers;
    var style, blanks :|
      && (forall event :: event in events ==> PrintableEvent(e, event, style))
      && BlankLines(e, PrintAll(events, style), blanks)
      && Flatten(pieces) == RenderWith(PrintAll(events, style), blanks);
    answers := PrintParseIn(e, log, events, style, blanks, pieces);
  }

  lemma PrintSilent(e: Env, event: Event, style: Style)
    requires PrintableEvent(e, event, style)
    ensures Immediate(e, FieldsOf(event)) == []
  {
    FieldsDeliver(e, event, style);
    FieldsSilent(e, FieldsOf(event));
  }
}
