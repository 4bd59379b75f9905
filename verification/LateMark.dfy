/**
 The byte-order mark is dropped from the first line that is processed, and an over-long line never is. The one
 place where this shows is a mark on a line of its own behind over-long lines: it is a blank line and ends the
 block they poisoned, so the event behind it is delivered.
 */
module LateMark {
  import opened Bytes
  import opened ParserModel
  import opened StreamSpec
  import opened Delivery
  import opened RoundTrip
  import LostEvent

  /** With the block poisoned, stripping a mark matters for a line that is a mark and nothing else. */
  lemma MarkShowsIff(e: Env, c: Core, raw: ByteString)
    requires c.b.eventPoisoned
    ensures ProcessText(e, c, LineText(raw, true)) != ProcessText(e, c, LineText(raw, false))
            <==> raw == BOM || raw == BOM + [CR]
  {
    hide LineText, FieldOf;
    BlankTextIff(raw);
  }

  lemma BlankTextIff(raw: ByteString)
    ensures LineText(raw, false) == [] <==> raw == [] || raw == [CR]
    ensures LineText(raw, true) == [] <==> raw == [] || raw == [CR] || raw == BOM || raw == BOM + [CR]
  {
    StripCRBlank(raw);
    StripCRBlank(StripBom(raw));
    if BOM <= raw {
      assert raw == BOM + StripBom(raw);
    }
  }

  lemma StripCRBlank(text: ByteString)
    ensures StripCR(text) == [] <==> text == [] || text == [CR]
  {
    if EndsWith(text, CR) {
      assert text == Init(text) + [CR];
    }
  }

  /** An over-long line, a byte-order mark on a line of its own, and an event. */
  function MarkedStream(long: ByteString, value: ByteString): ByteString {
    Unsplit([long, BOM, FieldLine(DATA_KEY, value), []], LF)
  }

  lemma MarkedLines(e: Env, long: ByteString, value: ByteString)
    requires |long| > e.cap >= 3 && Printable(e, DATA_KEY, value)
    ensures ClassifyAll(e, [long, BOM, FieldLine(DATA_KEY, value), []])
         == [StreamSpec.TooLong, Blank, Field(Data, value), Blank]
    ensures LF !in FieldLine(DATA_KEY, value)
  {
    hide Classify, Printable;
    var line := FieldLine(DATA_KEY, value);
    KeyNames();
    FieldLineReads(e, DATA_KEY, value);
    MarkIsBlank(e);
    TooLongLine(e, long);
    assert [long, BOM] + [line] == [long, BOM, line];
    assert [long, BOM, line] + [[]] == [long, BOM, line, []];
    ClassifyPair(e, long, BOM);
    ClassifyNext(e, [long, BOM], line);
    ClassifyNext(e, [long, BOM, line], []);
  }

  /** Behind a mark that has been used up, lines are read as they are. */
  lemma ClassifyNext(e: Env, raws: seq<ByteString>, raw: ByteString)
    requires e.cap >= 3 && BOM in raws
    ensures ClassifyAll(e, raws + [raw]) == ClassifyAll(e, raws) + [Classify(e, raw, false)]
  {
    hide Classify;
    InitLast(raws, raw);
  }

  lemma MarkIsBlank(e: Env)
    requires e.cap >= 3
    ensures Classify(e, BOM, true) == Blank && Classify(e, [], false) == Blank
  {
  }

  lemma TooLongLine(e: Env, long: ByteString)
    requires |long| > e.cap
    ensures Classify(e, long, true) == StreamSpec.TooLong
  {
  }

  lemma MarkedBlocks(e: Env, long: ByteString, value: ByteString)
    requires |long| > e.cap >= 3 && LF !in long && Printable(e, DATA_KEY, value)
    ensures Blocks(e, MarkedStream(long, value)) == ([[StreamSpec.TooLong], [Field(Data, value)]], [])
  {
    hide Split, ClassifyAll, Unsplit, Printable;
    var raws := [long, BOM, FieldLine(DATA_KEY, value), []];
    MarkedLines(e, long, value);
    assert MarkedStream(long, value) + [] == MarkedStream(long, value);
    SplitUnsplit(raws, [], LF);
    var poisoned, event := [StreamSpec.TooLong], [Field(Data, value)];
    UnsplitPair(poisoned, event, Blank);
    assert Unsplit([poisoned, event], Blank) + [] == [StreamSpec.TooLong, Blank, Field(Data, value), Blank];
    SplitUnsplit([poisoned, event], [], Blank);
  }

  /** The event is offered. */
  lemma MarkBehindLongLine(e: Env, log: Log, long: ByteString, value: ByteString) returns (accepted: bool)
    requires |long| > e.cap >= 3 && LF !in long && Printable(e, DATA_KEY, value)
    ensures Offers(Feed(e, Reset(log), MarkedStream(long, value)).core.log)
         == Offers(log) + [Message(MESSAGE, value, [], accepted)]
  {
    hide Feed, Blocks, Offers, Poisoned, Immediate, MessageOf, EndBlock, Printable, MarkedStream;
    var poisoned, event := [StreamSpec.TooLong], [Field(Data, value)];
    var pos := Position(None, false, log);
    MarkedBlocks(e, long, value);
    StreamOutcome(e, log, MarkedStream(long, value), []);
    OneDeliverable(e, value);
    assert Init([poisoned, event]) == [poisoned] && Init([poisoned]) == [];
    var blocks := [poisoned, event];
    assert Deliverables(e, blocks) == [event];
    accepted := Answers(e, pos, blocks)[0];
    assert Announce(Deliverables(e, blocks), Answers(e, pos, blocks)) == [MessageOf(event, accepted)];
    LostEvent.DataBlockMessage(value, accepted);
  }

  lemma OneDeliverable(e: Env, value: ByteString)
    requires Printable(e, DATA_KEY, value)
    ensures !Deliverable(e, [StreamSpec.TooLong]) && Deliverable(e, [Field(Data, value)]) && NUL !in value
  {
    assert StreamSpec.TooLong in [StreamSpec.TooLong];
    ValuesOne(Data, value, Data);
    UnsplitOne(value, LF);
  }
}
