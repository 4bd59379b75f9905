/**
 Lines and fields, in characters: what a byte-order mark, a CR, a colon, a space, a digit and each field name do
 to a line, and whole streams where they do it.
 */
module FieldLines {
  import opened Bytes
  import opened ParserModel
  import opened SseParser
  import opened StreamSpec
  import opened Delivery
  import opened RoundTrip
  import BlockedResume
  import LostEvent

  // ---------- the parts of a line ----------

  /** Four names mean something, whole and in lower case; every other name is ignored. */
  lemma NamesExact(name: ByteString)
    ensures NameOf(name) == Data <==> name == Text("data")
    ensures NameOf(name) == FieldName.Event <==> name == Text("event")
    ensures NameOf(name) == Id <==> name == Text("id")
    ensures NameOf(name) == RetryTime <==> name == Text("retry")
  {
    assert Text("data") == [100, 97, 116, 97] && Text("event") == [101, 118, 101, 110, 116];
    assert Text("id") == [105, 100] && Text("retry") == [114, 101, 116, 114, 121];
  }

  lemma KeysExact()
    ensures DATA_KEY == Text("data") && EVENT_KEY == Text("event") && ID_KEY == Text("id")
    ensures MESSAGE == Text("message")
  {
  }

  /** The name ends at the first colon; one space behind it is dropped, and nothing else ever is. */
  lemma CutExact(key: ByteString, value: ByteString)
    requires COLON !in key
    ensures FieldOf(key + Text(":") + Text(" ") + value) == (NameOf(key), value)
    ensures value == [] || value[0] != SPACE ==> FieldOf(key + Text(":") + value) == (NameOf(key), value)
    ensures FieldOf(key) == (NameOf(key), [])
  {
    hide NameOf, FieldOf;
    assert Text(":") == [COLON] && Text(" ") == [SPACE];
    assert key + Text(":") + Text(" ") + value == FieldLine(key, value);
    FieldLineCut(key, value);
    if value == [] || value[0] != SPACE {
      TightLineCut(key, value);
    }
    BareLineCut(key);
  }

  /** A mark is dropped from the first line only, one CR from every line, and nothing from in between. */
  lemma MarksExact(text: ByteString)
    ensures LineText([0xEF, 0xBB, 0xBF] + text, true) == StripCR(text)
    ensures LineText([0xEF, 0xBB, 0xBF] + text, false) == StripCR([0xEF, 0xBB, 0xBF] + text)
    ensures !([0xEF, 0xBB, 0xBF] <= text) ==> LineText(text, true) == LineText(text, false) == StripCR(text)
    ensures StripCR(text + [13]) == text
    ensures text == [] || text[|text| - 1] != 13 ==> StripCR(text) == text
  {
    assert ([0xEF, 0xBB, 0xBF] + text)[3..] == text;
    InitLast(text, CR);
  }

  /** What a C string shows ends at the first NUL. */
  lemma CStrExact(text: ByteString, rest: ByteString)
    requires 0 !in text
    ensures CStr(text) == text && CStr(text + [0] + rest) == text
  {
    NotBefore(text, NUL, |text|);
    IndexOfFirst(text, NUL, rest);
  }

  // ---------- retry values ----------

  /** A number as it is written: decimal, without zeros in front. */
  function Decimal(v: nat): ByteString {
    if v < 10 then [Text("0123456789")[v]] else Decimal(v / 10) + [Text("0123456789")[v % 10]]
  }

  lemma DigitCodes(d: nat)
    requires d < 10
    ensures Text("0123456789")[d] as int == 48 + d
  {
    assert Text("0123456789") == [48, 49, 50, 51, 52, 53, 54, 55, 56, 57];
  }

  lemma DigitsExact(c: byte)
    ensures IsDigit(c) <==> c in Text("0123456789")
  {
    assert Text("0123456789") == [48, 49, 50, 51, 52, 53, 54, 55, 56, 57];
  }

  lemma {:induction false} DecimalReads(v: nat)
    ensures Decimal(v) != [] && AllDigits(Decimal(v)) && DecimalValue(Decimal(v)) == v
  {
    if v < 10 {
      DigitCodes(v);
      assert Init(Decimal(v)) == [];
    } else {
      DecimalReads(v / 10);
      DigitCodes(v % 10);
      InitLast(Decimal(v / 10), Text("0123456789")[v % 10]);
    }
  }

  lemma {:induction false} ZerosRead(n: nat, digits: ByteString)
    requires AllDigits(digits)
    ensures AllDigits(Zeros(n) + digits) && DecimalValue(Zeros(n) + digits) == DecimalValue(digits)
    decreases n + |digits|
  {
    var s := Zeros(n) + digits;
    if digits != [] {
      assert AllDigits(Init(digits)) by {
        assert forall c :: c in Init(digits) ==> c in digits;
      }
      ZerosRead(n, Init(digits));
      assert Init(s) == Zeros(n) + Init(digits) && Last(s) == Last(digits) && Last(digits) in digits;
    } else if n > 0 {
      ZerosRead(n - 1, []);
      assert s == Zeros(n) && Init(s) == Zeros(n - 1) + [] && Last(s) == 48;
    } else {
      assert s == [];
    }
  }

  /** Any decimal numeral is taken, clamped to a second and to five minutes, and left alone in between. */
  lemma RetryExact(n: nat, v: nat)
    ensures RetryOf(Zeros(n) + Decimal(v)) == Some(if v < 1000 then 1000 else if v > 300000 then 300000 else v)
  {
    hide DecimalValue, Decimal;
    DecimalReads(v);
    ZerosRead(n, Decimal(v));
  }

  /** Anything but a row of digits asks for nothing. */
  lemma RetryNone(value: ByteString)
    ensures RetryOf(value).None? <==> value == [] || exists c :: c in value && c !in Text("0123456789")
  {
    hide DecimalValue;
    forall c: byte
      ensures IsDigit(c) <==> c in Text("0123456789")
    {
      DigitsExact(c);
    }
  }

  // ---------- whole streams ----------

  /** A retry line that ends in LF is reported at once, with the delay it asks for. */
  lemma RetryReported(e: Env, log: Log, v: nat)
    requires 6 + |Decimal(v)| <= e.cap
    ensures Feed(e, Reset(log), Text("retry:") + Decimal(v) + [LF]).core.log
         == log + [Retry(if v < 1000 then 1000 else if v > 300000 then 300000 else v)]
  {
    hide Split, Classify, RetryOf, Decimal, Feed;
    var digits := Decimal(v);
    var line := Text("retry:") + digits;
    RetryLineReads(e, v);
    FeedOneLine(e, log, line, Field(RetryTime, digits));
    assert Zeros(0) + digits == digits;
    RetryExact(0, v);
    assert Init([Field(RetryTime, digits)]) == [];
    ValuesOne(RetryTime, digits, Data);
  }

  lemma RetryLineReads(e: Env, v: nat)
    requires 6 + |Decimal(v)| <= e.cap
    ensures Classify(e, Text("retry:") + Decimal(v), true) == Field(RetryTime, Decimal(v))
    ensures LF !in Text("retry:") + Decimal(v)
  {
    hide NameOf, FieldOf, Decimal, DecimalValue, Classify;
    var digits := Decimal(v);
    var line := Text("retry:") + digits;
    DecimalReads(v);
    assert Text("retry:") == [114, 101, 116, 114, 121, 58];
    assert line == Text("retry") + Text(":") + digits;
    assert Last(line) == Last(digits) && digits[0] in digits && Last(digits) in digits;
    assert forall c :: c in digits ==> IsDigit(c);
    PlainRaw(e, line);
    NamesExact(Text("retry"));
    assert Text("retry") == [114, 101, 116, 114, 121];
    CutExact(Text("retry"), digits);
  }

  lemma EmptyIsBlank(e: Env)
    ensures Classify(e, [], false) == Blank
  {
  }

  /** A line that nothing is stripped from. */
  lemma PlainRaw(e: Env, line: ByteString)
    requires line != [] && |line| <= e.cap && line[0] != COLON && line[0] != 0xEF && line[|line| - 1] != 13
    ensures Classify(e, line, true) == Field(FieldOf(line).0, FieldOf(line).1)
  {
    hide FieldOf;
    MarksExact(line);
  }

  /** One line, with no blank line behind it yet. */
  lemma FeedOneLine(e: Env, log: Log, raw: ByteString, line: Line)
    requires LF !in raw && Classify(e, raw, true) == line && line != Blank
    ensures Feed(e, Reset(log), raw + [LF]).core.log == log + Immediate(e, [line])
  {
    hide Split, Classify, Immediate, Feed;
    UnsplitOne(raw, LF);
    assert Unsplit([raw], LF) + [] == raw + [LF];
    SplitUnsplit([raw], [], LF);
    assert Init([raw]) == [] && ClassifyAll(e, [raw]) == [line];
    assert Unsplit([], Blank) + [line] == [line];
    SplitUnsplit([], [line], Blank);
    Refinement(e, log, raw + [LF]);
  }

  /** "data:a", without a space: the data is "a"; the event has the name "message" and no id. */
  lemma TightDataOffered(e: Env, log: Log)
    requires e.cap >= 6
    ensures Offers(Feed(e, Reset(log), Text("data:a") + [LF, LF]).core.log)
         == Offers(log) + [Message(Text("message"), Text("a"), [], e.accept(log))]
  {
    hide Feed, Offers;
    assert Text("data:a") == [100, 97, 116, 97, 58, 97] && Text("a") == [97];
    KeysExact();
    DataStream(e, log, Text("data:a"), Text("a"));
  }

  /** The same behind a byte-order mark. */
  lemma MarkedDataOffered(e: Env, log: Log)
    requires e.cap >= 9
    ensures Offers(Feed(e, Reset(log), [0xEF, 0xBB, 0xBF] + Text("data:a") + [LF, LF]).core.log)
         == Offers(log) + [Message(Text("message"), Text("a"), [], e.accept(log))]
  {
    hide Feed, Offers;
    assert Text("data:a") == [100, 97, 116, 97, 58, 97] && Text("a") == [97];
    KeysExact();
    MarksExact(Text("data:a"));
    DataStream(e, log, [0xEF, 0xBB, 0xBF] + Text("data:a"), Text("a"));
  }

  lemma DataStream(e: Env, log: Log, raw: ByteString, value: ByteString)
    requires raw == Text("data:a") || raw == [0xEF, 0xBB, 0xBF] + Text("data:a")
    requires |raw| <= e.cap && value == Text("a")
    ensures Offers(Feed(e, Reset(log), raw + [LF, LF]).core.log)
         == Offers(log) + [Message(MESSAGE, value, [], e.accept(log))]
  {
    hide Feed, Blocks, Offers, Classify;
    DataRaw(e, raw);
    assert raw + [LF, LF] == (raw + [LF]) + ([] + [LF]);
    OneFieldBlock(e, raw, [], Data, value);
    StreamOutcome(e, log, raw + [LF, LF], []);
    LostEvent.DataBlockMeans(e, log, value);
  }

  lemma DataRaw(e: Env, raw: ByteString)
    requires raw == Text("data:a") || raw == [0xEF, 0xBB, 0xBF] + Text("data:a")
    requires |raw| <= e.cap
    ensures Classify(e, raw, true) == Field(Data, Text("a")) && Classify(e, [], false) == Blank
    ensures LF !in raw && NUL !in Text("a")
  {
    hide NameOf, FieldOf, LineText, StripCR;
    var line := Text("data:a");
    assert line == [100, 97, 116, 97, 58, 97] && Text("a") == [97];
    assert line == Text("data") + Text(":") + Text("a");
    EmptyIsBlank(e);
    MarksExact(line);
    PlainRaw(e, line);
    NamesExact(Text("data"));
    CutExactData();
  }

  lemma CutExactData()
    ensures FieldOf(Text("data") + Text(":") + Text("a")) == (NameOf(Text("data")), Text("a"))
  {
    hide FieldOf, NameOf;
    assert Text("data") == [100, 97, 116, 97] && Text("a") == [97];
    CutExact(Text("data"), Text("a"));
  }

  /** A NUL in the data ends what the event shows of it. */
  lemma NulEndsData(e: Env, log: Log)
    requires e.cap >= 8
    ensures Offers(Feed(e, Reset(log), Text("data:a") + [0] + Text("b") + [LF, LF]).core.log)
         == Offers(log) + [Message(Text("message"), Text("a"), [], e.accept(log))]
  {
    hide Feed, Blocks, Offers, Classify, CStr;
    var raw, value := Text("data:a") + [0] + Text("b"), Text("a") + [0] + Text("b");
    NulRaw(e);
    assert Text("data:a") + [0] + Text("b") + [LF, LF] == (raw + [LF]) + ([] + [LF]);
    OneFieldBlock(e, raw, [], Data, value);
    StreamOutcome(e, log, (raw + [LF]) + ([] + [LF]), []);
    NulBlock(e, log);
  }

  lemma NulRaw(e: Env)
    requires e.cap >= 8
    ensures var raw := Text("data:a") + [0] + Text("b");
            && Classify(e, raw, true) == Field(Data, Text("a") + [0] + Text("b")) && LF !in raw && |raw| == 8
    ensures Classify(e, [], false) == Blank
  {
    hide NameOf, FieldOf, Classify;
    var raw, value := Text("data:a") + [0] + Text("b"), Text("a") + [0] + Text("b");
    assert Text("data:a") == [100, 97, 116, 97, 58, 97] && Text("a") == [97] && Text("b") == [98];
    assert Text("data") == [100, 97, 116, 97] && Text(":") == [58];
    assert raw == Text("data") + Text(":") + value;
    EmptyIsBlank(e);
    PlainRaw(e, raw);
    NamesExact(Text("data"));
    CutExact(Text("data"), value);
  }

  lemma NulBlock(e: Env, log: Log)
    requires e.cap >= 8
    ensures var blocks, pos := [[Field(Data, Text("a") + [0] + Text("b"))]], Position(None, false, log);
            Announce(Deliverables(e, blocks), Answers(e, pos, blocks))
            == [Message(Text("message"), Text("a"), [], e.accept(log))]
  {
    hide CStr, Values, Immediate;
    var value := Text("a") + [0] + Text("b");
    var block := [Field(Data, value)];
    assert Init(block) == [] && Init([block]) == [] && Text("a") == [97];
    ValuesOne(Data, value, Data);
    ValuesOne(Data, value, FieldName.Event);
    ValuesOne(Data, value, Id);
    UnsplitOne(value, LF);
    FieldsSilent(e, block);
    assert log + [] == log;
    KeysExact();
    CStrExact(Text("a"), Text("b"));
    CStrWhole([]);
    CStrWhole(MESSAGE);
  }

  /** "id:7", without a space: the resume position is "7". */
  lemma TightIdStored(e: Env, log: Log, initial: ByteString)
    requires e.cap >= 4
    ensures Resume(initial, Feed(e, Reset(log), Text("id:7") + [LF, LF]).core.log) == Text("7")
  {
    hide Feed, Blocks, Resume, Classify;
    var raw := Text("id:7");
    IdRaw(e);
    assert raw + [LF, LF] == (raw + [LF]) + ([] + [LF]);
    OneFieldBlock(e, raw, [], Id, Text("7"));
    StreamOutcome(e, log, raw + [LF, LF], initial);
    BlockedResume.IdBlockMeans(e, log, Text("7"));
  }

  lemma IdRaw(e: Env)
    requires e.cap >= 4
    ensures Classify(e, Text("id:7"), true) == Field(Id, Text("7")) && Classify(e, [], false) == Blank
    ensures LF !in Text("id:7") && NUL !in Text("7")
  {
    hide NameOf, FieldOf, LineText;
    var line := Text("id:7");
    assert line == [105, 100, 58, 55] && Text("7") == [55] && Text("id") == [105, 100];
    assert line == Text("id") + Text(":") + Text("7");
    EmptyIsBlank(e);
    PlainRaw(e, line);
    NamesExact(Text("id"));
    CutExact(Text("id"), Text("7"));
  }

  // ---------- what a cap does ----------

  /** A line that grows over the cap is reported once, at once, and what still comes of it changes nothing. */
  lemma LongLineReported(e: Env, log: Log, long: ByteString)
    requires |long| > e.cap && LF !in long
    ensures Feed(e, Reset(log), long).core.log == log + [Fault(LineTooLong)]
  {
    hide Feed, Split;
    assert IndexOf(long, LF) == |long| by {
      NotBefore(long, LF, |long|);
    }
    SplitNone(long, LF);
    FeedIsLines(e, Core(FRESH_BLOCK, log), long);
  }

  /** Two data lines that do not fit together: one report, and no event when the block ends. */
  lemma DataOverflowReported(e: Env, log: Log, a: ByteString, b: ByteString)
    requires Printable(e, DATA_KEY, a) && Printable(e, DATA_KEY, b) && |a| + |b| + 2 > e.cap
    ensures var bytes := (FieldLine(DATA_KEY, a) + [LF]) + (FieldLine(DATA_KEY, b) + [LF]);
            Feed(e, Reset(log), bytes).core.log == log + [Fault(DataTooLong)]
    ensures var bytes := (FieldLine(DATA_KEY, a) + [LF]) + (FieldLine(DATA_KEY, b) + [LF]);
            Feed(e, Reset(log), bytes + [LF]).core.log == log + [Fault(DataTooLong)]
  {
    hide Feed, Blocks, Immediate, Classify, EndBlock, EndBlocks, Printable;
    var x, y := FieldLine(DATA_KEY, a), FieldLine(DATA_KEY, b);
    var block := [Field(Data, a), Field(Data, b)];
    DataPairReads(e, a, b);
    OpenPair(e, x, y, block);
    Refinement(e, log, (x + [LF]) + (y + [LF]));
    Refinement(e, log, (x + [LF]) + (y + [LF]) + [LF]);
    OverflowReports(e, a, b);
    OverflowEnds(e, log, a, b);
  }

  lemma DataPairReads(e: Env, a: ByteString, b: ByteString)
    requires Printable(e, DATA_KEY, a) && Printable(e, DATA_KEY, b)
    ensures var x, y := FieldLine(DATA_KEY, a), FieldLine(DATA_KEY, b);
            ClassifyAll(e, [x, y]) == [Field(Data, a), Field(Data, b)] && LF !in x && LF !in y
  {
    hide Classify;
    KeyNames();
    FieldLineReads(e, DATA_KEY, a);
    FieldLineReads(e, DATA_KEY, b);
    var x, y := FieldLine(DATA_KEY, a), FieldLine(DATA_KEY, b);
    ClassifyPair(e, x, y);
    FirstAsAny(e, x);
  }

  lemma FirstAsAny(e: Env, raw: ByteString)
    requires !(BOM <= raw)
    ensures Classify(e, raw, true) == Classify(e, raw, false)
  {
  }

  lemma OpenPair(e: Env, x: ByteString, y: ByteString, block: seq<Line>)
    requires LF !in x && LF !in y && ClassifyAll(e, [x, y]) == block && Blank !in block
    ensures Blocks(e, (x + [LF]) + (y + [LF])) == ([], block)
    ensures Blocks(e, (x + [LF]) + (y + [LF]) + [LF]) == ([block], [])
  {
    hide ClassifyAll, Split, Unsplit;
    var bytes := (x + [LF]) + (y + [LF]);
    UnsplitPair(x, y, LF);
    assert Unsplit([x, y], LF) + [] == bytes;
    SplitUnsplit([x, y], [], LF);
    NoPieces(LF);
    assert Unsplit([], Blank) + block == block by {
      NoPieces(Blank);
    }
    SplitUnsplit([], block, Blank);
    assert [x, y] + [[]] == [x, y, []];
    UnsplitAppend([x, y], [[]], LF);
    UnsplitOne<byte>([], LF);
    assert Unsplit([x, y, []], LF) + [] == bytes + [LF];
    SplitUnsplit([x, y, []], [], LF);
    BlankBehind(e, x, y);
    UnsplitOne(block, Blank);
    assert Unsplit([block], Blank) + [] == block + [Blank];
    SplitUnsplit([block], [], Blank);
  }

  lemma NoPieces<T>(sep: T)
    ensures Unsplit([], sep) == []
  {
  }

  lemma BlankBehind(e: Env, x: ByteString, y: ByteString)
    ensures ClassifyAll(e, [x, y, []]) == ClassifyAll(e, [x, y]) + [Blank]
  {
    assert Init([x, y, []]) == [x, y];
  }

  lemma OverflowReports(e: Env, a: ByteString, b: ByteString)
    requires Printable(e, DATA_KEY, a) && |a| + |b| + 2 > e.cap
    ensures Poisoned(e, [Field(Data, a), Field(Data, b)])
    ensures Immediate(e, [Field(Data, a), Field(Data, b)]) == [Fault(DataTooLong)]
  {
    hide Values, Unsplit;
    var first, block := [Field(Data, a)], [Field(Data, a), Field(Data, b)];
    ValuesOne(Data, a, Data);
    UnsplitOne(a, LF);
    DataSnoc(e, first, Field(Data, b));
    assert first + [Field(Data, b)] == block && Init(block) == first;
    FieldsSilent(e, first);
  }

  lemma OverflowEnds(e: Env, log: Log, a: ByteString, b: ByteString)
    requires Poisoned(e, [Field(Data, a), Field(Data, b)])
    ensures var block, pos := [Field(Data, a), Field(Data, b)], Position(None, false, log);
            && EndBlocks(e, pos, []) == pos
            && EndBlocks(e, pos, [block]).log == log + Immediate(e, block) && Immediate(e, []) == []
  {
    hide Poisoned;
    assert Init([[Field(Data, a), Field(Data, b)]]) == [];
  }
}
