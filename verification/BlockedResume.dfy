/**
 A resume position that cannot be sent. The parser takes an id with a CR inside and commits it; the request
 refuses it as a header. From then on the worker only adds failures, for as long as it runs.
 */
module BlockedResume {
  import opened Bytes
  import opened ParserModel
  import opened SseParser
  import opened StreamSpec
  import opened Delivery
  import opened HeaderEnd
  import opened ResponseReader
  import opened ResponseHead
  import opened RoundTrip
  import opened Worker
  import Request

  // ---------- a stream that stores an id ----------

  /** One block that holds nothing but an id. */
  function IdStream(id: ByteString): ByteString {
    (FieldLine(ID_KEY, id) + [LF]) + [LF]
  }

  lemma IdBlocks(e: Env, id: ByteString)
    requires Printable(e, ID_KEY, id)
    ensures Blocks(e, IdStream(id)) == ([[Field(Id, id)]], []) && NUL !in id
  {
    hide Blocks, Classify, Printable;
    FieldLineReads(e, ID_KEY, id);
    IdLine(e, id);
    assert [] + [LF] == [LF];
    OneFieldBlock(e, FieldLine(ID_KEY, id), [], Id, id);
  }

  /** Any printable id, one with a CR inside too, becomes the resume position. */
  lemma IdStored(e: Env, log: Log, id: ByteString, initial: ByteString)
    requires Printable(e, ID_KEY, id)
    ensures Resume(initial, Feed(e, Reset(log), IdStream(id)).core.log) == id
  {
    hide Feed, Blocks, Resume, Printable;
    IdBlocks(e, id);
    StreamOutcome(e, log, IdStream(id), initial);
    IdBlockMeans(e, log, id);
  }

  lemma IdLine(e: Env, id: ByteString)
    requires Printable(e, ID_KEY, id)
    requires Classify(e, FieldLine(ID_KEY, id), false) == Field(NameOf(ID_KEY), id)
    ensures Classify(e, FieldLine(ID_KEY, id), true) == Field(Id, id) && Classify(e, [], false) == Blank
    ensures LF !in FieldLine(ID_KEY, id) && |FieldLine(ID_KEY, id)| <= e.cap && NUL !in id
  {
    hide NameOf, FieldOf;
    assert FieldLine(ID_KEY, id)[0] == 105;
    KeyNames();
  }

  lemma IdBlockMeans(e: Env, log: Log, id: ByteString)
    requires NUL !in id
    ensures var blocks, pos := [[Field(Id, id)]], Position(None, false, log);
            && BeforeRefusal(e, pos, blocks) == 1 && LastIdOf(e, blocks[..1]) == Some(id) && CStr(id) == id
  {
    hide CStr, Values;
    var block, pos := [Field(Id, id)], Position(None, false, log);
    assert Init(block) == [] && Init([block]) == [] && [block][..1] == [block];
    ValuesOne(Id, id, Id);
    ValuesOne(Id, id, Data);
    assert LastValue(block, Id) == Some(id) && !Poisoned(e, block);
    assert EndBlocks(e, pos, []) == pos && !EndBlock(e, pos, block).dropped;
    CStrWhole(id);
  }

  // ---------- the worker afterwards ----------

  predicate OnlyFailures(before: Log, after: Log) {
    before <= after && forall i :: |before| <= i < |after| ==> after[i].Failure?
  }

  lemma NotSendable(c: Config, log: Log)
    requires Request.HasControlChars(Resume(c.initialId, log))
    ensures !Sendable(c, log)
  {
    var id := Resume(c.initialId, log);
    var own := Request.Header(Request.LAST_EVENT_ID, id);
    assert own in Request.SentHeaders(c.headers, id) && !Request.ValidHeader(own);
  }

  lemma PerformFails(e: Env, c: Config, log: Log, status: int, t: Try)
    requires !Sendable(c, log)
    ensures Perform(e, c, log, status, t).log == log
  {
    hide Sendable, ReadWhole;
  }

  lemma StepFails(e: Env, c: Config, w: WorkerState, t: Try)
    requires Request.HasControlChars(Resume(c.initialId, w.log))
    ensures var after := Step(e, c, w, t);
            OnlyFailures(w.log, after.log) && Resume(c.initialId, after.log) == Resume(c.initialId, w.log)
  {
    hide Request.HasControlChars, Perform, Resume;
    NotSendable(c, w.log);
    PerformFails(e, c, w.log, w.status, t);
    ResumeSnoc(c.initialId, w.log, Failure(Perform(e, c, w.log, w.status, t).status));
  }

  /** However many attempts follow, they add nothing but failures, and the position stays as it is. */
  lemma {:induction false} FailsForever(e: Env, c: Config, w: WorkerState, tries: seq<Try>)
    requires Request.HasControlChars(Resume(c.initialId, w.log))
    ensures var after := Steps(e, c, w, tries);
            OnlyFailures(w.log, after.log) && Resume(c.initialId, after.log) == Resume(c.initialId, w.log)
  {
    hide Step, Resume, Request.HasControlChars;
    if tries != [] {
      FailsForever(e, c, w, Init(tries));
      StepFails(e, c, Steps(e, c, w, Init(tries)), Last(tries));
    }
  }

  /** "HTTP/1.1 200 OK" and an empty body. */
  const OPENING := Try(Dialled(true), [Got(OK_HEAD + CRLFCRLF), EndOfStream], false, false)

  lemma OpeningOpens(e: Env, c: Config, w: WorkerState)
    requires w.phase == Running && Sendable(c, w.log)
    ensures Step(e, c, w, OPENING).log == w.log + [Open(200)]
  {
    hide Sendable, ReadWhole, Opens;
    var turns := OPENING.turns;
    OkHeadOpens();
    OnePiece(OK_HEAD + CRLFCRLF);
    FlattenOne(OK_HEAD + CRLFCRLF);
    assert OK_HEAD + CRLFCRLF + [] == OK_HEAD + CRLFCRLF;
    PlainDelivered(e, Reset(w.log), OK_HEAD, HeaderInfo(200, false), [], turns);
    FeedNothing(e, Report(Reset(w.log), Open(200)));
    assert turns[1..] == [EndOfStream] && EndsWell(turns);
  }

  /** A running worker can do nothing but fail if and only if its stored position holds a CR or an LF. */
  lemma FailsForeverIff(e: Env, c: Config, w: WorkerState)
    requires w.phase == Running && forall header :: header in c.headers ==> Request.ValidHeader(header)
    ensures (forall tries :: OnlyFailures(w.log, Steps(e, c, w, tries).log))
       <==> Request.HasControlChars(Resume(c.initialId, w.log))
  {
    hide Steps, Resume, Request.HasControlChars, Request.ValidHeader;
    if Request.HasControlChars(Resume(c.initialId, w.log)) {
      forall tries: seq<Try>
        ensures OnlyFailures(w.log, Steps(e, c, w, tries).log)
      {
        FailsForever(e, c, w, tries);
      }
    } else {
      var tries := OpeningOpensRun(e, c, w);
      var after := Steps(e, c, w, tries).log;
      assert after[|w.log|] == Open(200);
      assert !OnlyFailures(w.log, after);
    }
  }

  lemma OpeningOpensRun(e: Env, c: Config, w: WorkerState) returns (tries: seq<Try>)
    requires w.phase == Running && !Request.HasControlChars(Resume(c.initialId, w.log))
    requires forall header :: header in c.headers ==> Request.ValidHeader(header)
    ensures Steps(e, c, w, tries).log == w.log + [Open(200)]
  {
    hide Step, Request.HasControlChars;
    Request.SendableIff(c.headers, Resume(c.initialId, w.log));
    OpeningOpens(e, c, w);
    tries := [OPENING];
    assert Init(tries) == [] && Last(tries) == OPENING;
    assert Steps(e, c, w, []) == w;
  }

  // ---------- the stream and the worker together ----------

  lemma {:induction false} StepsAppend(e: Env, c: Config, w: WorkerState, a: seq<Try>, b: seq<Try>)
    ensures Steps(e, c, w, a + b) == Steps(e, c, Steps(e, c, w, a), b)
  {
    hide Step;
    if b == [] {
      assert a + b == a;
    } else {
      StepsAppend(e, c, w, a, Init(b));
      assert Init(a + b) == a + Init(b) && Last(a + b) == Last(b);
    }
  }

  /** A worker whose first response is a block with such an id stores it, and then only fails. */
  lemma CommittedIdBlocks(e: Env, c: Config, head: ByteString, info: HeaderInfo, id: ByteString, t: Try,
                          tries: seq<Try>)
    requires Sendable(c, []) && t.setup == Dialled(true)
    requires Opens(head, info) && !info.chunked && Realistic(t.turns)
    requires Flatten(Pieces(t.turns)) == head + CRLFCRLF + IdStream(id)
    requires Printable(e, ID_KEY, id) && CR in id
    ensures var stored := Steps(e, c, START, [t]);
            && Resume(c.initialId, stored.log) == id
            && OnlyFailures(stored.log, Steps(e, c, START, [t] + tries).log)
  {
    hide Sendable, ReadWhole, Opens, Printable, IdStream, Resume, OnlyFailures, Feed;
    var opening := [Open(info.status)];
    PlainDelivered(e, Reset([]), head, info, IdStream(id), t.turns);
    assert [] + opening == opening;
    IdStored(e, opening, id, c.initialId);
    assert Init([t]) == [] && Last([t]) == t;
    assert Steps(e, c, START, []) == START && Steps(e, c, START, [t]) == Step(e, c, START, t);
    var p := Perform(e, c, [], 0, t);
    ResumeSnoc(c.initialId, p.log, Failure(p.status));
    StepsAppend(e, c, START, [t], tries);
    FailsForever(e, c, Steps(e, c, START, [t]), tries);
  }

  /** "id: a", CR, "b", two LFs. */
  lemma BlockedExample(e: Env, c: Config, tries: seq<Try>)
    requires e.cap >= 7 && c.headers == [] && c.initialId == []
    ensures var response := OK_HEAD + CRLFCRLF + [105, 100, 58, 32, 97, 13, 98, 10, 10];
            var t := Try(Dialled(true), [Got(response), EndOfStream], false, false);
            var stored := Steps(e, c, START, [t]);
            && Resume(c.initialId, stored.log) == [97, 13, 98]
            && OnlyFailures(stored.log, Steps(e, c, START, [t] + tries).log)
  {
    hide ReadWhole, Opens, Resume, OnlyFailures, Step, Steps, Pieces;
    var id: ByteString := [97, 13, 98];
    var response := OK_HEAD + CRLFCRLF + [105, 100, 58, 32, 97, 13, 98, 10, 10];
    var t := Try(Dialled(true), [Got(response), EndOfStream], false, false);
    assert IdStream(id) == [105, 100, 58, 32, 97, 13, 98, 10, 10];
    OkHeadOpens();
    OnePiece(response);
    FlattenOne(response);
    ResumeNothing(c);
    CommittedIdBlocks(e, c, OK_HEAD, HeaderInfo(200, false), id, t, tries);
  }

  lemma ResumeNothing(c: Config)
    requires c.headers == [] && c.initialId == []
    ensures Sendable(c, [])
  {
  }
}
