/**
 The worker of the connection-pool adapter: attempt after attempt, each with a fresh parser and the stored
 resume position, until the stop flag is seen or reconnecting is off.
 */
module Worker {
  import opened Bytes
  import opened ParserModel
  import opened SseParser
  import opened ChunkDecoder
  import opened HeaderEnd
  import opened ResponseReader
  import opened ResponseLoop
  import Request

  datatype Setup = NoPool | BadUrl | DialFailed | StoppedAfterDial | Dialled(sent: bool)

  /** What the world does during one attempt, with what each look at the stop flag finds. */
  datatype Try = Try(setup: Setup, turns: seq<Turn>, stopAtReturn: bool, stopAfter: bool)

  datatype Config = Config(
    path: ByteString,
    host: ByteString,
    headers: seq<Request.Header>,
    reconnect: bool,
    initialId: ByteString
  )

  predicate Sendable(c: Config, log: Log) {
    forall header :: header in Request.SentHeaders(c.headers, Resume(c.initialId, log)) ==> Request.ValidHeader(header)
  }

  datatype Performed = Performed(log: Log, hasOpened: bool, status: int, ok: bool)

  /** One attempt; a missing pool or an unusable URL fails it before the status is cleared. */
  function Perform(e: Env, c: Config, log: Log, status: int, t: Try): Performed {
    match t.setup
    case NoPool => Performed(log, false, status, false)
    case BadUrl => Performed(log, false, status, false)
    case DialFailed => Performed(log, false, 0, false)
    case StoppedAfterDial => Performed(log, false, 0, true)
    case Dialled(sent) =>
      if !Sendable(c, log) || !sent then Performed(log, false, 0, false)
      else
        var r := ReadWhole(e, Reset(log), t.turns);
        Performed(r.machine.core.log, r.hasOpened, r.status, r.ok || t.stopAtReturn)
  }

  datatype Phase = Running | StopSeen | ReconnectOff

  datatype WorkerState = WorkerState(log: Log, status: int, phase: Phase)

  function Step(e: Env, c: Config, w: WorkerState, t: Try): WorkerState {
    if w.phase != Running then w
    else
      var p := Perform(e, c, w.log, w.status, t);
      if t.stopAfter then WorkerState(p.log, p.status, StopSeen)
      else
        WorkerState(if p.ok then p.log else p.log + [Failure(p.status)], p.status,
                    if c.reconnect then Running else ReconnectOff)
  }

  const START := WorkerState([], 0, Running)

  function Steps(e: Env, c: Config, w: WorkerState, tries: seq<Try>): WorkerState {
    if tries == [] then w else Step(e, c, Steps(e, c, w, Init(tries)), Last(tries))
  }

  /** The whole run; stopAtEnd is the last look at the stop flag. */
  function WorkerLog(e: Env, c: Config, tries: seq<Try>, stopAtEnd: bool): Log {
    var w := Steps(e, c, START, tries);
    if w.phase == ReconnectOff && !stopAtEnd then w.log + [Closed] else w.log
  }

  // ---------- the looks at the stop flag ----------

  /** The pieces received so far decide the attempt: the receive loop returns without another look. */
  predicate DecidedBy(pieces: seq<ByteString>) {
    var header := ReadHeader(pieces);
    !header.Reading? &&
    if header.TooLarge? || header.end + header.size > |Flatten(pieces)| then true
    else
      var info := HeadersOf(Flatten(pieces)[..header.end]);
      if info.None? || !(200 <= info.value.status < 300) then true
      else
        var f := Decode(ChunkDecoder.Start(FRESH), Flatten(pieces)[header.end + header.size..]);
        info.value.chunked && (f.error.Some? || f.d.state == Done)
  }

  /**
   What the receive loop's looks at the flag find, each in front of a turn, until the attempt is decided or the
   connection ends. Turns that are used up end in a stop.
   */
  function TurnLooks(before: seq<Turn>, turns: seq<Turn>): seq<bool>
    decreases |turns|
  {
    if DecidedBy(Pieces(before)) then []
    else if turns == [] then [true]
    else
      match turns[0]
      case Stopped => [true]
      case Got(_) => [false] + TurnLooks(before + [turns[0]], turns[1..])
      case TryAgain => [false] + TurnLooks(before + [turns[0]], turns[1..])
      case WaitFailed => [false]
      case Broken(stopSeen) => [false, stopSeen]
      case EndOfStream => [false]
  }

  /** What every look taken during an attempt, and the one behind it, finds. */
  function Looks(c: Config, log: Log, t: Try): seq<bool> {
    match t.setup
    case StoppedAfterDial => [true, t.stopAfter]
    case Dialled(sent) =>
      [false] + (if sent && Sendable(c, log) then TurnLooks([], t.turns) + [t.stopAtReturn] else []) + [t.stopAfter]
    case _ => [t.stopAfter]
  }

  /** The stop flag, once set, stays set. */
  predicate Sticky(looks: seq<bool>) {
    forall i, j :: 0 <= i < j < |looks| && looks[i] ==> looks[j]
  }

  // ---------- the loop ----------

  method PerformOnce(c: Config, parser: SSEParser, connection: Connection, t: Try) returns (ok: bool)
    requires connection.Valid() && connection.initialId == c.initialId
    modifies parser, connection
    ensures connection.Valid()
    ensures var p := Perform(connection.e, c, old(connection.log), old(connection.status), t);
            connection.log == p.log && connection.status == p.status && ok == p.ok
  {
    hide ReadWhole, Request.ValidHeader, Resume, RetryDelay;
    if t.setup.NoPool? || t.setup.BadUrl? {
      return false;
    }
    parser.Reset();
    parser.ResetView(connection);
    connection.status := 0;
    connection.hasOpened := false;
    if t.setup.DialFailed? {
      return false;
    }
    if t.setup.StoppedAfterDial? {
      return true;
    }
    assert connection.lastEventId == Resume(c.initialId, connection.log);
    var request := Request.BuildRequest(c.path, c.host, c.headers, connection.lastEventId);
    if request.None? || !t.setup.sent {
      return false;
    }
    ok := ReadResponse(parser, connection, t.turns);
    if t.stopAtReturn {
      ok := true;
    }
  }

  method Run(c: Config, parser: SSEParser, connection: Connection, tries: seq<Try>, stopAtEnd: bool)
    requires connection.Valid() && connection.initialId == c.initialId
    requires connection.log == [] && connection.status == 0
    modifies parser, connection
    ensures connection.Valid() && connection.log == WorkerLog(connection.e, c, tries, stopAtEnd)
  {
    hide Perform;
    var i := 0;
    var reconnectOff := false;
    while i < |tries|
      invariant i <= |tries| && connection.Valid() && !reconnectOff
      invariant Steps(connection.e, c, START, tries[..i]) == WorkerState(connection.log, connection.status, Running)
    {
      assert Init(tries[..i + 1]) == tries[..i];
      assert tries == tries[..i + 1] + tries[i + 1..];
      var ok := PerformOnce(c, parser, connection, tries[i]);
      i := i + 1;
      if tries[i - 1].stopAfter {
        StepsStop(connection.e, c, START, tries, i);
        break;
      }
      if !ok {
        connection.Report(Failure(connection.status));
      }
      if !c.reconnect {
        reconnectOff := true;
        StepsStop(connection.e, c, START, tries, i);
        break;
      }
    }
    assert tries[..|tries|] == tries;
    if reconnectOff && !stopAtEnd {
      connection.Report(Closed);
    }
  }

  lemma {:induction false} StepsStop(e: Env, c: Config, w: WorkerState, tries: seq<Try>, i: nat)
    requires i <= |tries| && Steps(e, c, w, tries[..i]).phase != Running
    ensures Steps(e, c, w, tries) == Steps(e, c, w, tries[..i])
  {
    hide Perform;
    if i < |tries| {
      assert Init(tries)[..i] == tries[..i];
      StepsStop(e, c, w, Init(tries), i);
    } else {
      assert tries[..i] == tries;
    }
  }

  // ---------- the grammar of a worker's reports ----------

  predicate ParserOutput(log: Log) {
    forall a :: a in log ==> a.Message? || a.Commit? || a.Retry? || a.Fault?
  }

  lemma CoreOutput(e: Env, c: Core, line: ByteString)
    ensures c.log <= ProcessText(e, c, line).log
    ensures ParserOutput(ProcessText(e, c, line).log[|c.log|..])
  {
    hide CStr, StartBlock;
    if line != [] && !c.b.eventPoisoned && line[0] != COLON {
      var (name, value) := FieldOf(line);
      assert c.log <= ProcessField(e, c, name, value).log;
    }
  }

  lemma {:induction false} FeedOutput(e: Env, m: Machine, bytes: ByteString)
    ensures m.core.log <= Feed(e, m, bytes).core.log
    ensures ParserOutput(Feed(e, m, bytes).core.log[|m.core.log|..])
  {
    hide ProcessText, LineText;
    if bytes != [] {
      var before := Feed(e, m, Init(bytes));
      FeedOutput(e, m, Init(bytes));
      CoreOutput(e, before.core, LineText(before.line, before.firstLine));
      var after := Feed(e, m, bytes);
      assert before.core.log <= after.core.log;
      assert after.core.log[|m.core.log|..]
          == before.core.log[|m.core.log|..] + after.core.log[|before.core.log|..];
    }
  }

  /** The reports of one attempt: at most one Open, parser output only behind it, at most one Failure, last. */
  datatype Segment = Segment(open: Option<int>, output: Log, failure: Option<int>)

  predicate ValidSegment(s: Segment) {
    && ParserOutput(s.output)
    && (s.open.None? ==> s.output == [])
    && (s.open.Some? ==> 200 <= s.open.value < 300)
  }

  function Text(s: Segment): Log {
    (if s.open.Some? then [Open(s.open.value)] else []) + s.output
    + (if s.failure.Some? then [Failure(s.failure.value)] else [])
  }

  function Texts(segments: seq<Segment>): Log {
    if segments == [] then [] else Texts(Init(segments)) + Text(Last(segments))
  }

  lemma PerformSegment(e: Env, c: Config, log: Log, status: int, t: Try) returns (s: Segment)
    ensures ValidSegment(s) && s.failure.None?
    ensures Perform(e, c, log, status, t).log == log + Text(s)
  {
    hide Feed, HeadersOf, ReadHeader, Decode;
    s := Segment(None, [], None);
    var p := Perform(e, c, log, status, t);
    if p.hasOpened {
      var pieces := Pieces(t.turns);
      var header := ReadHeader(pieces);
      var info := HeadersOf(Flatten(pieces)[..header.end]).value;
      var body := Flatten(pieces)[header.end + header.size..];
      var opening := Report(Reset(log), Open(info.status));
      var fed := if info.chunked then Decode(Start(FRESH), body).output else body;
      FeedOutput(e, opening, fed);
      s := Segment(Some(info.status), Feed(e, opening, fed).core.log[|log| + 1..], None);
      assert p.log == Feed(e, opening, fed).core.log;
    }
  }

  /**
   A worker's reports are one segment per attempt. The loop is only left because the stop flag was seen, or
   because reconnecting is off, and then after its one attempt.
   */
  lemma {:induction false} AttemptSegments(e: Env, c: Config, tries: seq<Try>) returns (segments: seq<Segment>)
    ensures forall s :: s in segments ==> ValidSegment(s)
    ensures |segments| <= |tries| && (c.reconnect || |segments| <= 1)
    ensures var w := Steps(e, c, START, tries);
            && w.log == Texts(segments)
            && (w.phase == ReconnectOff ==> !c.reconnect && |segments| == 1 && !tries[0].stopAfter)
  {
    hide Step, Text, ValidSegment;
    segments := [];
    if tries != [] {
      var w := Steps(e, c, START, Init(tries));
      segments := AttemptSegments(e, c, Init(tries));
      Left(e, c, w, Last(tries));
      if w.phase == Running {
        if !c.reconnect {
          SingleTry(e, c, tries);
        }
        var s := StepSegment(e, c, w, Last(tries));
        InitLast(segments, s);
        segments := segments + [s];
      }
    }
  }

  lemma StepSegment(e: Env, c: Config, w: WorkerState, t: Try) returns (s: Segment)
    requires w.phase == Running
    ensures ValidSegment(s) && Step(e, c, w, t).log == w.log + Text(s)
  {
    hide Perform, ValidSegment, Text;
    s := PerformSegment(e, c, w.log, w.status, t);
    var p := Perform(e, c, w.log, w.status, t);
    if !t.stopAfter && !p.ok {
      s := AddFailure(s, p.status);
    }
  }

  lemma Left(e: Env, c: Config, w: WorkerState, t: Try)
    ensures w.phase != Running ==> Step(e, c, w, t) == w
    ensures w.phase == Running && Step(e, c, w, t).phase == ReconnectOff ==> !c.reconnect && !t.stopAfter
  {
    hide Perform;
  }

  /**
   The grammar of a whole run: one segment per attempt, then at most one Closed. Closed only comes when
   reconnecting is off, behind a single attempt, and when no look at the stop flag ever found it set.
   */
  lemma WorkerGrammar(e: Env, c: Config, tries: seq<Try>, stopAtEnd: bool)
    returns (segments: seq<Segment>, closed: bool)
    ensures WorkerLog(e, c, tries, stopAtEnd) == Texts(segments) + if closed then [Closed] else []
    ensures forall s :: s in segments ==> ValidSegment(s)
    ensures |segments| <= |tries| && (c.reconnect || |segments| <= 1)
    ensures closed ==> !c.reconnect && |segments| == 1 && !tries[0].stopAfter && !stopAtEnd
    ensures closed && Sticky(Looks(c, [], tries[0]) + [stopAtEnd]) ==> true !in Looks(c, [], tries[0])
  {
    hide Steps, Texts, ValidSegment, Looks;
    segments := AttemptSegments(e, c, tries);
    closed := Steps(e, c, START, tries).phase == ReconnectOff && !stopAtEnd;
    if closed && Sticky(Looks(c, [], tries[0]) + [stopAtEnd]) {
      var looks := Looks(c, [], tries[0]);
      forall i | 0 <= i < |looks|
        ensures !looks[i]
      {
        assert (looks + [stopAtEnd])[i] == looks[i] && (looks + [stopAtEnd])[|looks|] == stopAtEnd;
      }
    }
  }

  /** The other way round: without a stop, and without reconnecting, the run is its one attempt, and then Closed. */
  lemma ClosedUnlessStopped(e: Env, c: Config, t: Try) returns (s: Segment)
    requires !c.reconnect && true !in Looks(c, [], t)
    ensures ValidSegment(s) && WorkerLog(e, c, [t], false) == Text(s) + [Closed] && Closed !in Text(s)
  {
    hide Perform, Looks;
    LooksEnd(c, [], t);
    assert Init([t]) == [] && Last([t]) == t;
    assert Steps(e, c, START, []) == START && Steps(e, c, START, [t]) == Step(e, c, START, t);
    s := StepSegment(e, c, START, t);
    assert [] + Text(s) == Text(s);
  }

  lemma LooksEnd(c: Config, log: Log, t: Try)
    ensures Looks(c, log, t) != [] && Last(Looks(c, log, t)) == t.stopAfter
  {
  }

  lemma StepLeaves(e: Env, c: Config, w: WorkerState, t: Try)
    requires !c.reconnect
    ensures Step(e, c, w, t).phase != Running
  {
    hide Perform;
  }

  lemma SingleTry(e: Env, c: Config, tries: seq<Try>)
    requires !c.reconnect && tries != []
    requires Steps(e, c, START, Init(tries)).phase == Running
    ensures |tries| == 1
  {
    hide Perform;
    if |tries| > 1 {
      StepLeaves(e, c, Steps(e, c, START, Init(Init(tries))), Last(Init(tries)));
    }
  }

  lemma AddFailure(s: Segment, status: int) returns (r: Segment)
    requires ValidSegment(s) && s.failure.None?
    ensures ValidSegment(r) && Text(r) == Text(s) + [Failure(status)]
  {
    r := s.(failure := Some(status));
  }

  // ---------- which attempts fail, and when the worker goes on ----------

  /** The failures in front of a response: each is reported, unless a stop has been seen. */
  lemma EarlyFailures(e: Env, c: Config, w: WorkerState, turns: seq<Turn>, stopAtReturn: bool)
    requires w.phase == Running
    ensures Step(e, c, w, Try(NoPool, turns, stopAtReturn, false)).log == w.log + [Failure(w.status)]
    ensures Step(e, c, w, Try(BadUrl, turns, stopAtReturn, false)).log == w.log + [Failure(w.status)]
    ensures Step(e, c, w, Try(DialFailed, turns, stopAtReturn, false)).log == w.log + [Failure(0)]
    ensures Step(e, c, w, Try(Dialled(false), turns, stopAtReturn, false)).log == w.log + [Failure(0)]
    ensures !Sendable(c, w.log) ==>
              Step(e, c, w, Try(Dialled(true), turns, stopAtReturn, false)).log == w.log + [Failure(0)]
    ensures Sendable(c, w.log) ==> Perform(e, c, w.log, w.status, Try(Dialled(true), turns, true, true)).ok
    ensures Step(e, c, w, Try(StoppedAfterDial, turns, stopAtReturn, true)).log == w.log
    ensures Step(e, c, w, Try(DialFailed, turns, stopAtReturn, true)).log == w.log
  {
    hide Sendable, ReadWhole;
  }

  lemma {:induction false} EndsWellExact(going: seq<Turn>, last: Turn, rest: seq<Turn>)
    requires forall turn :: turn in going ==> turn.Got? || turn.TryAgain?
    requires !last.Got? && !last.TryAgain?
    ensures EndsWell(going + [last] + rest) <==> last != WaitFailed && last != Broken(false)
  {
    if going == [] {
      assert ([] + [last] + rest)[0] == last;
    } else {
      assert going[0] in going && forall turn :: turn in going[1..] ==> turn in going;
      EndsWellExact(going[1..], last, rest);
      assert (going + [last] + rest)[1..] == going[1..] + [last] + rest && (going + [last] + rest)[0] == going[0];
    }
  }

  /**
   An attempt that is not decided by what it receives fails exactly if a wait or a receive fails; the end of the
   stream and a stop are no failures.
   */
  lemma UndecidedAttempt(e: Env, c: Config, w: WorkerState, going: seq<Turn>, last: Turn, rest: seq<Turn>)
    requires w.phase == Running && Sendable(c, w.log)
    requires forall turn :: turn in going ==> turn.Got? || turn.TryAgain?
    requires !last.Got? && !last.TryAgain? && !DecidedBy(Pieces(going + [last] + rest))
    ensures var t := Try(Dialled(true), going + [last] + rest, false, false);
            var p, after := Perform(e, c, w.log, w.status, t), Step(e, c, w, t);
            && p.ok == (last != WaitFailed && last != Broken(false))
            && after.log == p.log + (if p.ok then [] else [Failure(p.status)])
  {
    hide Sendable, Feed, Decode, HeadersOf, ReadHeader, Pieces, Flatten;
    EndsWellExact(going, last, rest);
    UndecidedRead(e, Reset(w.log), going + [last] + rest);
    var p := Perform(e, c, w.log, w.status, Try(Dialled(true), going + [last] + rest, false, false));
    assert p.log + [] == p.log;
  }

  lemma UndecidedRead(e: Env, m: Machine, turns: seq<Turn>)
    requires !DecidedBy(Pieces(turns))
    ensures ReadWhole(e, m, turns).ok == EndsWell(turns)
  {
    hide Feed, Decode, HeadersOf, ReadHeader, Pieces, Flatten, EndsWell;
  }

  /** As long as reconnecting is on and no stop is seen, the worker goes on, one attempt after another. */
  lemma {:induction false} KeepsTrying(e: Env, c: Config, w: WorkerState, tries: seq<Try>)
    requires c.reconnect && w.phase == Running && forall t :: t in tries ==> !t.stopAfter
    ensures Steps(e, c, w, tries).phase == Running
  {
    hide Perform;
    if tries != [] {
      assert forall t :: t in Init(tries) ==> t in tries;
      assert Last(tries) in tries;
      KeepsTrying(e, c, w, Init(tries));
    }
  }

  /** Without reconnecting the first attempt is the last, and behind a stop there is none. */
  lemma StopsTrying(e: Env, c: Config, w: WorkerState, t: Try, tries: seq<Try>)
    requires !c.reconnect || t.stopAfter
    ensures Steps(e, c, Step(e, c, w, t), tries) == Step(e, c, w, t)
  {
    StaysStopped(e, c, Step(e, c, w, t), tries);
  }

  lemma {:induction false} StaysStopped(e: Env, c: Config, w: WorkerState, tries: seq<Try>)
    requires w.phase != Running
    ensures Steps(e, c, w, tries) == w
  {
    hide Perform;
    if tries != [] {
      StaysStopped(e, c, w, Init(tries));
    }
  }
}
