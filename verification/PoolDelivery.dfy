/**
 The whole path of the connection-pool adapter: sockets, headers, transfer coding, parser, queue answers and
 reconnects. If the server answers every request with the replay of what follows the id sent, every sound
 data block up to the stored resume position has been accepted by the queue.
 */
module PoolDelivery {
  import opened Bytes
  import opened ParserModel
  import opened SseParser
  import opened StreamSpec
  import opened Delivery
  import opened Replay
  import opened ChunkSize
  import opened ChunkDecoder
  import opened HeaderEnd
  import opened ResponseReader
  import opened Worker
  import opened ResponseHead
  import RoundTrip

  // ---------- at-least-once delivery ----------

  /** What a body of the given coding gives the parser. */
  function Payload(chunked: bool, body: ByteString): ByteString {
    if chunked then Decode(Start(FRESH), body).output else body
  }

  lemma BodyFeedsPayload(e: Env, m: Machine, chunked: bool, body: ByteString)
    ensures ReadBody(e, m, chunked, body).0 == Feed(e, m, Payload(chunked, body))
  {
  }

  /** Whenever the response opens, what has arrived of its body replays what follows id. */
  ghost predicate Serves(e: Env, history: seq<Item>, id: ByteString, t: Try) {
    var pieces := Pieces(t.turns);
    var header := ReadHeader(pieces);
    t.setup == Dialled(true) && header.Found? && header.end + header.size <= |Flatten(pieces)| ==>
      var info := HeadersOf(Flatten(pieces)[..header.end]);
      info.Some? && 200 <= info.value.status < 300 ==>
        Replays(e, history, id, Payload(info.value.chunked, Flatten(pieces)[header.end + header.size..]))
  }

  /** A server that frames such a replay in chunks keeps this promise, wherever the connection is lost. */
  lemma FramedServes(e: Env, history: seq<Item>, id: ByteString, framed: ByteString, payload: ByteString, cut: nat)
    requires Replays(e, history, id, payload) && Carries(framed, payload) && cut <= |framed|
    ensures Replays(e, history, id, Payload(true, framed[..cut]))
  {
    hide Replays, Decode;
    CarriesCut(framed, payload, cut);
    var output := Payload(true, framed[..cut]);
    ReplaysCut(e, history, id, payload, |output|);
    assert payload[..|output|] == output;
  }

  /** One such server: what follows the id among its raw blocks, rendered, in a single chunk. */
  lemma RenderedServes(e: Env, blocks: seq<Block>, id: ByteString, blanks: seq<ByteString>, cut: nat)
    requires PlainHistory(e, blocks) && BlankLines(e, blocks[BlockPosition(e, blocks, id)..], blanks)
    requires var text := RenderWith(blocks[BlockPosition(e, blocks, id)..], blanks);
             0 < |text| <= SIZE_MAX && cut <= |PlainBody(text)|
    ensures var text := RenderWith(blocks[BlockPosition(e, blocks, id)..], blanks);
            Replays(e, Said(e, blocks), id, Payload(true, PlainBody(text)[..cut]))
  {
    hide Replays, Payload, PlainBody, RenderWith, Said, PlainHistory, BlankLine, BlockPosition, Carries;
    var text := RenderWith(blocks[BlockPosition(e, blocks, id)..], blanks);
    ServedReplays(e, blocks, id, blanks, |text|);
    assert text[..|text|] == text;
    PlainBodyCarries(text);
    FramedServes(e, Said(e, blocks), id, PlainBody(text), text, cut);
  }

  /** Nothing received is a replay of anything. */
  lemma NothingReplays(e: Env, history: seq<Item>, id: ByteString)
    ensures Replays(e, history, id, [])
  {
    assert Split<byte>([], LF) == ([], []);
  }

  /** One turn of the worker is one attempt at the replay, or changes nothing it has offered or stored. */
  lemma TryIsAttempt(e: Env, history: seq<Item>, c: Config, w: WorkerState, t: Try) returns (attempt: Attempt)
    requires w.phase == Running && Serves(e, history, Resume(c.initialId, w.log), t)
    ensures QuietAttempt(attempt) && Replays(e, history, Resume(c.initialId, w.log), attempt.bytes)
    ensures Step(e, c, w, t).log == AttemptLog(e, w.log, attempt)
  {
    hide Feed, HeadersOf, ReadHeader, ReadBody, Payload, Replays, Resume, Sendable;
    var p := Perform(e, c, w.log, w.status, t);
    var epilogue: Log := if !t.stopAfter && !p.ok then [Failure(p.status)] else [];
    attempt := Attempt([], [], epilogue);
    if p.hasOpened {
      var pieces := Pieces(t.turns);
      var header := ReadHeader(pieces);
      var info := HeadersOf(Flatten(pieces)[..header.end]).value;
      var body := Flatten(pieces)[header.end + header.size..];
      var opening := Report(Reset(w.log), Open(info.status));
      BodyFeedsPayload(e, opening, info.chunked, body);
      attempt := Attempt([Open(info.status)], Payload(info.chunked, body), epilogue);
      assert p.log == ReadBody(e, opening, info.chunked, body).0.core.log;
    } else {
      assert p.log == w.log + [];
      FeedNothing(e, Reset(w.log + []));
      NothingReplays(e, history, Resume(c.initialId, w.log));
    }
    assert p.log + [] == p.log;
  }

  function LogAfter(e: Env, c: Config, tries: seq<Try>, n: nat): Log
    requires n <= |tries|
  {
    Steps(e, c, START, tries[..n]).log
  }

  ghost predicate ServesAll(e: Env, history: seq<Item>, c: Config, tries: seq<Try>) {
    forall i :: 0 <= i < |tries| ==> Serves(e, history, Resume(c.initialId, LogAfter(e, c, tries, i)), tries[i])
  }

  /** At-least-once delivery by the worker itself, from the socket to the queue. */
  lemma {:induction false} PoolAtLeastOnce(e: Env, history: seq<Item>, c: Config, tries: seq<Try>, j: nat)
      returns (n: nat)
    requires DistinctIds(history) && ServesAll(e, history, c, tries)
    requires PositionOf(history, c.initialId) <= j
    requires j < Progress(history, c.initialId, LogAfter(e, c, tries, |tries|))
    requires history[j].message.Some?
    ensures n < |tries|
    ensures Delivered(history, c.initialId, LogAfter(e, c, tries, n), LogAfter(e, c, tries, n + 1), j)
  {
    hide PositionOf, AttemptLog, Delivered, Serves, Perform, Resume;
    assert tries[..|tries|] == tries;
    if tries == [] {
      assert Steps(e, c, START, []).log == [];
      ResumeEmpty(c.initialId);
    } else {
      var before := Init(tries);
      assert before[..|before|] == before;
      var w := Steps(e, c, START, before);
      assert forall i :: 0 <= i < |before| ==> before[..i] == tries[..i];
      if j < Progress(history, c.initialId, w.log) {
        n := PoolAtLeastOnce(e, history, c, before, j);
        assert before[..n] == tries[..n] && before[..n + 1] == tries[..n + 1];
      } else {
        n := |before|;
        assert tries[..n] == before;
        if w.phase == Running {
          var attempt := TryIsAttempt(e, history, c, w, Last(tries));
          AttemptAdvances(e, history, c.initialId, w.log, attempt);
        }
      }
    }
  }

  lemma ResumeEmpty(initial: ByteString)
    ensures Resume(initial, []) == initial
  {
  }

  // ---------- events, from the server to the queue ----------

  /**
   From the server's events to the queue: printed, cut into chunks, framed, and received in any pieces behind
   any clean headers, exactly those events are offered, in order, and the attempt succeeds.
   */
  lemma EventsArrive(e: Env, log: Log, head: ByteString, info: HeaderInfo, events: seq<RoundTrip.Event>,
                     text: ByteString, body: ByteString, turns: seq<Turn>)
      returns (answers: seq<bool>)
    requires Opens(head, info) && Realistic(turns) && Flatten(Pieces(turns)) == head + CRLFCRLF + body
    requires info.chunked && Carries(body, text) && RoundTrip.Prints(e, events, text)
    ensures |answers| == |events|
    ensures var r := ReadWhole(e, Reset(log), turns);
            && Offers(r.machine.core.log) == Offers(log) + RoundTrip.MessagesOf(events, answers)
            && r.hasOpened && r.ok
  {
    hide Opens, ReadWhole, Feed, Carries, RoundTrip.Prints, RoundTrip.MessagesOf;
    var opening := log + [Open(info.status)];
    ChunkedDelivered(e, Reset(log), head, info, body, text, turns);
    FlattenOne(text);
    answers := RoundTrip.PrintParse(e, opening, events, [text]);
    FeedPiecesIsFeed(e, Reset(opening), [text]);
    OffersSnoc(log, Open(info.status));
  }

  /** The same for a plain body; whether the attempt succeeds depends on how the connection ends. */
  lemma EventsArrivePlain(e: Env, log: Log, head: ByteString, info: HeaderInfo, events: seq<RoundTrip.Event>,
                          text: ByteString, turns: seq<Turn>)
      returns (answers: seq<bool>)
    requires Opens(head, info) && !info.chunked && Realistic(turns)
    requires Flatten(Pieces(turns)) == head + CRLFCRLF + text && RoundTrip.Prints(e, events, text)
    ensures |answers| == |events|
    ensures var r := ReadWhole(e, Reset(log), turns);
            && Offers(r.machine.core.log) == Offers(log) + RoundTrip.MessagesOf(events, answers)
            && r.hasOpened && r.ok == EndsWell(turns)
  {
    hide Opens, ReadWhole, Feed, RoundTrip.Prints, RoundTrip.MessagesOf;
    var opening := log + [Open(info.status)];
    PlainDelivered(e, Reset(log), head, info, text, turns);
    FlattenOne(text);
    answers := RoundTrip.PrintParse(e, opening, events, [text]);
    FeedPiecesIsFeed(e, Reset(opening), [text]);
    OffersSnoc(log, Open(info.status));
  }

  /** One such response: a single chunk, behind "HTTP/1.1 200 OK" and its coding, in one receive. */
  lemma EventsArriveAtOnce(e: Env, log: Log, events: seq<RoundTrip.Event>, text: ByteString)
      returns (answers: seq<bool>)
    requires RoundTrip.Prints(e, events, text) && 0 < |text| <= 4096
    ensures |answers| == |events|
    ensures var response := CHUNKED_HEAD + CRLFCRLF + PlainBody(text);
            Offers(ReadWhole(e, Reset(log), [Got(response), EndOfStream]).machine.core.log)
            == Offers(log) + RoundTrip.MessagesOf(events, answers)
  {
    hide Opens, ReadWhole, Carries, PlainBody, Pieces, RoundTrip.Prints, RoundTrip.MessagesOf;
    var body, info := PlainBody(text), HeaderInfo(200, true);
    var response := CHUNKED_HEAD + CRLFCRLF + body;
    PlainBodyCarries(text);
    ChunkedHeadOpens();
    OnePiece(response);
    FlattenOne(response);
    answers := EventsArrive(e, log, CHUNKED_HEAD, info, events, text, body, [Got(response), EndOfStream]);
  }
}
