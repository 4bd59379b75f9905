/** Reading one response: headers first, then the body, piece by piece, into the parser. */
module ResponseReader {
  import opened Bytes
  import opened ParserModel
  import opened SseParser
  import opened ChunkDecoder
  import opened ChunkedBody
  import opened HeaderEnd

  // ---------- the header text ----------

  predicate IsSpace(c: byte) { c == 32 || 9 <= c <= 13 }

  function SkipSpace(s: ByteString): ByteString {
    if s != [] && IsSpace(s[0]) then SkipSpace(s[1..]) else s
  }

  function SkipWord(s: ByteString): ByteString {
    if s != [] && !IsSpace(s[0]) then SkipWord(s[1..]) else s
  }

  function LeadingDigits(s: ByteString): (digits: ByteString)
    ensures AllDigits(digits)
  {
    if s != [] && IsDigit(s[0]) then [s[0]] + LeadingDigits(s[1..]) else []
  }

  /** The number "%d" reads. */
  function ScanInt(s: ByteString): Option<int> {
    var negative := s != [] && s[0] == 45;
    var digits := LeadingDigits(if s != [] && (s[0] == 45 || s[0] == 43) then s[1..] else s);
    var value: int := DecimalValue(digits);
    if digits == [] then None else Some(if negative then -value else value)
  }

  const HTTP: ByteString := [72, 84, 84, 80, 47]  // "HTTP/"

  /** The status "HTTP/%*s %d" finds in a line. */
  function ScanStatus(line: ByteString): Option<int> {
    if !(HTTP <= line) then None
    else
      var version := SkipSpace(line[5..]);
      if version == [] then None else ScanInt(SkipSpace(SkipWord(version)))
  }

  function LowerASCII(s: ByteString): ByteString {
    seq(|s|, i requires 0 <= i < |s| => if 65 <= s[i] <= 90 then s[i] + 32 else s[i])
  }

  // "transfer-encoding:" and "chunked"
  const TRANSFER_ENCODING: ByteString :=
    [116, 114, 97, 110, 115, 102, 101, 114, 45, 101, 110, 99, 111, 100, 105, 110, 103, 58]
  const CHUNKED: ByteString := [99, 104, 117, 110, 107, 101, 100]

  predicate SaysChunked(line: ByteString) {
    TRANSFER_ENCODING <= LowerASCII(line) && Find(LowerASCII(line), CHUNKED).Some?
  }

  predicate AnyChunked(lines: ByteString) {
    lines != [] &&
    var end := IndexOf(lines, LF);
    SaysChunked(StripCR(lines[..end])) || (end < |lines| && AnyChunked(lines[end + 1..]))
  }

  datatype HeaderInfo = HeaderInfo(status: int, chunked: bool)

  function HeadersOf(headers: ByteString): Option<HeaderInfo> {
    var end := IndexOf(headers, LF);
    var status := ScanStatus(CStr(StripCR(headers[..end])));
    if status.None? then None
    else Some(HeaderInfo(status.value, AnyChunked(if end < |headers| then headers[end + 1..] else [])))
  }

  method ParseResponseHeaders(headers: ByteString) returns (info: Option<HeaderInfo>)
    ensures info == HeadersOf(headers)
  {
    hide ScanStatus, SaysChunked, CStr;
    var firstEnd := IndexOf(headers, LF);
    var status := ScanStatus(CStr(StripCR(headers[..firstEnd])));
    if status.None? {
      return None;
    }
    var chunked := false;
    var rest := if firstEnd < |headers| then headers[firstEnd + 1..] else [];
    ghost var all := rest;
    while rest != []
      invariant AnyChunked(all) == (chunked || AnyChunked(rest))
      decreases |rest|
    {
      var end := IndexOf(rest, LF);
      if SaysChunked(StripCR(rest[..end])) {
        chunked := true;
      }
      if end == |rest| {
        break;
      }
      rest := rest[end + 1..];
    }
    info := Some(HeaderInfo(status.value, chunked));
  }

  // ---------- the socket ----------

  /** What one turn of the receive loop meets. */
  datatype Turn =
    | Stopped                          // the stop flag is seen
    | Got(bytes: ByteString)
    | TryAgain                         // nothing there yet, and the wait succeeds
    | WaitFailed
    | Broken(stopSeen: bool)           // receive failed; the stop flag is checked once more
    | EndOfStream

  predicate Goes(turn: Turn) { turn.Got? || turn.TryAgain? }

  ghost predicate Realistic(turns: seq<Turn>) {
    forall turn :: turn in turns && turn.Got? ==> 0 < |turn.bytes| <= MAX_RECEIVE
  }

  /** The pieces received before the connection ended. */
  function Pieces(turns: seq<Turn>): seq<ByteString> {
    if turns == [] || !Goes(turns[0]) then []
    else if turns[0].Got? then [turns[0].bytes] + Pieces(turns[1..])
    else Pieces(turns[1..])
  }

  lemma OnePiece(piece: ByteString)
    ensures Pieces([Got(piece), EndOfStream]) == [piece]
  {
    assert [Got(piece), EndOfStream][1..] == [EndOfStream];
  }

  lemma TwoPieces(a: ByteString, b: ByteString)
    ensures Pieces([Got(a), Got(b), EndOfStream]) == [a, b]
  {
    OnePiece(b);
    assert [Got(a), Got(b), EndOfStream][1..] == [Got(b), EndOfStream];
  }

  /** Whether an attempt that reads to its end counts as successful; running out of turns is a stop. */
  predicate EndsWell(turns: seq<Turn>) {
    if turns == [] then true
    else if Goes(turns[0]) then EndsWell(turns[1..])
    else turns[0].Stopped? || turns[0].EndOfStream? || (turns[0].Broken? && turns[0].stopSeen)
  }

  // ---------- the response, all at once ----------

  /** The machine after the body, and whether the attempt failed (None: it depends on how the connection ended). */
  function ReadBody(e: Env, m: Machine, chunked: bool, body: ByteString): (Machine, Option<bool>) {
    if !chunked then (Feed(e, m, body), None)
    else
      var f := Decode(Start(FRESH), body);
      (Feed(e, m, f.output),
       if f.error.Some? then Some(false) else if f.d.state == Done then Some(true) else None)
  }

  datatype Response = Response(machine: Machine, hasOpened: bool, status: int, ok: bool)

  function Report(m: Machine, action: Action): Machine {
    m.(core := m.core.(log := m.core.log + [action]))
  }

  function ReadWhole(e: Env, m: Machine, turns: seq<Turn>): Response {
    var pieces := Pieces(turns);
    match ReadHeader(pieces)
    case Reading(_) => Response(m, false, 0, EndsWell(turns))
    case TooLarge => Response(m, false, 0, false)
    case Found(end, size) =>
      ReadFound(e, m, Flatten(pieces), end, size, EndsWell(turns))
  }

  function ReadFound(e: Env, m: Machine, bytes: ByteString, end: nat, size: nat, endsWell: bool): Response {
    if end + size > |bytes| then Response(m, false, 0, false)
    else
      match HeadersOf(bytes[..end])
      case None => Response(m, false, 0, false)
      case Some(info) =>
        if !(200 <= info.status < 300) then Response(m, false, info.status, false)
        else
          var (machine, ended) := ReadBody(e, Report(m, Open(info.status)), info.chunked, bytes[end + size..]);
          Response(machine, true, info.status, if ended.Some? then ended.value else endsWell)
  }

  // ---------- the receive loop ----------

  lemma {:induction false} PiecesAppend(a: seq<Turn>, b: seq<Turn>)
    requires forall turn :: turn in a ==> Goes(turn)
    ensures Pieces(a + b) == Pieces(a) + Pieces(b)
    ensures EndsWell(a + b) == EndsWell(b)
  {
    if a == [] {
      assert a + b == b;
    } else {
      assert a[0] in a;
      assert forall turn :: turn in a[1..] ==> turn in a;
      PiecesAppend(a[1..], b);
      assert (a + b)[1..] == a[1..] + b;
    }
  }

  /** A header phase that has stopped ignores later pieces. */
  lemma {:induction false} HeaderStops(a: seq<ByteString>, b: seq<ByteString>)
    requires !ReadHeader(a).Reading?
    ensures ReadHeader(a + b) == ReadHeader(a)
  {
    hide Scan;
    if b == [] {
      assert a + b == a;
    } else {
      HeaderStops(a, Init(b));
      assert Init(a + b) == a + Init(b);
    }
  }

  lemma {:induction false} HeaderBuffer(pieces: seq<ByteString>)
    ensures ReadHeader(pieces).Reading? ==> ReadHeader(pieces).buffer == Flatten(pieces)
    ensures ReadHeader(pieces).Found? ==> ReadHeader(pieces).end + ReadHeader(pieces).size <= |Flatten(pieces)|
  {
    if pieces != [] {
      HeaderBuffer(Init(pieces));
    }
  }

  lemma ReadBodyAppend(e: Env, m: Machine, body: ByteString, data: ByteString)
    requires var f := Decode(Start(FRESH), body); f.error.None?
    ensures var f := Decode(Start(FRESH), body);
            var alone := Decode(Start(f.d), data);
            && Decode(Start(FRESH), body + data) == alone.(output := f.output + alone.output)
            && Feed(e, m, f.output + alone.output) == Feed(e, Feed(e, m, f.output), alone.output)
  {
    hide DecodeByte, Feed;
    var f := Decode(Start(FRESH), body);
    DecodeAppend(Start(FRESH), body, data);
    DecodeOutput(f, data);
    FeedAppend(e, m, f.output, Decode(Start(f.d), data).output);
  }

  lemma ReadBodyStays(e: Env, m: Machine, chunked: bool, body: ByteString, more: ByteString)
    requires ReadBody(e, m, chunked, body).1.Some?
    ensures ReadBody(e, m, chunked, body + more) == ReadBody(e, m, chunked, body)
  {
    hide Feed;
    DecodeAppend(Start(FRESH), body, more);
    DecodeStopped(Decode(Start(FRESH), body), more);
  }

  /** The decoder belongs to a body of which `body` has been read without an end or an error. */
  ghost predicate InBody(decoder: BodyDecoder, chunked: bool, body: ByteString)
    reads decoder
  {
    ChunkDecoder.Valid(decoder.View()) &&
    if chunked then decoder.View() == Decode(Start(FRESH), body).d && Decode(Start(FRESH), body).error.None?
    else decoder.View() == FRESH
  }

  /** One more piece of body; ended says that the attempt is over, and how. */
  method FeedBody(parser: SSEParser, connection: Connection, decoder: BodyDecoder, chunked: bool, data: ByteString,
                  ghost m: Machine, ghost body: ByteString) returns (ended: Option<bool>)
    requires connection.Valid() && InBody(decoder, chunked, body)
    requires parser.View(connection) == ReadBody(connection.e, m, chunked, body).0
    modifies parser, decoder, connection`log, connection`lastEventId, connection`retryMS
    ensures connection.Valid()
    ensures (parser.View(connection), ended) == ReadBody(connection.e, m, chunked, body + data)
    ensures ended.None? ==> InBody(decoder, chunked, body + data)
  {
    hide Feed, DecodeByte, Resume, RetryDelay;
    if !chunked {
      parser.Feed(data, connection);
      FeedAppend(connection.e, m, body, data);
      return None;
    }
    ReadBodyAppend(connection.e, m, body, data);
    var error := decoder.FeedChunkedBody(parser, connection, data);
    if error.Some? {
      return Some(false);
    }
    ended := if decoder.state == Done then Some(true) else None;
  }

  /** Where the loop stands after some pieces: still in the headers, or somewhere in the body. */
  ghost predicate Standing(e: Env, before: Machine, now: Machine, pieces: seq<ByteString>, info: Option<HeaderInfo>,
                           buffer: ByteString, decoder: BodyDecoder)
    reads decoder
  {
    var header := ReadHeader(pieces);
    if info.None? then header == Reading(buffer) && now == before && InBody(decoder, false, [])
    else
      && header.Found? && header.end + header.size <= |Flatten(pieces)|
      && HeadersOf(Flatten(pieces)[..header.end]) == info
      && 200 <= info.value.status < 300
      && var body := Flatten(pieces)[header.end + header.size..];
         InBody(decoder, info.value.chunked, body)
         && ReadBody(e, Report(before, Open(info.value.status)), info.value.chunked, body) == (now, None)
  }

  /** The result when the connection ends with the loop standing there. */
  lemma StandingResult(e: Env, before: Machine, now: Machine, turns: seq<Turn>, info: Option<HeaderInfo>,
                       buffer: ByteString, decoder: BodyDecoder)
    requires Standing(e, before, now, Pieces(turns), info, buffer, decoder)
    ensures ReadWhole(e, before, turns)
         == Response(now, info.Some?, if info.Some? then info.value.status else 0, EndsWell(turns))
  {
    hide Feed, ReadHeader, HeadersOf;
  }

  /** A result that more pieces cannot change. */
  lemma Decided(e: Env, before: Machine, pieces: seq<ByteString>, turns: seq<Turn>)
    requires pieces <= Pieces(turns) && !ReadHeader(pieces).Reading?
    requires var header := ReadHeader(pieces);
             header.Found? ==>
               && header.end + header.size <= |Flatten(pieces)|
               && (|| HeadersOf(Flatten(pieces)[..header.end]).None?
               || (var info := HeadersOf(Flatten(pieces)[..header.end]).value;
                   || !(200 <= info.status < 300)
                   || ReadBody(e, Report(before, Open(info.status)), info.chunked,
                               Flatten(pieces)[header.end + header.size..]).1.Some?))
    ensures ReadWhole(e, before, turns)
         == match ReadHeader(pieces)
            case TooLarge => Response(before, false, 0, false)
            case Found(end, size) => ReadFound(e, before, Flatten(pieces), end, size, true)
  {
    hide Feed, Scan, HeadersOf, ReadBody;
    var all := Pieces(turns);
    assert all == pieces + all[|pieces|..];
    HeaderStops(pieces, all[|pieces|..]);
    FlattenAppend(pieces, all[|pieces|..]);
    HeaderBuffer(pieces);
    var header := ReadHeader(pieces);
    if header.Found? {
      var early, whole := Flatten(pieces), Flatten(all);
      assert whole[..header.end] == early[..header.end];
      var more := whole[|early|..];
      assert whole[header.end + header.size..] == early[header.end + header.size..] + more;
      if HeadersOf(early[..header.end]).Some? {
        var info := HeadersOf(early[..header.end]).value;
        if 200 <= info.status < 300 {
          ReadBodyStays(e, Report(before, Open(info.status)), info.chunked, early[header.end + header.size..], more);
        }
      }
    }
  }

  lemma {:induction false} PiecesSmall(turns: seq<Turn>)
    requires Realistic(turns)
    ensures forall piece :: piece in Pieces(turns) ==> 0 < |piece| <= MAX_RECEIVE
  {
    if turns != [] && Goes(turns[0]) {
      assert turns[0] in turns;
      assert forall turn :: turn in turns[1..] ==> turn in turns;
      PiecesSmall(turns[1..]);
    }
  }

  /** A stable response reads the same however its bytes, and the waits between them, are spread over turns. */
  lemma ResponseInvariant(e: Env, m: Machine, response: ByteString, a: seq<Turn>, b: seq<Turn>)
    requires StableHeader(response) && Realistic(a) && Realistic(b)
    requires Flatten(Pieces(a)) == response && Flatten(Pieces(b)) == response && EndsWell(a) == EndsWell(b)
    ensures ReadWhole(e, m, a) == ReadWhole(e, m, b)
  {
    hide Feed, Scan, HeadersOf, ReadBody, StableHeader;
    PiecesSmall(a);
    PiecesSmall(b);
    StableIsInvariant(response, Pieces(a));
    StableIsInvariant(response, Pieces(b));
  }
}
