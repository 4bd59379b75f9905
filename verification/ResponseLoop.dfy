/** The receive loop of one attempt, piece by piece, against the response read all at once. */
module ResponseLoop {
  import opened Bytes
  import opened ParserModel
  import opened SseParser
  import opened ChunkDecoder
  import opened ChunkedBody
  import opened HeaderEnd
  import opened ResponseReader

  /**
   Whatever the receive boundaries, the parser has been fed exactly the body bytes behind the headers, up to
   the last chunk, the first framing error or the end of the connection, and Open was reported before them.
   */
  method ReadResponse(parser: SSEParser, connection: Connection, turns: seq<Turn>) returns (ok: bool)
    requires connection.Valid() && connection.status == 0 && !connection.hasOpened
    modifies parser, connection
    ensures connection.Valid()
    ensures var whole := ReadWhole(connection.e, old(parser.View(connection)), turns);
            && parser.View(connection) == whole.machine && ok == whole.ok
            && connection.hasOpened == whole.hasOpened && connection.status == whole.status
  {
    hide Feed, Scan, HeadersOf, Resume, RetryDelay, ReadWhole, ReadBody, Standing;
    var headerBuffer: ByteString := [];
    var info: Option<HeaderInfo> := None;
    var decoder := new BodyDecoder();
    ghost var before := parser.View(connection);
    StandingStart(connection.e, before, decoder);

    var i := 0;
    while i < |turns| && Goes(turns[i])
      invariant i <= |turns| && connection.Valid() && fresh(decoder)
      invariant forall turn :: turn in turns[..i] ==> Goes(turn)
      invariant Standing(connection.e, before, parser.View(connection), Pieces(turns[..i]), info, headerBuffer, decoder)
      invariant connection.hasOpened == info.Some?
      invariant connection.status == if info.Some? then info.value.status else 0
    {
      assert turns[..i + 1] == turns[..i] + [turns[i]];
      assert turns == turns[..i + 1] + turns[i + 1..];
      PiecesAppend(turns[..i], [turns[i]]);
      PiecesAppend(turns[..i + 1], turns[i + 1..]);
      PiecesOne(turns[i]);
      var turn := turns[i];
      i := i + 1;
      if turn.Got? {
        var ended: Option<bool>;
        info, headerBuffer, ended :=
          TakePiece(parser, connection, decoder, info, headerBuffer, turn.bytes, before, Pieces(turns[..i - 1]), turns);
        if ended.Some? {
          return ended.value;
        }
      } else {
        assert Pieces(turns[..i - 1]) + [] == Pieces(turns[..i - 1]);
      }
    }
    assert turns == turns[..i] + turns[i..];
    PiecesAppend(turns[..i], turns[i..]);
    assert Pieces(turns[..i]) + [] == Pieces(turns[..i]);
    StandingResult(connection.e, before, parser.View(connection), turns, info, headerBuffer, decoder);
    if i == |turns| {
      return true;
    }
    ok := turns[i].Stopped? || turns[i].EndOfStream? || (turns[i].Broken? && turns[i].stopSeen);
  }

  lemma StandingStart(e: Env, before: Machine, decoder: BodyDecoder)
    requires decoder.View() == FRESH
    ensures Standing(e, before, before, Pieces([]), None, [], decoder)
  {
  }

  lemma PiecesOne(turn: Turn)
    ensures Pieces([turn]) == if turn.Got? then [turn.bytes] else []
  {
  }

  /** One received piece. */
  method TakePiece(parser: SSEParser, connection: Connection, decoder: BodyDecoder, info: Option<HeaderInfo>,
                   buffer: ByteString, bytes: ByteString, ghost before: Machine, ghost pieces: seq<ByteString>,
                   ghost turns: seq<Turn>)
      returns (info': Option<HeaderInfo>, buffer': ByteString, ended: Option<bool>)
    requires connection.Valid() && pieces + [bytes] <= Pieces(turns)
    requires Standing(connection.e, before, parser.View(connection), pieces, info, buffer, decoder)
    requires connection.hasOpened == info.Some? && connection.status == if info.Some? then info.value.status else 0
    modifies parser, connection, decoder
    ensures connection.Valid()
    ensures ended.None? ==> GoesOn(parser, connection, decoder, before, pieces + [bytes], info', buffer')
    ensures ended.Some? ==> IsOver(parser, connection, before, turns, ended.value)
  {
    hide Feed, HeadersOf, Resume, RetryDelay, ReadWhole, ReadBody, InBody, Scan;
    if info.None? {
      info', buffer', ended := TakeHeaderPiece(parser, connection, decoder, buffer, bytes, before, pieces, turns);
      return;
    }
    var seen := pieces + [bytes];
    info', buffer' := info, buffer;
    ghost var header := ReadHeader(pieces);
    ghost var body := Flatten(pieces)[header.end + header.size..];
    HeaderStops(pieces, [bytes]);
    InitLast(pieces, bytes);
    assert Flatten(seen)[..header.end] == Flatten(pieces)[..header.end];
    assert Flatten(seen)[header.end + header.size..] == body + bytes;
    ended := FeedBody(parser, connection, decoder, info.value.chunked, bytes,
                      Report(before, Open(info.value.status)), body);
    if ended.Some? {
      Decided(connection.e, before, seen, turns);
    }
  }

  /** The loop goes on behind the given pieces. */
  ghost predicate GoesOn(parser: SSEParser, connection: Connection, decoder: BodyDecoder, before: Machine,
                         pieces: seq<ByteString>, info: Option<HeaderInfo>, buffer: ByteString)
    reads parser, connection, decoder
  {
    && Standing(connection.e, before, parser.View(connection), pieces, info, buffer, decoder)
    && connection.hasOpened == info.Some?
    && connection.status == if info.Some? then info.value.status else 0
  }

  /** The attempt is over, as the response read all at once says. */
  ghost predicate IsOver(parser: SSEParser, connection: Connection, before: Machine, turns: seq<Turn>, ok: bool)
    reads parser, connection
  {
    ReadWhole(connection.e, before, turns)
    == Response(parser.View(connection), connection.hasOpened, connection.status, ok)
  }

  /** A piece received while the headers are incomplete. */
  method TakeHeaderPiece(parser: SSEParser, connection: Connection, decoder: BodyDecoder, buffer: ByteString,
                         bytes: ByteString, ghost before: Machine, ghost pieces: seq<ByteString>,
                         ghost turns: seq<Turn>)
      returns (info: Option<HeaderInfo>, buffer': ByteString, ended: Option<bool>)
    requires connection.Valid() && pieces + [bytes] <= Pieces(turns)
    requires Standing(connection.e, before, parser.View(connection), pieces, None, buffer, decoder)
    requires !connection.hasOpened && connection.status == 0
    modifies parser, connection, decoder
    ensures connection.Valid()
    ensures ended.None? ==> GoesOn(parser, connection, decoder, before, pieces + [bytes], info, buffer')
    ensures ended.Some? ==> IsOver(parser, connection, before, turns, ended.value)
  {
    hide Feed, HeadersOf, Resume, RetryDelay, ReadWhole, ReadBody, InBody, Find, FindHeaderEnd;
    ghost var seen := pieces + [bytes];
    InitLast(pieces, bytes);
    HeaderBuffer(pieces);
    HeaderBuffer(seen);
    info, buffer', ended := None, buffer + bytes, Some(false);
    if |buffer'| > MAX_HEADER {
      Decided(connection.e, before, seen, turns);
      return;
    }
    var found := FindHeaderEnd(buffer');
    if found.None? {
      ended := None;
      return;
    }
    var (end, size) := found.value;
    var headers := ParseResponseHeaders(buffer'[..end]);
    if headers.None? {
      Decided(connection.e, before, seen, turns);
      return;
    }
    connection.status := headers.value.status;
    if connection.status < 200 || connection.status >= 300 {
      Decided(connection.e, before, seen, turns);
      return;
    }
    connection.hasOpened := true;
    connection.Report(Open(connection.status));
    info := headers;
    ghost var open := Report(before, Open(connection.status));
    InBodyStart(decoder, headers.value.chunked);
    ReadNothing(connection.e, open, headers.value.chunked);
    ended := FeedBody(parser, connection, decoder, headers.value.chunked, buffer'[end + size..], open, []);
    assert [] + buffer'[end + size..] == buffer'[end + size..];
    buffer' := [];
    if ended.Some? {
      Decided(connection.e, before, seen, turns);
    }
  }

  lemma InBodyStart(decoder: BodyDecoder, chunked: bool)
    requires InBody(decoder, false, [])
    ensures InBody(decoder, chunked, [])
  {
  }

  lemma ReadNothing(e: Env, m: Machine, chunked: bool)
    ensures ReadBody(e, m, chunked, []) == (m, None)
  {
  }
}
