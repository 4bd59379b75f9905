/** The decoder object: it copies payload into the parser in runs, and consumes the framing byte by byte. */
module ChunkedBody {
  import opened Bytes
  import opened ParserModel
  import opened SseParser
  import opened ChunkSize
  import opened ChunkDecoder

  class BodyDecoder {
    var line: ByteString
    var remaining: nat
    var state: State

    ghost function View(): Decoder
      reads this
    {
      Decoder(line, remaining, state)
    }

    constructor ()
      ensures View() == FRESH
    {
      line, remaining, state := [], 0, SizeLine;
    }

    /** Take one received piece of body; an error ends the attempt. */
    method FeedChunkedBody(parser: SSEParser, connection: Connection, data: ByteString)
        returns (error: Option<DecodeError>)
      requires connection.Valid() && ChunkDecoder.Valid(View())
      modifies this, parser, connection`log, connection`lastEventId, connection`retryMS
      ensures connection.Valid() && ChunkDecoder.Valid(View())
      ensures var whole := Decode(Start(old(View())), data);
              && View() == whole.d && error == whole.error
              && parser.View(connection) == Feed(connection.e, old(parser.View(connection)), whole.output)
    {
      hide Feed, Resume, RetryDelay, Decode, DecodeByte;
      ghost var start, machine := Start(View()), parser.View(connection);
      DecodeKeepsValid(start, data);
      FeedNothing(connection.e, machine);
      DecodeNothing(start);
      error := None;
      var offset := 0;
      while offset < |data|
        invariant offset <= |data| && connection.Valid() && error == None
        invariant var f := Decode(start, data[..offset]);
                  && View() == f.d && f.error.None?
                  && parser.View(connection) == Feed(connection.e, machine, f.output)
      {
        ghost var f := Decode(start, data[..offset]);
        DecodeKeepsValid(start, data[..offset]);
        if state == Done {
          StoppedAt(start, data, offset);
          return;
        }
        if state == Payload {
          var available := |data| - offset;
          var run := if remaining < available then remaining else available;
          if run > 0 {
            parser.Feed(data[offset..offset + run], connection);
            remaining := remaining - run;
            TakeRun(connection.e, machine, start, data, offset, run);
            offset := offset + run;
          }
          if remaining == 0 {
            state := PayloadCRLF;
          }
        } else {
          var c := data[offset];
          DecodeNext(start, data, offset);
          offset := offset + 1;
          error := TakeFraming(c, f);
          if error.Some? {
            StoppedAt(start, data, offset);
            return;
          }
        }
      }
      assert data[..|data|] == data;
    }

    /** One byte that is not payload. */
    method TakeFraming(c: byte, ghost f: Decoding) returns (error: Option<DecodeError>)
      requires f.d == View() && f.error.None? && state != Done && state != Payload
      modifies this
      ensures DecodeByte(f, c) == Decoding(View(), f.output, error)
    {
      hide SizeOf;
      error := None;
      match state
      case SizeLine =>
        line := line + [c];
        if |line| > MAX_SIZE_LINE {
          return Some(SizeLineTooLong);
        }
        if c == LF {
          error := FinishSizeLine();
        }
      case PayloadCRLF =>
        if c == CR {
          state := PayloadLF;
        } else if c == LF {
          state := SizeLine;
        } else {
          return Some(InvalidDelimiter);
        }
      case PayloadLF =>
        if c != LF {
          return Some(InvalidDelimiter);
        }
        state := SizeLine;
    }

    method FinishSizeLine() returns (error: Option<DecodeError>)
      modifies this
      ensures (View(), error) == EndSizeLine(old(View()), old(line))
    {
      hide SizeOf;
      while line != [] && (line[|line| - 1] == LF || line[|line| - 1] == CR)
        invariant TrimLineEnd(line) == TrimLineEnd(old(line))
        invariant remaining == old(remaining) && state == old(state)
        decreases |line|
      {
        line := line[..|line| - 1];
      }
      var size := ParseChunkSize(line);
      if size.None? {
        return Some(InvalidSize);
      }
      line := [];
      remaining := size.value;
      state := if size.value == 0 then Done else Payload;
      return None;
    }
  }

  lemma TakeRun(e: Env, m: Machine, start: Decoding, data: ByteString, offset: nat, run: nat)
    requires offset + run <= |data|
    requires var f := Decode(start, data[..offset]);
             f.error.None? && f.d.state == Payload && 0 < run <= f.d.remaining
    ensures var f, bytes := Decode(start, data[..offset]), data[offset..offset + run];
            var left := f.d.remaining - run;
            && Decode(start, data[..offset + run])
               == Decoding(f.d.(remaining := left, state := if left == 0 then PayloadCRLF else Payload),
                           f.output + bytes, None)
            && Feed(e, m, f.output + bytes) == Feed(e, Feed(e, m, f.output), bytes)
  {
    hide DecodeByte, Feed;
    var f, bytes := Decode(start, data[..offset]), data[offset..offset + run];
    assert data[..offset + run] == data[..offset] + bytes;
    DecodeAppend(start, data[..offset], bytes);
    DecodeRun(f, bytes);
    FeedAppend(e, m, f.output, bytes);
  }
}
