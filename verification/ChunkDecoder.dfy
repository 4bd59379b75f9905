/**
 Chunked transfer coding without trailers (section 7.1 of RFC 9112), one received piece at a time. The
 decoder on values takes single bytes and knows nothing of the parser; the decoder object copies whole runs
 of payload into the parser. What reaches the parser is the same.
 */
module ChunkDecoder {
  import opened Bytes
  import opened ChunkSize

  datatype State = SizeLine | Payload | PayloadCRLF | PayloadLF | Done

  datatype DecodeError = SizeLineTooLong | InvalidSize | InvalidDelimiter

  const MAX_SIZE_LINE := 1024

  datatype Decoder = Decoder(line: ByteString, remaining: nat, state: State)

  /** A decoder, the payload it has passed on, and the error that stopped it. */
  datatype Decoding = Decoding(d: Decoder, output: ByteString, error: Option<DecodeError>)

  const FRESH: Decoder := Decoder([], 0, SizeLine)

  function Start(d: Decoder): Decoding {
    Decoding(d, [], None)
  }

  /** In the payload there is always a byte left to take. */
  predicate Valid(d: Decoder) {
    d.state == Payload ==> d.remaining > 0
  }

  function TrimLineEnd(line: ByteString): ByteString {
    if line != [] && (Last(line) == LF || Last(line) == CR) then TrimLineEnd(Init(line)) else line
  }

  /** A complete size line. */
  function EndSizeLine(d: Decoder, line: ByteString): (Decoder, Option<DecodeError>) {
    var trimmed := TrimLineEnd(line);
    match SizeOf(trimmed)
    case None => (d.(line := trimmed), Some(InvalidSize))
    case Some(size) => (Decoder([], size, if size == 0 then Done else Payload), None)
  }

  function DecodeByte(f: Decoding, c: byte): Decoding {
    if f.error.Some? then f
    else
      var d := f.d;
      match d.state
      case Done => f
      case SizeLine =>
        var line := d.line + [c];
        if |line| > MAX_SIZE_LINE then f.(d := d.(line := line), error := Some(SizeLineTooLong))
        else if c == LF then
          var (next, error) := EndSizeLine(d, line);
          f.(d := next, error := error)
        else f.(d := d.(line := line))
      case Payload =>
        var left := if d.remaining > 0 then d.remaining - 1 else 0;
        f.(d := d.(remaining := left, state := if left == 0 then PayloadCRLF else Payload), output := f.output + [c])
      case PayloadCRLF =>
        if c == CR then f.(d := d.(state := PayloadLF))
        else if c == LF then f.(d := d.(state := SizeLine))
        else f.(error := Some(InvalidDelimiter))
      case PayloadLF =>
        if c == LF then f.(d := d.(state := SizeLine)) else f.(error := Some(InvalidDelimiter))
  }

  function Decode(f: Decoding, bytes: ByteString): Decoding {
    if bytes == [] then f else DecodeByte(Decode(f, Init(bytes)), Last(bytes))
  }

  lemma {:induction false} DecodeKeepsValid(f: Decoding, bytes: ByteString)
    requires Valid(f.d)
    ensures Valid(Decode(f, bytes).d)
  {
    if bytes != [] {
      DecodeKeepsValid(f, Init(bytes));
    }
  }

  /** Receive boundaries make no difference, whether or not an error or the last chunk lies before one. */
  lemma {:induction false} DecodeAppend(f: Decoding, a: ByteString, b: ByteString)
    ensures Decode(f, a + b) == Decode(Decode(f, a), b)
  {
    if b == [] {
      assert a + b == a;
    } else {
      assert Init(a + b) == a + Init(b);
      DecodeAppend(f, a, Init(b));
    }
  }

  /** After an error or the last chunk, further bytes change nothing. */
  lemma {:induction false} DecodeStopped(f: Decoding, bytes: ByteString)
    requires f.error.Some? || f.d.state == Done
    ensures Decode(f, bytes) == f
  {
    if bytes != [] {
      DecodeStopped(f, Init(bytes));
    }
  }

  lemma DecodeNothing(f: Decoding)
    ensures Decode(f, []) == f
  {
  }

  lemma DecodeNext(f: Decoding, data: ByteString, offset: nat)
    requires offset < |data|
    ensures Decode(f, data[..offset + 1]) == DecodeByte(Decode(f, data[..offset]), data[offset])
  {
    assert Init(data[..offset + 1]) == data[..offset];
  }

  lemma StoppedAt(f: Decoding, data: ByteString, offset: nat)
    requires offset <= |data|
    requires var g := Decode(f, data[..offset]); g.error.Some? || g.d.state == Done
    ensures Decode(f, data) == Decode(f, data[..offset])
  {
    assert data == data[..offset] + data[offset..];
    DecodeAppend(f, data[..offset], data[offset..]);
    DecodeStopped(Decode(f, data[..offset]), data[offset..]);
  }

  /** The payload passed on only grows, and does not depend on what was passed on before. */
  lemma {:induction false} DecodeOutput(f: Decoding, bytes: ByteString)
    ensures var alone := Decode(f.(output := []), bytes); Decode(f, bytes) == alone.(output := f.output + alone.output)
  {
    hide EndSizeLine;
    if bytes != [] {
      DecodeOutput(f, Init(bytes));
      var alone := Decode(f.(output := []), Init(bytes));
      assert f.output + (alone.output + [Last(bytes)]) == (f.output + alone.output) + [Last(bytes)];
    }
  }

  /** A run of payload bytes is passed on whole. */
  lemma {:induction false} DecodeRun(f: Decoding, run: ByteString)
    requires f.error.None? && f.d.state == Payload && |run| <= f.d.remaining
    ensures Decode(f, run) ==
              var left := f.d.remaining - |run|;
              f.(d := f.d.(remaining := left, state := if left == 0 && run != [] then PayloadCRLF else Payload),
                 output := f.output + run)
  {
    if run != [] {
      DecodeRun(f, Init(run));
      assert f.output + run == f.output + Init(run) + [Last(run)];
    }
  }

  // ---------- encoding ----------

  /** A chunk as a sender may write it: any line that spells its size, then the payload. */
  datatype Chunk = Chunk(sizeLine: ByteString, payload: ByteString)

  predicate WellFormedSize(line: ByteString, size: nat) {
    LF !in line && |line| + 2 <= MAX_SIZE_LINE && SizeOf(TrimLineEnd(line)) == Some(size)
  }

  predicate WellFormed(chunk: Chunk) {
    chunk.payload != [] && WellFormedSize(chunk.sizeLine, |chunk.payload|)
  }

  function EncodeChunk(chunk: Chunk): ByteString {
    (chunk.sizeLine + CRLF) + chunk.payload + CRLF
  }

  function Encode(chunks: seq<Chunk>): ByteString {
    if chunks == [] then [] else Encode(Init(chunks)) + EncodeChunk(Last(chunks))
  }

  function PayloadOf(chunks: seq<Chunk>): ByteString {
    if chunks == [] then [] else PayloadOf(Init(chunks)) + Last(chunks).payload
  }

  /** The plain way to write a chunk. */
  function PlainChunk(payload: ByteString): Chunk {
    Chunk(HexPrint(|payload|), payload)
  }

  lemma PlainSizeLine(size: nat)
    requires size <= SIZE_MAX
    ensures WellFormedSize(HexPrint(size), size) && |HexPrint(size)| <= 16
  {
    hide SizeOf, HexPrint, TrimLineEnd, AllHex, HexValue, NonBlanks;
    var line := HexPrint(size);
    PrintParseSize(size);
    HexPrintValue(size);
    HexHasNoEnds(line);
    NoTrim(line);
  }

  lemma HexHasNoEnds(s: ByteString)
    requires AllHex(s)
    ensures LF !in s && CR !in s && 32 !in s && 9 !in s && 59 !in s
  {
  }

  lemma NoTrim(line: ByteString)
    requires LF !in line && CR !in line
    ensures TrimLineEnd(line) == line
  {
    assert line != [] ==> Last(line) in line;
  }

  lemma PlainChunkWellFormed(payload: ByteString)
    requires 0 < |payload| <= SIZE_MAX
    ensures WellFormed(PlainChunk(payload))
  {
    PlainSizeLine(|payload|);
  }

  /** The bytes of a size line before its LF are only collected. */
  lemma {:induction false} DecodeSizeBytes(f: Decoding, line: ByteString)
    requires f.error.None? && f.d == FRESH.(remaining := f.d.remaining)
    requires LF !in line && |line| <= MAX_SIZE_LINE
    ensures Decode(f, line) == f.(d := f.d.(line := line))
  {
    if line != [] {
      DecodeSizeBytes(f, Init(line));
      assert Init(line) + [Last(line)] == line;
      assert Last(line) in line;
    }
  }

  lemma TrimEnd(line: ByteString)
    ensures TrimLineEnd(line + CRLF) == TrimLineEnd(line)
  {
    InitLast(line + [CR], LF);
    InitLast(line, CR);
    assert line + CRLF == line + [CR] + [LF];
  }

  lemma DecodeSizeLine(f: Decoding, line: ByteString, size: nat)
    requires f.error.None? && f.d == FRESH.(remaining := f.d.remaining)
    requires WellFormedSize(line, size)
    ensures Decode(f, line + CRLF) == f.(d := Decoder([], size, if size == 0 then Done else Payload))
  {
    var head := line + [CR];
    DecodeSizeBytes(f, head);
    InitLast(head, LF);
    assert line + CRLF == head + [LF];
    TrimEnd(line);
  }

  lemma DecodeDelimiter(f: Decoding)
    requires f.error.None? && f.d == Decoder([], 0, PayloadCRLF)
    ensures Decode(f, CRLF) == f.(d := FRESH)
  {
    assert Init([CR]) == [] && Last([CR]) == CR;
    assert Decode(f, [CR]) == f.(d := f.d.(state := PayloadLF));
    assert Init(CRLF) == [CR] && Last(CRLF) == LF;
  }

  lemma DecodeChunk(f: Decoding, chunk: Chunk)
    requires f.error.None? && f.d == FRESH && WellFormed(chunk)
    ensures Decode(f, EncodeChunk(chunk)) == f.(output := f.output + chunk.payload)
  {
    hide WellFormedSize, Decode, DecodeByte;
    var head := chunk.sizeLine + CRLF;
    DecodeSizeLine(f, chunk.sizeLine, |chunk.payload|);
    var sized := Decode(f, head);
    DecodeRun(sized, chunk.payload);
    DecodeAppend(f, head, chunk.payload);
    DecodeDelimiter(Decode(sized, chunk.payload));
    DecodeAppend(f, head + chunk.payload, CRLF);
  }

  lemma {:induction false} DecodeChunks(f: Decoding, chunks: seq<Chunk>)
    requires f.error.None? && f.d == FRESH
    requires forall chunk :: chunk in chunks ==> WellFormed(chunk)
    ensures Decode(f, Encode(chunks)) == f.(output := f.output + PayloadOf(chunks))
  {
    hide WellFormed, Decode, DecodeByte, EncodeChunk;
    if chunks == [] {
      assert Decode(f, []) == f by {
        DecodeNothing(f);
      }
      assert f.output + [] == f.output;
    } else {
      assert forall c :: c in Init(chunks) ==> c in chunks;
      assert Last(chunks) in chunks;
      DecodeChunks(f, Init(chunks));
      DecodeChunk(Decode(f, Encode(Init(chunks))), Last(chunks));
      DecodeAppend(f, Encode(Init(chunks)), EncodeChunk(Last(chunks)));
      assert f.output + (PayloadOf(Init(chunks)) + Last(chunks).payload)
          == (f.output + PayloadOf(Init(chunks))) + Last(chunks).payload;
    }
  }

  /** A whole chunked body: the chunks, a last chunk of size zero, and whatever the server still sends. */
  function EncodeBody(chunks: seq<Chunk>, lastLine: ByteString, trailing: ByteString): ByteString {
    Encode(chunks) + (lastLine + CRLF) + trailing
  }

  lemma {:induction false} DecodePieces(f: Decoding, pieces: seq<ByteString>)
    ensures DecodeAll(f, pieces) == Decode(f, Flatten(pieces))
  {
    if pieces != [] {
      DecodePieces(f, Init(pieces));
      DecodeAppend(f, Flatten(Init(pieces)), Last(pieces));
    }
  }

  function DecodeAll(f: Decoding, pieces: seq<ByteString>): Decoding {
    if pieces == [] then f else Decode(DecodeAll(f, Init(pieces)), Last(pieces))
  }

  /**
   Transfer coding is transparent: however the chunks are sized, their size lines written, and the bytes
   cut into receives, the payload comes out whole, and the decoder is done without an error.
   */
  lemma Transparent(chunks: seq<Chunk>, lastLine: ByteString, trailing: ByteString, pieces: seq<ByteString>)
    requires forall chunk :: chunk in chunks ==> WellFormed(chunk)
    requires WellFormedSize(lastLine, 0)
    requires Flatten(pieces) == EncodeBody(chunks, lastLine, trailing)
    ensures DecodeAll(Start(FRESH), pieces) == Decoding(FRESH.(state := Done), PayloadOf(chunks), None)
  {
    hide WellFormedSize, DecodeByte, WellFormed;
    var f := Start(FRESH);
    DecodePieces(f, pieces);
    DecodeChunks(f, chunks);
    DecodeSizeLine(Decode(f, Encode(chunks)), lastLine, 0);
    DecodeAppend(f, Encode(chunks), lastLine + CRLF);
    var body := Encode(chunks) + (lastLine + CRLF);
    DecodeAppend(f, body, trailing);
    DecodeStopped(Decode(f, body), trailing);
    assert [] + PayloadOf(chunks) == PayloadOf(chunks);
  }

  /** When the connection is lost, what has come out is a first part of the payload. */
  lemma CutBody(chunks: seq<Chunk>, lastLine: ByteString, trailing: ByteString, cut: nat)
    requires forall chunk :: chunk in chunks ==> WellFormed(chunk)
    requires WellFormedSize(lastLine, 0)
    requires cut <= |EncodeBody(chunks, lastLine, trailing)|
    ensures Decode(Start(FRESH), EncodeBody(chunks, lastLine, trailing)[..cut]).output <= PayloadOf(chunks)
  {
    hide WellFormedSize, DecodeByte, WellFormed;
    var body := EncodeBody(chunks, lastLine, trailing);
    FlattenOne(body);
    Transparent(chunks, lastLine, trailing, [body]);
    DecodePieces(Start(FRESH), [body]);
    assert body == body[..cut] + body[cut..];
    DecodeAppend(Start(FRESH), body[..cut], body[cut..]);
    DecodeOutput(Decode(Start(FRESH), body[..cut]), body[cut..]);
  }

  /** A chunked body, whole, that carries the payload. */
  ghost predicate Carries(body: ByteString, payload: ByteString) {
    exists chunks, lastLine, trailing ::
      && body == EncodeBody(chunks, lastLine, trailing) && PayloadOf(chunks) == payload
      && (forall chunk :: chunk in chunks ==> WellFormed(chunk)) && WellFormedSize(lastLine, 0)
  }

  lemma CarriesDecoded(body: ByteString, payload: ByteString)
    requires Carries(body, payload)
    ensures Decode(Start(FRESH), body) == Decoding(FRESH.(state := Done), payload, None)
  {
    hide WellFormed, WellFormedSize, EncodeBody, Decode;
    var chunks, lastLine, trailing :|
      && body == EncodeBody(chunks, lastLine, trailing) && PayloadOf(chunks) == payload
      && (forall chunk :: chunk in chunks ==> WellFormed(chunk)) && WellFormedSize(lastLine, 0);
    FlattenOne(body);
    Transparent(chunks, lastLine, trailing, [body]);
    DecodePieces(Start(FRESH), [body]);
  }

  lemma CarriesCut(body: ByteString, payload: ByteString, cut: nat)
    requires Carries(body, payload) && cut <= |body|
    ensures Decode(Start(FRESH), body[..cut]).output <= payload
  {
    hide WellFormed, WellFormedSize, EncodeBody, Decode;
    var chunks, lastLine, trailing :|
      && body == EncodeBody(chunks, lastLine, trailing) && PayloadOf(chunks) == payload
      && (forall chunk :: chunk in chunks ==> WellFormed(chunk)) && WellFormedSize(lastLine, 0);
    CutBody(chunks, lastLine, trailing, cut);
  }

  /** The payload in one plain chunk, and the last chunk. */
  function PlainBody(payload: ByteString): ByteString {
    EncodeBody([PlainChunk(payload)], HexPrint(0), CRLF)
  }

  lemma PlainBodyCarries(payload: ByteString)
    requires 0 < |payload| <= SIZE_MAX
    ensures Carries(PlainBody(payload), payload)
    ensures |PlainBody(payload)| <= |payload| + 40
  {
    hide WellFormed, WellFormedSize, HexPrint, PayloadOf, Encode;
    var chunk := PlainChunk(payload);
    PlainChunkWellFormed(payload);
    PlainSizeLine(|payload|);
    PlainSizeLine(0);
    OneChunk(chunk);
  }

  lemma OneChunk(chunk: Chunk)
    ensures PayloadOf([chunk]) == chunk.payload && Encode([chunk]) == EncodeChunk(chunk)
  {
    assert Init([chunk]) == [];
    assert [] + chunk.payload == chunk.payload && [] + EncodeChunk(chunk) == EncodeChunk(chunk);
  }

  // ---------- size lines as they may be written, and as they may not ----------

  /** A size line in letters of either case, with blanks, zeros in front and an extension, as one likes. */
  lemma AnySizeLine(size: ByteString, rest: ByteString, v: nat)
    requires 59 !in size && v <= SIZE_MAX && Spells(NonBlanks(size), v)
    requires rest == [] || rest[0] == 59
    requires var line := size + rest;
             LF !in line && |line| + 2 <= MAX_SIZE_LINE && (line == [] || line[|line| - 1] != CR)
    ensures WellFormedSize(size + rest, v)
  {
    hide Spells, Digits, SizeOf, NonBlanks, TrimLineEnd;
    var line := size + rest;
    DigitsUpTo(size, rest);
    assert line != [] ==> line[|line| - 1] in line;
    SizeExact(line, v);
    TrimExact(line, []);
    assert line + [] == line;
  }

  lemma DigitsUpTo(size: ByteString, rest: ByteString)
    requires 59 !in size && (rest == [] || rest[0] == 59)
    ensures Digits(size + rest) == NonBlanks(size)
  {
    hide Digits, NonBlanks;
    assert Text(";") == [59];
    if rest == [] {
      ExtensionIgnored(size, []);
      assert size + rest == size;
    } else {
      ExtensionIgnored(size, rest[1..]);
      assert size + rest == size + Text(";") + rest[1..];
    }
  }

  /** The size in capitals. */
  function Upper(s: ByteString): ByteString {
    seq(|s|, i requires 0 <= i < |s| => if 97 <= s[i] <= 102 then s[i] - 32 else s[i])
  }

  /** A chunk whose size is printed in capitals is one, too. */
  lemma UpperChunkWellFormed(payload: ByteString)
    requires 0 < |payload| <= SIZE_MAX
    ensures WellFormed(Chunk(Upper(HexPrint(|payload|)), payload))
  {
    hide HexPrint, WellFormedSize, Spells, AllHex, HexValue, NonBlanks, Upper;
    var line := Upper(HexPrint(|payload|));
    PlainSizeLine(|payload|);
    UpperHex(|payload|);
    HexHasNoEnds(line);
    assert line != [] ==> line[|line| - 1] in line;
    UpperSpells(|payload|);
    assert line + [] == line;
    AnySizeLine(line, [], |payload|);
  }

  lemma UpperHex(v: nat)
    ensures AllHex(Upper(HexPrint(v))) && |Upper(HexPrint(v))| == |HexPrint(v)|
  {
    hide HexPrint, HexValue, NonBlanks;
    HexPrintValue(v);
    var digits := HexPrint(v);
    assert forall i :: 0 <= i < |digits| ==> digits[i] in digits;
  }

  lemma UpperSpells(v: nat)
    ensures Spells(NonBlanks(Upper(HexPrint(v))), v)
  {
    hide HexPrint, HexValue, NonBlanks;
    var digits := HexPrint(v);
    var line := Upper(digits);
    HexPrintValue(v);
    UpperHex(v);
    HexHasNoEnds(line);
    assert forall i :: 0 <= i < |digits| ==> digits[i] in digits;
    NoBlanks(line);
    assert line[..0] == Zeros(0) && line[0..] == line;
    assert SameLetters(line, digits);
  }

  lemma {:induction false} NoBlanks(s: ByteString)
    requires 32 !in s && 9 !in s
    ensures NonBlanks(s) == s
  {
    if s != [] {
      assert forall c :: c in Init(s) ==> c in s;
      NoBlanks(Init(s));
      assert Last(s) in s;
    }
  }

  /** CRs and LFs at the end of a size line are dropped, and nothing else. */
  lemma {:induction false} TrimExact(line: ByteString, ends: ByteString)
    requires forall c :: c in ends ==> c == 13 || c == 10
    requires line == [] || (line[|line| - 1] != 13 && line[|line| - 1] != 10)
    ensures TrimLineEnd(line + ends) == line
  {
    if ends == [] {
      assert line + ends == line;
    } else {
      assert forall c :: c in Init(ends) ==> c in ends;
      assert Last(ends) in ends;
      TrimExact(line, Init(ends));
      assert Init(line + ends) == line + Init(ends) && Last(line + ends) == Last(ends);
    }
  }

  /** A size line may have 1024 bytes with its LF, and no more. */
  lemma LongSizeLineFails(f: Decoding, line: ByteString)
    requires f.error.None? && f.d == FRESH && |line| > 1024 && LF !in line[..1024]
    ensures Decode(f, line).error == Some(SizeLineTooLong)
  {
    var first := line[..1025];
    assert Init(first) == line[..1024];
    DecodeSizeBytes(f, line[..1024]);
    StoppedAt(f, line, 1025);
  }

  /** A size line that means no size is an error. */
  lemma BadSizeLineFails(f: Decoding, line: ByteString)
    requires f.error.None? && f.d == FRESH && LF !in line && |line| + 1 <= 1024
    requires SizeOf(TrimLineEnd(line + [LF])).None?
    ensures Decode(f, line + [LF]).error == Some(InvalidSize)
  {
    hide SizeOf, TrimLineEnd;
    DecodeSizeBytes(f, line);
    InitLast(line, LF);
  }

  /** Behind the payload of a chunk stands CRLF or a bare LF; anything else is an error. */
  lemma DelimitersExact(f: Decoding, c: byte)
    requires f.error.None? && f.d == Decoder([], 0, PayloadCRLF)
    ensures Decode(f, [10]) == f.(d := FRESH)
    ensures c != 13 && c != 10 ==> Decode(f, [c]).error == Some(InvalidDelimiter)
    ensures if c == 10 then Decode(f, [13, c]) == f.(d := FRESH) else Decode(f, [13, c]).error == Some(InvalidDelimiter)
  {
    assert Init([10 as byte]) == [] && Init([c]) == [] && Init([13, c]) == [13] && Init([13 as byte]) == [];
  }
}
