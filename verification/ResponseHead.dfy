/**
 What the reader finds in response headers, stated on their lines, and what it makes of a well-formed response
 as a whole: exactly the payload reaches the parser, however the bytes arrive.
 */
module ResponseHead {
  import opened Bytes
  import opened ParserModel
  import opened ChunkDecoder
  import opened HeaderEnd
  import opened ResponseReader
  import Request

  // ---------- the lines of the headers ----------

  /** The lines of a text, the last one included although no LF ends it. */
  function LinesOf(text: ByteString): (lines: seq<ByteString>)
    ensures lines != []
  {
    var (lines, rest) := Split(text, LF);
    lines + [rest]
  }

  lemma LinesFirst(text: ByteString)
    ensures var i := IndexOf(text, LF);
            LinesOf(text) == [text[..i]] + if i < |text| then LinesOf(text[i + 1..]) else []
  {
    hide Split, IndexOf;
    var i := IndexOf(text, LF);
    if i < |text| {
      SplitFirst(text, LF);
      var (lines, rest) := Split(text[i + 1..], LF);
      AppendAssociates([text[..i]], lines, [rest]);
    } else {
      SplitNone(text, LF);
      assert text[..i] == text && [] + [text] == [text];
    }
  }

  lemma {:induction false} AnyChunkedExact(text: ByteString)
    ensures AnyChunked(text) <==> exists line :: line in LinesOf(text) && SaysChunked(StripCR(line))
    decreases |text|
  {
    hide SaysChunked, StripCR, IndexOf, LinesOf;
    var i := IndexOf(text, LF);
    LinesFirst(text);
    var first := text[..i];
    assert AnyChunked(text) <==>
           text != [] && (SaysChunked(StripCR(first)) || (i < |text| && AnyChunked(text[i + 1..])));
    if i < |text| {
      AnyChunkedExact(text[i + 1..]);
      assert first in LinesOf(text);
      assert forall line :: line in LinesOf(text) <==> line == first || line in LinesOf(text[i + 1..]);
    } else {
      assert LinesOf(text) == [first] && first == text;
      NothingChunked();
    }
  }

  lemma NothingChunked()
    ensures !SaysChunked(StripCR([]))
  {
  }

  /** The first line gives the status, and any later line may say that the body is chunked. */
  lemma HeadersExact(headers: ByteString)
    ensures var lines, status := LinesOf(headers), ScanStatus(CStr(StripCR(LinesOf(headers)[0])));
            && (HeadersOf(headers).Some? <==> status.Some?)
            && (status.Some? ==>
                  && HeadersOf(headers).value.status == status.value
                  && (HeadersOf(headers).value.chunked <==>
                        exists line :: line in lines[1..] && SaysChunked(StripCR(line))))
  {
    hide SaysChunked, StripCR, IndexOf, LinesOf, ScanStatus, CStr;
    var i := IndexOf(headers, LF);
    LinesFirst(headers);
    if i < |headers| {
      AnyChunkedExact(headers[i + 1..]);
      assert LinesOf(headers)[1..] == LinesOf(headers[i + 1..]);
    }
  }

  // ---------- the status line ----------

  lemma {:induction false} DigitsRead(digits: ByteString, rest: ByteString)
    requires AllDigits(digits) && (rest == [] || !IsDigit(rest[0]))
    ensures LeadingDigits(digits + rest) == digits
  {
    if digits == [] {
      assert digits + rest == rest;
    } else {
      assert digits[0] in digits;
      assert AllDigits(digits[1..]) by {
        assert forall c :: c in digits[1..] ==> c in digits;
      }
      DigitsRead(digits[1..], rest);
      assert (digits + rest)[1..] == digits[1..] + rest;
    }
  }

  lemma {:induction false} WordSkipped(word: ByteString, rest: ByteString)
    requires (forall c :: c in word ==> !IsSpace(c)) && (rest == [] || IsSpace(rest[0]))
    ensures SkipWord(word + rest) == rest
  {
    if word == [] {
      assert word + rest == rest;
    } else {
      assert word[0] in word;
      assert forall c :: c in word[1..] ==> c in word;
      WordSkipped(word[1..], rest);
      assert (word + rest)[1..] == word[1..] + rest;
    }
  }

  lemma SpacesExact(c: byte)
    ensures IsSpace(c) <==> c == 32 || 9 <= c <= 13
  {
  }

  lemma {:induction false} SpaceSkipped(space: ByteString, rest: ByteString)
    requires (forall c :: c in space ==> IsSpace(c)) && (rest == [] || !IsSpace(rest[0]))
    ensures SkipSpace(space + rest) == rest
  {
    if space == [] {
      assert space + rest == rest;
    } else {
      assert space[0] in space;
      assert forall c :: c in space[1..] ==> c in space;
      SpaceSkipped(space[1..], rest);
      assert (space + rest)[1..] == space[1..] + rest;
    }
  }

  /** A number with its sign, if it has one. */
  lemma SignedExact(sign: ByteString, digits: ByteString, rest: ByteString)
    requires sign in [Text(""), Text("+"), Text("-")]
    requires AllDigits(digits) && (rest == [] || !IsDigit(rest[0]))
    requires digits == [] && sign == [] ==> rest == [] || (rest[0] != 43 && rest[0] != 45)
    ensures ScanInt(sign + digits + rest)
         == if digits == [] then None
            else Some(if sign == Text("-") then -(DecimalValue(digits) as int) else DecimalValue(digits))
  {
    hide DecimalValue, LeadingDigits;
    assert Text("") == [] && Text("+") == [43] && Text("-") == [45];
    assert digits != [] ==> digits[0] in digits;
    var number := digits + rest;
    DigitsRead(digits, rest);
    assert sign + digits + rest == sign + number;
    assert sign != [] ==> (sign + number)[1..] == number;
    assert sign == [] ==> sign + number == number;
  }

  /**
   What a status line must look like: "HTTP/", a version, white space and a number, which may have a sign; what
   follows the number does not matter. Without a number there is no status.
   */
  lemma StatusExact(gap: ByteString, version: ByteString, space: ByteString, sign: ByteString, digits: ByteString,
                    rest: ByteString)
    requires (forall c :: c in gap ==> IsSpace(c)) && version != [] && forall c :: c in version ==> !IsSpace(c)
    requires space != [] && forall c :: c in space ==> IsSpace(c)
    requires sign in [Text(""), Text("+"), Text("-")]
    requires AllDigits(digits) && (rest == [] || !IsDigit(rest[0]))
    requires digits == [] && sign == [] ==> rest == [] || (!IsSpace(rest[0]) && rest[0] != 43 && rest[0] != 45)
    ensures ScanStatus(Text("HTTP/") + gap + version + space + sign + digits + rest)
         == if digits == [] then None
            else Some(if sign == Text("-") then -(DecimalValue(digits) as int) else DecimalValue(digits))
  {
    hide DecimalValue, LeadingDigits, SkipWord, SkipSpace, ScanInt;
    assert Text("HTTP/") == HTTP && Text("") == [] && Text("+") == [43] && Text("-") == [45];
    var number := sign + digits + rest;
    var tail := version + (space + number);
    var line := Text("HTTP/") + gap + version + space + sign + digits + rest;
    assert line == HTTP + (gap + tail);
    assert line[5..] == gap + tail;
    assert version[0] in version && space[0] in space;
    assert digits != [] ==> digits[0] in digits;
    SpaceSkipped(gap, tail);
    WordSkipped(version, space + number);
    SpaceSkipped(space, number);
    SignedExact(sign, digits, rest);
  }

  /** Any other line gives no status: another protocol, or no version. */
  lemma StatusNone(line: ByteString)
    ensures !(Text("HTTP/") <= line) ==> ScanStatus(line).None?
    ensures Text("HTTP/") <= line && (forall c :: c in line[5..] ==> IsSpace(c)) ==> ScanStatus(line).None?
  {
    assert Text("HTTP/") == HTTP;
    if HTTP <= line && forall c :: c in line[5..] ==> IsSpace(c) {
      SpaceSkipped(line[5..], []);
      assert line[5..] + [] == line[5..];
    }
  }

  /** The status of a well-formed status line is read as printed, whatever version and reason surround it. */
  lemma StatusLineReads(version: ByteString, digits: ByteString, reason: ByteString)
    requires version != [] && forall c :: c in version ==> !IsSpace(c)
    requires digits != [] && AllDigits(digits) && (reason == [] || !IsDigit(reason[0]))
    ensures ScanStatus(HTTP + version + [SPACE] + digits + reason) == Some(DecimalValue(digits))
  {
    hide ScanStatus, DecimalValue;
    assert Text("HTTP/") == HTTP && Text("") == [];
    StatusExact([], version, [SPACE], Text(""), digits, reason);
    assert HTTP + [] + version + [SPACE] + [] + digits + reason == HTTP + version + [SPACE] + digits + reason;
  }

  // ---------- the coding ----------

  /** The same text, capitals allowed. */
  predicate SameText(a: ByteString, lower: ByteString) {
    |a| == |lower| && forall i :: 0 <= i < |a| ==> a[i] == lower[i] || (65 <= a[i] <= 90 && a[i] + 32 == lower[i])
  }

  /** Text in lower case has no capitals. */
  predicate LowerCase(s: ByteString) {
    forall i :: 0 <= i < |s| ==> !(65 <= s[i] <= 90)
  }

  lemma LowerExact(a: ByteString, lower: ByteString)
    requires LowerCase(lower)
    ensures LowerASCII(a) == lower <==> SameText(a, lower)
  {
    if SameText(a, lower) {
      assert LowerASCII(a) == lower;
    }
    if LowerASCII(a) == lower {
      assert forall i :: 0 <= i < |a| ==> LowerASCII(a)[i] == lower[i];
    }
  }

  lemma CodingTexts()
    ensures TRANSFER_ENCODING == Text("transfer-encoding:") && LowerCase(Text("transfer-encoding:"))
    ensures CHUNKED == Text("chunked") && LowerCase(Text("chunked"))
  {
    assert Text("chunked") == [99, 104, 117, 110, 107, 101, 100];
    assert Text("transfer-encoding:")
        == [116, 114, 97, 110, 115, 102, 101, 114, 45, 101, 110, 99, 111, 100, 105, 110, 103, 58];
  }

  /** A header line says chunked if it starts with the header's name and mentions the word, in letters of any case. */
  lemma SaysChunkedExact(line: ByteString)
    ensures SaysChunked(line) <==>
              && |line| >= 18 && SameText(line[..18], Text("transfer-encoding:"))
              && exists i: nat {:trigger Mentions(line, i)} :: Mentions(line, i)
  {
    hide LowerASCII, SameText, Find, LowerCase;
    CodingTexts();
    var low := LowerASCII(line);
    LowerSlices(line);
    if |line| >= 18 {
      LowerExact(line[..18], Text("transfer-encoding:"));
    }
    forall i: nat
      ensures Mentions(line, i) <==> Occurs(low, CHUNKED, i)
    {
      if i + 7 <= |line| {
        LowerExact(line[i..i + 7], Text("chunked"));
      }
    }
  }

  predicate Mentions(line: ByteString, i: nat) {
    i + 7 <= |line| && SameText(line[i..i + 7], Text("chunked"))
  }

  lemma LowerSlices(line: ByteString)
    ensures |LowerASCII(line)| == |line|
    ensures forall i, j :: 0 <= i <= j <= |line| ==> LowerASCII(line)[i..j] == LowerASCII(line[i..j])
    ensures forall j :: 0 <= j <= |line| ==> LowerASCII(line)[..j] == LowerASCII(line[..j])
  {
  }

  // ---------- a whole response ----------

  /** The headers end where they should: nothing in them looks like their end, and the buffer can hold them. */
  predicate CleanHead(head: ByteString) {
    && Find(head + CRLFCRLF, CRLFCRLF) == Some(|head|)
    && Find(head + CRLFCRLF, LFLF).None?
    && |head| + 3 + MAX_RECEIVE <= MAX_HEADER
  }

  /** Every LF stands behind a CR, and no CR behind an LF. */
  predicate Paired(s: ByteString) {
    forall i :: 0 <= i < |s| ==> PairedAt(s, i)
  }

  predicate PairedAt(s: ByteString, i: nat)
    requires i < |s|
  {
    && (s[i] == LF ==> i > 0 && s[i - 1] == CR)
    && (s[i] == CR ==> i == 0 || s[i - 1] != LF)
  }

  predicate HeaderLine(line: ByteString) {
    line != [] && CR !in line && LF !in line
  }

  lemma {:induction false} LinesPaired(lines: seq<ByteString>)
    requires forall line :: line in lines ==> HeaderLine(line)
    ensures Paired(Request.WithCRLF(lines))
  {
    if lines != [] {
      LinesPaired(Init(lines));
      assert Last(lines) in lines;
      PairedLine(Request.WithCRLF(Init(lines)), Last(lines));
    }
  }

  lemma PairedLine(before: ByteString, line: ByteString)
    requires Paired(before) && HeaderLine(line)
    ensures Paired(before + line + CRLF)
  {
    var s, n := before + line + CRLF, |before| + |line|;
    assert s[..|before|] == before && s[|before|..n] == line && s[n] == CR && s[n + 1] == LF;
    forall i | 0 <= i < |s|
      ensures PairedAt(s, i)
    {
      if i < |before| {
        assert PairedAt(before, i);
        assert s[i] == before[i] && (i > 0 ==> s[i - 1] == before[i - 1]);
      } else if i < n {
        assert s[i] == line[i - |before|] && s[i] in line;
      } else if i == n {
        assert s[i - 1] == line[|line| - 1] && s[i - 1] in line;
      } else {
        assert i == n + 1 && s[i - 1] == CR;
      }
    }
  }

  /** Headers of non-empty lines that all end in CRLF are clean, unless they are too large. */
  lemma LinesAreClean(lines: seq<ByteString>, head: ByteString)
    requires forall line :: line in lines ==> HeaderLine(line)
    requires head + CRLF == Request.WithCRLF(lines) && |head| + 3 + MAX_RECEIVE <= MAX_HEADER
    ensures CleanHead(head)
  {
    var s, all := Request.WithCRLF(lines), head + CRLFCRLF;
    LinesPaired(lines);
    assert all == s + CRLF;
    assert |s| == |head| + 2 && all[..|s|] == s && all[|s|] == CR && all[|s| + 1] == LF;
    forall i: nat
      ensures !Occurs(all, LFLF, i)
    {
      if i + 2 <= |all| {
        assert all[i..i + 2] == [all[i], all[i + 1]];
        assert i + 1 < |s| ==> PairedAt(s, i + 1) && all[i + 1] == s[i + 1];
        assert all[i + 1] == LF ==> all[i] == CR;
      }
    }
    forall i: nat | i < |head|
      ensures !Occurs(all, CRLFCRLF, i)
    {
      assert all[i..i + 4][1] == all[i + 1] && all[i..i + 4][2] == all[i + 2];
      assert all[i + 1] == s[i + 1] && (i + 2 < |s| ==> PairedAt(s, i + 2) && all[i + 2] == s[i + 2]);
    }
    assert Occurs(all, CRLFCRLF, |head|);
    FirstIs(all, CRLFCRLF, |head|);
  }

  lemma CleanHeadFound(head: ByteString, body: ByteString)
    requires CleanHead(head)
    ensures var response := head + CRLFCRLF + body;
            && StableHeader(response)
            && Enough(response) == |head| + 4
            && Scan(response[..|head| + 4]) == Found(|head|, 4)
  {
    var response := head + CRLFCRLF + body;
    var n := |head| + 4;
    assert response[..n] == head + CRLFCRLF;
    FindPrefix(response, CRLFCRLF, n);
    FindPrefix(response, LFLF, n);
    assert Occurs(response, CRLFCRLF, |head|);
  }

  /** Clean headers of a response that opens the stream. */
  predicate Opens(head: ByteString, info: HeaderInfo) {
    CleanHead(head) && HeadersOf(head) == Some(info) && 200 <= info.status < 300
  }

  lemma HeadRead(e: Env, m: Machine, head: ByteString, info: HeaderInfo, body: ByteString, turns: seq<Turn>)
    requires Opens(head, info) && Realistic(turns) && Flatten(Pieces(turns)) == head + CRLFCRLF + body
    ensures var (machine, ended) := ReadBody(e, Report(m, Open(info.status)), info.chunked, body);
            ReadWhole(e, m, turns)
            == Response(machine, true, info.status, if ended.Some? then ended.value else EndsWell(turns))
  {
    hide ReadBody, HeadersOf, Scan, StableHeader, Enough, CleanHead;
    var response := head + CRLFCRLF + body;
    CleanHeadFound(head, body);
    PiecesSmall(turns);
    StableIsInvariant(response, Pieces(turns));
    assert response[..|head|] == head && response[|head| + 4..] == body;
  }

  /** Any status outside of 200..299 fails the attempt: nothing is opened, and nothing reaches the parser. */
  lemma OtherStatusFails(e: Env, m: Machine, head: ByteString, info: HeaderInfo, body: ByteString, turns: seq<Turn>)
    requires CleanHead(head) && HeadersOf(head) == Some(info) && (info.status < 200 || info.status > 299)
    requires Realistic(turns) && Flatten(Pieces(turns)) == head + CRLFCRLF + body
    ensures ReadWhole(e, m, turns) == Response(m, false, info.status, false)
  {
    hide ReadBody, HeadersOf, Scan, StableHeader, Enough, CleanHead;
    var response := head + CRLFCRLF + body;
    CleanHeadFound(head, body);
    PiecesSmall(turns);
    StableIsInvariant(response, Pieces(turns));
    assert response[..|head|] == head;
  }

  /** So do headers without a status. */
  lemma NoStatusFails(e: Env, m: Machine, head: ByteString, body: ByteString, turns: seq<Turn>)
    requires CleanHead(head) && HeadersOf(head).None?
    requires Realistic(turns) && Flatten(Pieces(turns)) == head + CRLFCRLF + body
    ensures ReadWhole(e, m, turns) == Response(m, false, 0, false)
  {
    hide ReadBody, HeadersOf, Scan, StableHeader, Enough, CleanHead;
    var response := head + CRLFCRLF + body;
    CleanHeadFound(head, body);
    PiecesSmall(turns);
    StableIsInvariant(response, Pieces(turns));
    assert response[..|head|] == head;
  }

  /** And headers that do not end within 65536 bytes. */
  lemma EndlessHeadersFail(e: Env, m: Machine, response: ByteString, turns: seq<Turn>)
    requires Flatten(Pieces(turns)) == response && |response| > 65536
    requires Find(response, CRLFCRLF).None? && Find(response, LFLF).None?
    ensures ReadWhole(e, m, turns) == Response(m, false, 0, false)
  {
    ReadHeaderStops(response, Pieces(turns));
  }

  /** A plain body reaches the parser as it is, behind Open. */
  lemma PlainDelivered(e: Env, m: Machine, head: ByteString, info: HeaderInfo, body: ByteString, turns: seq<Turn>)
    requires Opens(head, info) && Realistic(turns) && Flatten(Pieces(turns)) == head + CRLFCRLF + body
    requires !info.chunked
    ensures ReadWhole(e, m, turns)
         == Response(Feed(e, Report(m, Open(info.status)), body), true, info.status, EndsWell(turns))
  {
    hide Opens, ReadWhole, Feed;
    HeadRead(e, m, head, info, body, turns);
  }

  /** A framing error fails the attempt; the parser has been fed what came out before it. */
  lemma FramingErrorFails(e: Env, m: Machine, head: ByteString, info: HeaderInfo, body: ByteString, turns: seq<Turn>)
    requires info.chunked && Opens(head, info) && Decode(Start(FRESH), body).error.Some?
    requires Realistic(turns) && Flatten(Pieces(turns)) == head + CRLFCRLF + body
    ensures var fed := Decode(Start(FRESH), body).output;
            ReadWhole(e, m, turns) == Response(Feed(e, Report(m, Open(info.status)), fed), true, info.status, false)
  {
    hide Opens, ReadWhole, Feed, Decode;
    HeadRead(e, m, head, info, body, turns);
  }

  /** Of a chunked body the parser sees exactly the payload, and the attempt succeeds however it is cut. */
  lemma ChunkedDelivered(e: Env, m: Machine, head: ByteString, info: HeaderInfo, body: ByteString, payload: ByteString,
                         turns: seq<Turn>)
    requires info.chunked && Carries(body, payload) && Opens(head, info)
    requires Realistic(turns) && Flatten(Pieces(turns)) == head + CRLFCRLF + body
    ensures ReadWhole(e, m, turns) == Response(Feed(e, Report(m, Open(info.status)), payload), true, info.status, true)
  {
    hide Opens, ReadWhole, Feed, Carries, Decode;
    HeadRead(e, m, head, info, body, turns);
    CarriesDecoded(body, payload);
  }

  // ---------- headers of one line ----------

  /** What follows a line changes nothing about the status. */
  lemma FirstLineDecides(head: ByteString, rest: ByteString)
    ensures HeadersOf(head).Some? <==> HeadersOf(head + [LF] + rest).Some?
    ensures HeadersOf(head).Some? ==> HeadersOf(head).value.status == HeadersOf(head + [LF] + rest).value.status
  {
    hide ScanStatus, IndexOf, CStr, StripCR, AnyChunked;
    var text, i := head + [LF] + rest, IndexOf(head, LF);
    assert text[..i] == head[..i];
    FirstIndex(text, LF, i);
  }

  /** "HTTP/1.1 200 OK" */
  const OK_HEAD: ByteString := [72, 84, 84, 80, 47, 49, 46, 49, 32, 50, 48, 48, 32, 79, 75]

  lemma OkHead()
    ensures LF !in OK_HEAD && HeadersOf(OK_HEAD) == Some(HeaderInfo(200, false))
  {
    hide ScanStatus, IndexOf;
    var version: ByteString, digits: ByteString, reason: ByteString := [49, 46, 49], [50, 48, 48], [32, 79, 75];
    StatusLineReads(version, digits, reason);
    assert Init(digits) == [50, 48] && Init([50, 48]) == [50] && DecimalValue([50]) == 2;
    assert DecimalValue([50, 48]) == 20 && DecimalValue(digits) == 200;
    assert OK_HEAD == HTTP + version + [SPACE] + digits + reason;
    NotBefore(OK_HEAD, LF, |OK_HEAD|);
    NotBefore(OK_HEAD, NUL, |OK_HEAD|);
    assert OK_HEAD[..|OK_HEAD|] == OK_HEAD;
  }

  lemma OkHeadOpens()
    ensures Opens(OK_HEAD, HeaderInfo(200, false))
  {
    hide HeadersOf, CleanHead;
    OkHead();
    assert Init([OK_HEAD]) == [];
    assert OK_HEAD + CRLF == Request.WithCRLF([OK_HEAD]);
    LinesAreClean([OK_HEAD], OK_HEAD);
  }

  const CHUNKED_LINE: ByteString := Text("Transfer-Encoding: chunked")

  const CHUNKED_HEAD: ByteString := OK_HEAD + CRLF + CHUNKED_LINE

  lemma HeadTexts()
    ensures OK_HEAD == Text("HTTP/1.1 200 OK")
    ensures CHUNKED_HEAD == Text("HTTP/1.1 200 OK") + Text("\r\n") + Text("Transfer-Encoding: chunked")
  {
    assert Text("\r\n") == CRLF;
  }

  lemma ChunkedLineCodes()
    ensures CHUNKED_LINE == [84, 114, 97, 110, 115, 102, 101, 114, 45, 69, 110, 99, 111, 100, 105, 110, 103, 58, 32,
                             99, 104, 117, 110, 107, 101, 100]
  {
  }

  lemma ChunkedLine()
    ensures CR !in CHUNKED_LINE && LF !in CHUNKED_LINE && SaysChunked(CHUNKED_LINE)
    ensures StripCR(CHUNKED_LINE) == CHUNKED_LINE
  {
    hide SaysChunked;
    ChunkedLineCodes();
    CodingTexts();
    assert SameText(CHUNKED_LINE[..18], TRANSFER_ENCODING);
    assert CHUNKED_LINE[19..26] == CHUNKED;
    assert Mentions(CHUNKED_LINE, 19);
    SaysChunkedExact(CHUNKED_LINE);
  }

  lemma ChunkedHeadOpens()
    ensures Opens(CHUNKED_HEAD, HeaderInfo(200, true))
  {
    hide SaysChunked, ScanStatus, CleanHead, AnyChunked, IndexOf;
    var head := CHUNKED_HEAD;
    OkHead();
    ChunkedLine();
    assert head == (OK_HEAD + [CR]) + [LF] + CHUNKED_LINE;
    CutAfter(OK_HEAD + [CR], LF, CHUNKED_LINE);
    FirstIndex(head, LF, |OK_HEAD| + 1);
    InitLast(OK_HEAD, CR);
    OnlyLine(OK_HEAD);
    OnlyLine(CHUNKED_LINE);
    TwoLinesClean(OK_HEAD, CHUNKED_LINE);
  }

  lemma CutAfter(a: ByteString, c: byte, b: ByteString)
    ensures var s := a + [c] + b; s[..|a|] == a && s[|a|] == c && s[|a| + 1..] == b
  {
  }

  lemma OnlyLine(line: ByteString)
    requires LF !in line
    ensures IndexOf(line, LF) == |line| && line[..|line|] == line
    ensures SaysChunked(StripCR(line)) && line != [] ==> AnyChunked(line)
  {
    hide SaysChunked;
    NotBefore(line, LF, |line|);
  }

  lemma TwoLinesClean(a: ByteString, b: ByteString)
    requires HeaderLine(a) && HeaderLine(b) && |a| + |b| <= 1000
    ensures CleanHead(a + CRLF + b)
  {
    hide CleanHead;
    Request.WithCRLFAppend([], a);
    Request.WithCRLFAppend([a], b);
    assert [] + [a] == [a] && [a] + [b] == [a, b];
    assert Request.WithCRLF([a]) == a + CRLF;
    assert a + CRLF + b + CRLF == Request.WithCRLF([a, b]);
    LinesAreClean([a, b], a + CRLF + b);
  }
}
