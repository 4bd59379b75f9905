/** The request of one attempt, and the resume position it carries. */
module Request {
  import opened Bytes

  datatype Header = Header(name: ByteString, value: ByteString)

  const GET_PREFIX: ByteString := [71, 69, 84, 32]                                // "GET "
  const VERSION: ByteString := [32, 72, 84, 84, 80, 47, 49, 46, 49]               // " HTTP/1.1"
  const HOST: ByteString := [72, 111, 115, 116, 58, 32]                           // "Host: "
  // "Last-Event-ID"
  const LAST_EVENT_ID: ByteString := [76, 97, 115, 116, 45, 69, 118, 101, 110, 116, 45, 73, 68]

  // "Accept: text/event-stream"
  const ACCEPT: ByteString :=
    [65, 99, 99, 101, 112, 116, 58, 32, 116, 101, 120, 116, 47, 101, 118, 101, 110, 116, 45, 115, 116, 114, 101, 97,
     109]
  // "Cache-Control: no-cache"
  const CACHE_CONTROL: ByteString :=
    [67, 97, 99, 104, 101, 45, 67, 111, 110, 116, 114, 111, 108, 58, 32, 110, 111, 45, 99, 97, 99, 104, 101]
  // "Connection: keep-alive"
  const KEEP_ALIVE: ByteString :=
    [67, 111, 110, 110, 101, 99, 116, 105, 111, 110, 58, 32, 107, 101, 101, 112, 45, 97, 108, 105, 118, 101]
  // "User-Agent: defold-extension-sse/0.2"
  const USER_AGENT: ByteString :=
    [85, 115, 101, 114, 45, 65, 103, 101, 110, 116, 58, 32, 100, 101, 102, 111, 108, 100, 45, 101, 120, 116, 101, 110,
     115, 105, 111, 110, 45, 115, 115, 101, 47, 48, 46, 50]

  predicate HasControlChars(s: ByteString) {
    CR in s || LF in s
  }

  predicate ValidHeader(header: Header) {
    header.name != [] && !HasControlChars(header.name) && !HasControlChars(header.value) && COLON !in header.name
  }

  function HeaderLine(header: Header): ByteString {
    header.name + [COLON, SPACE] + header.value
  }

  /** The headers sent: the caller's, and the resume position unless it is empty. */
  function SentHeaders(headers: seq<Header>, lastEventId: ByteString): seq<Header> {
    headers + if lastEventId != [] then [Header(LAST_EVENT_ID, lastEventId)] else []
  }

  function HeaderLines(headers: seq<Header>): seq<ByteString> {
    seq(|headers|, i requires 0 <= i < |headers| => HeaderLine(headers[i]))
  }

  function WithCRLF(lines: seq<ByteString>): ByteString {
    if lines == [] then [] else WithCRLF(Init(lines)) + Last(lines) + CRLF
  }

  function HeadLines(path: ByteString, host: ByteString): seq<ByteString> {
    [GET_PREFIX + path + VERSION, HOST + host, ACCEPT, CACHE_CONTROL, KEEP_ALIVE, USER_AGENT]
  }

  /** The lines of a well-formed request, in order, the empty one that ends it included. */
  function RequestLines(path: ByteString, host: ByteString, headers: seq<Header>): seq<ByteString> {
    HeadLines(path, host) + HeaderLines(headers) + [[]]
  }

  lemma WithCRLFAppend(lines: seq<ByteString>, line: ByteString)
    ensures WithCRLF(lines + [line]) == WithCRLF(lines) + line + CRLF
  {
  }

  method AppendHeader(request: ByteString, header: Header) returns (r: Option<ByteString>)
    ensures r == if ValidHeader(header) then Some(request + HeaderLine(header) + CRLF) else None
  {
    if header.name == [] || HasControlChars(header.name) || HasControlChars(header.value) || COLON in header.name {
      return None;
    }
    var text := request + header.name;
    text := text + [COLON, SPACE];
    text := text + header.value;
    text := text + CRLF;
    assert text == request + HeaderLine(header) + CRLF;
    r := Some(text);
  }

  /** It succeeds exactly when every header to be sent is valid, and then sends exactly those lines. */
  method BuildRequest(path: ByteString, host: ByteString, headers: seq<Header>, lastEventId: ByteString)
      returns (r: Option<ByteString>)
    ensures r.Some? <==> forall header :: header in SentHeaders(headers, lastEventId) ==> ValidHeader(header)
    ensures r.Some? ==> r.value == WithCRLF(RequestLines(path, host, SentHeaders(headers, lastEventId)))
  {
    hide HeaderLine, HeadLines, ValidHeader;
    var head := HeadLines(path, host);
    var text := WithCRLF(head);
    var sent := SentHeaders(headers, lastEventId);
    assert head + HeaderLines(sent[..0]) == head;
    for i := 0 to |sent|
      invariant text == WithCRLF(head + HeaderLines(sent[..i]))
      invariant forall header :: header in sent[..i] ==> ValidHeader(header)
    {
      var appended := AppendHeader(text, sent[i]);
      if appended.None? {
        assert sent[i] in sent;
        return None;
      }
      text := appended.value;
      assert sent[..i + 1] == sent[..i] + [sent[i]];
      WithCRLFAppend(head + HeaderLines(sent[..i]), HeaderLine(sent[i]));
      assert head + HeaderLines(sent[..i]) + [HeaderLine(sent[i])] == head + HeaderLines(sent[..i + 1]);
    }
    assert sent[..|sent|] == sent;
    WithCRLFAppend(head + HeaderLines(sent), []);
    assert text + [] + CRLF == text + CRLF;
    r := Some(text + CRLF);
  }

  // ---------- what the server sees ----------

  function AppendCR(lines: seq<ByteString>): seq<ByteString> {
    seq(|lines|, i requires 0 <= i < |lines| => lines[i] + [CR])
  }

  lemma {:induction false} WithCRLFIsUnsplit(lines: seq<ByteString>)
    ensures WithCRLF(lines) == Unsplit(AppendCR(lines), LF)
  {
    if lines != [] {
      WithCRLFIsUnsplit(Init(lines));
      assert AppendCR(lines) == AppendCR(Init(lines)) + [Last(lines) + [CR]];
      InitLast(AppendCR(Init(lines)), Last(lines) + [CR]);
      assert WithCRLF(Init(lines)) + Last(lines) + CRLF == WithCRLF(Init(lines)) + (Last(lines) + [CR]) + [LF];
    }
  }

  predicate OneLine(line: ByteString) { LF !in line }

  predicate OneLineEach(lines: seq<ByteString>) {
    forall line :: line in lines ==> OneLine(line)
  }

  lemma HeadOneLine(path: ByteString, host: ByteString)
    requires OneLine(path) && OneLine(host)
    ensures OneLineEach(HeadLines(path, host))
  {
    assert OneLine(GET_PREFIX + path + VERSION) && OneLine(HOST + host);
    assert OneLine(ACCEPT) && OneLine(CACHE_CONTROL) && OneLine(KEEP_ALIVE) && OneLine(USER_AGENT);
  }

  lemma HeadersOneLine(headers: seq<Header>)
    requires forall header :: header in headers ==> ValidHeader(header)
    ensures OneLineEach(HeaderLines(headers))
  {
    forall i | 0 <= i < |headers|
      ensures OneLine(HeaderLine(headers[i]))
    {
      assert headers[i] in headers;
    }
  }

  /**
   No header can add a line: a server that cuts the request at LF reads exactly the intended lines. In
   particular the stored resume position arrives whole, or the request is not sent at all.
   */
  lemma RequestArrives(path: ByteString, host: ByteString, headers: seq<Header>, lastEventId: ByteString)
    requires OneLine(path) && OneLine(host)
    requires forall header :: header in SentHeaders(headers, lastEventId) ==> ValidHeader(header)
    ensures var lines := RequestLines(path, host, SentHeaders(headers, lastEventId));
            Split(WithCRLF(lines), LF) == (AppendCR(lines), [])
  {
    hide HeadLines, ValidHeader, HeaderLines;
    var lines := RequestLines(path, host, SentHeaders(headers, lastEventId));
    HeadOneLine(path, host);
    HeadersOneLine(SentHeaders(headers, lastEventId));
    assert OneLine([]) && OneLineEach(lines);
    forall i | 0 <= i < |lines|
      ensures LF !in lines[i] + [CR]
    {
      assert OneLine(lines[i]);
    }
    WithCRLFIsUnsplit(lines);
    SplitUnsplit(AppendCR(lines), [], LF);
    assert WithCRLF(lines) + [] == WithCRLF(lines);
  }

  /** With valid headers of the caller, only a CR or LF in the resume position can keep a request from being sent. */
  lemma SendableIff(headers: seq<Header>, lastEventId: ByteString)
    requires forall header :: header in headers ==> ValidHeader(header)
    ensures (forall header :: header in SentHeaders(headers, lastEventId) ==> ValidHeader(header))
       <==> !HasControlChars(lastEventId)
  {
    var own := Header(LAST_EVENT_ID, lastEventId);
    assert ValidHeader(own) <==> !HasControlChars(lastEventId);
    if lastEventId != [] {
      assert own in SentHeaders(headers, lastEventId);
    }
  }

  // ---------- the request in characters ----------

  lemma HeadTexts()
    ensures GET_PREFIX == Text("GET ") && VERSION == Text(" HTTP/1.1") && HOST == Text("Host: ")
    ensures LAST_EVENT_ID == Text("Last-Event-ID")
  {
  }

  lemma AcceptText()
    ensures ACCEPT == Text("Accept: text/event-stream")
  {
  }

  lemma CacheText()
    ensures CACHE_CONTROL == Text("Cache-Control: no-cache")
  {
  }

  lemma KeepAliveText()
    ensures KEEP_ALIVE == Text("Connection: keep-alive")
  {
  }

  lemma AgentText()
    ensures USER_AGENT == Text("User-Agent: defold-extension-sse/0.2")
  {
  }

  /** The whole request: the path behind GET, the host behind Host, and the headers in the caller's order. */
  lemma RequestInFull(path: ByteString, host: ByteString, headers: seq<Header>)
    ensures WithCRLF(RequestLines(path, host, headers))
         == Text("GET ") + path + Text(" HTTP/1.1") + CRLF
            + Text("Host: ") + host + CRLF
            + Text("Accept: text/event-stream") + CRLF
            + Text("Cache-Control: no-cache") + CRLF
            + Text("Connection: keep-alive") + CRLF
            + Text("User-Agent: defold-extension-sse/0.2") + CRLF
            + WithCRLF(HeaderLines(headers)) + CRLF
  {
    hide HeaderLines, WithCRLF, HeaderLine;
    HeadTexts();
    AcceptText();
    CacheText();
    KeepAliveText();
    AgentText();
    var head := HeadLines(path, host);
    HeadInFull(path, host);
    WithCRLFConcat(head, HeaderLines(headers));
    WithCRLFAppend(head + HeaderLines(headers), []);
    var text := WithCRLF(head) + WithCRLF(HeaderLines(headers));
    assert text + [] + CRLF == text + CRLF;
  }

  lemma HeadInFull(path: ByteString, host: ByteString)
    ensures WithCRLF(HeadLines(path, host))
         == GET_PREFIX + path + VERSION + CRLF + HOST + host + CRLF + ACCEPT + CRLF + CACHE_CONTROL + CRLF
            + KEEP_ALIVE + CRLF + USER_AGENT + CRLF
  {
    hide WithCRLF;
    var a, b := GET_PREFIX + path + VERSION, HOST + host;
    NoLines();
    WithCRLFAppend([], a);
    WithCRLFAppend([a], b);
    WithCRLFAppend([a, b], ACCEPT);
    WithCRLFAppend([a, b, ACCEPT], CACHE_CONTROL);
    WithCRLFAppend([a, b, ACCEPT, CACHE_CONTROL], KEEP_ALIVE);
    WithCRLFAppend([a, b, ACCEPT, CACHE_CONTROL, KEEP_ALIVE], USER_AGENT);
    assert [] + [a] == [a] && [a] + [b] == [a, b] && [a, b] + [ACCEPT] == [a, b, ACCEPT];
    assert [a, b, ACCEPT] + [CACHE_CONTROL] == [a, b, ACCEPT, CACHE_CONTROL];
    assert [a, b, ACCEPT, CACHE_CONTROL] + [KEEP_ALIVE] == [a, b, ACCEPT, CACHE_CONTROL, KEEP_ALIVE];
    assert [a, b, ACCEPT, CACHE_CONTROL, KEEP_ALIVE] + [USER_AGENT] == HeadLines(path, host);
    assert [] + a + CRLF == a + CRLF && (a + CRLF) + b + CRLF == a + CRLF + HOST + host + CRLF;
  }

  lemma NoLines()
    ensures WithCRLF([]) == []
  {
  }

  lemma {:induction false} WithCRLFConcat(a: seq<ByteString>, b: seq<ByteString>)
    ensures WithCRLF(a + b) == WithCRLF(a) + WithCRLF(b)
  {
    if b == [] {
      assert a + b == a;
    } else {
      WithCRLFConcat(a, Init(b));
      assert Init(a + b) == a + Init(b) && Last(a + b) == Last(b);
      var x, y := WithCRLF(a), WithCRLF(Init(b));
      assert x + y + Last(b) + CRLF == x + (y + Last(b) + CRLF);
    }
  }

  /** A header is valid exactly if its line is one line, and cutting that at its first colon gives the name back. */
  lemma ValidHeaderExact(header: Header)
    ensures HeaderLine(header) == header.name + Text(": ") + header.value
    ensures ValidHeader(header) <==>
              var line := header.name + Text(": ") + header.value;
              && 13 !in line && 10 !in line
              && header.name != [] && IndexOf(line, 58) == |header.name|
  {
    hide IndexOf;
    assert Text(": ") == [COLON, SPACE];
    var line := header.name + Text(": ") + header.value;
    assert line[..|header.name|] == header.name && line[|header.name|] == COLON;
    if COLON !in header.name {
      FirstIndex(line, COLON, |header.name|);
    }
    assert IndexOf(line, COLON) == |header.name| ==> COLON !in line[..|header.name|];
    assert forall c :: c in line <==> c in header.name || c in Text(": ") || c in header.value;
  }
}
