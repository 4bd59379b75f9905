/**
 Finding the end of the response headers in a growing buffer. CRLFCRLF anywhere wins over an earlier LFLF,
 but only once it has arrived, so where the headers end can depend on how the response was cut into
 receives. StableHeader is the exact condition under which it does not.
 */
module HeaderEnd {
  import opened Bytes

  const MAX_HEADER := 65536
  const MAX_RECEIVE := 8192
  const CRLFCRLF: ByteString := [CR, LF, CR, LF]
  const LFLF: ByteString := [LF, LF]

  predicate Occurs(s: ByteString, pattern: ByteString, i: nat) {
    i + |pattern| <= |s| && s[i..i + |pattern|] == pattern
  }

  lemma OccursShift(s: ByteString, pattern: ByteString)
    requires s != []
    ensures forall j: nat {:trigger Occurs(s, pattern, j)} ::
              0 < j ==> Occurs(s, pattern, j) == Occurs(s[1..], pattern, j - 1)
    ensures forall j: nat {:trigger Occurs(s[1..], pattern, j)} ::
              Occurs(s, pattern, j + 1) == Occurs(s[1..], pattern, j)
  {
  }

  /** The first place where the pattern occurs. */
  function Find(s: ByteString, pattern: ByteString): (r: Option<nat>)
    requires pattern != []
    ensures r.Some? ==> Occurs(s, pattern, r.value) && forall j: nat :: j < r.value ==> !Occurs(s, pattern, j)
    ensures r.None? ==> forall j: nat :: !Occurs(s, pattern, j)
  {
    if |s| < |pattern| then None
    else if Occurs(s, pattern, 0) then Some(0)
    else
      OccursShift(s, pattern);
      match Find(s[1..], pattern)
      case None => None
      case Some(i) => Some(i + 1)
  }

  datatype HeaderOutcome = Reading(buffer: ByteString) | TooLarge | Found(end: nat, size: nat)

  function FindHeaderEnd(response: ByteString): (r: Option<(nat, nat)>)
    ensures r.Some? ==> r.value.0 + r.value.1 <= |response|
  {
    var end := Find(response, CRLFCRLF);
    if end.Some? then Some((end.value, 4))
    else
      var end := Find(response, LFLF);
      if end.Some? then Some((end.value, 2)) else None
  }

  function Scan(buffer: ByteString): HeaderOutcome {
    if |buffer| > MAX_HEADER then TooLarge
    else if FindHeaderEnd(buffer).Some? then Found(FindHeaderEnd(buffer).value.0, FindHeaderEnd(buffer).value.1)
    else Reading(buffer)
  }

  /** The header phase of the reader over the pieces received so far. */
  function ReadHeader(pieces: seq<ByteString>): HeaderOutcome {
    if pieces == [] then Reading([])
    else
      var before := ReadHeader(Init(pieces));
      if before.Reading? then Scan(before.buffer + Last(pieces)) else before
  }

  predicate Receives(pieces: seq<ByteString>, response: ByteString) {
    Flatten(pieces) == response && forall piece :: piece in pieces ==> 0 < |piece| <= MAX_RECEIVE
  }

  // ---------- where the scan stops ----------

  /** Where the first occurrence of a delimiter is complete. */
  function Complete(s: ByteString, pattern: ByteString): Option<nat>
    requires pattern != []
  {
    var at := Find(s, pattern);
    if at.Some? then Some(at.value + |pattern|) else None
  }

  /** How many bytes it takes until a delimiter is there or the buffer is too large. */
  function Enough(response: ByteString): (n: nat)
    ensures n > 0
  {
    var crlf, lf := Complete(response, CRLFCRLF), Complete(response, LFLF);
    var n := if crlf.Some? && lf.Some? then (if crlf.value < lf.value then crlf.value else lf.value)
             else if crlf.Some? then crlf.value else if lf.Some? then lf.value else MAX_HEADER + 1;
    if n < MAX_HEADER + 1 then n else MAX_HEADER + 1
  }

  /** The first receive boundary at or beyond limit. */
  function FirstBoundary(pieces: seq<ByteString>, limit: nat): Option<nat> {
    if pieces == [] then None
    else
      var before := FirstBoundary(Init(pieces), limit);
      if before.Some? then before
      else if |Flatten(pieces)| >= limit then Some(|Flatten(pieces)|) else None
  }

  lemma FindPrefix(s: ByteString, pattern: ByteString, n: nat)
    requires pattern != [] && n <= |s|
    ensures var at := Find(s, pattern);
            Find(s[..n], pattern) == if at.Some? && at.value + |pattern| <= n then at else None
  {
    forall i: nat
      ensures Occurs(s[..n], pattern, i) == (Occurs(s, pattern, i) && i + |pattern| <= n)
    {
      if i + |pattern| <= n {
        assert s[..n][i..i + |pattern|] == s[i..i + |pattern|];
      }
    }
  }

  /** Before Enough bytes the scan goes on; from then on it stops. */
  lemma ScanPrefix(response: ByteString, n: nat)
    requires n <= |response|
    ensures n < Enough(response) ==> Scan(response[..n]) == Reading(response[..n])
    ensures n >= Enough(response) ==> !Scan(response[..n]).Reading?
  {
    FindPrefix(response, CRLFCRLF, n);
    FindPrefix(response, LFLF, n);
  }

  /** The outcome of the header phase is the scan of the buffer at the first boundary with enough bytes. */
  lemma {:induction false} ReadHeaderStops(response: ByteString, pieces: seq<ByteString>)
    requires Flatten(pieces) <= response
    ensures var stop := FirstBoundary(pieces, Enough(response));
            && (stop.Some? ==> Enough(response) <= stop.value <= |Flatten(pieces)|)
            && (stop.None? ==> |Flatten(pieces)| < Enough(response))
            && ReadHeader(pieces) == if stop.Some? then Scan(response[..stop.value]) else Reading(Flatten(pieces))
  {
    hide Scan, Enough;
    if pieces != [] {
      var before, seen := Flatten(Init(pieces)), Flatten(pieces);
      assert before <= response && response[..|seen|] == seen;
      ReadHeaderStops(response, Init(pieces));
      ScanPrefix(response, |seen|);
      var stop := FirstBoundary(Init(pieces), Enough(response));
      if stop.Some? {
        ScanPrefix(response, stop.value);
      }
    }
  }

  /** A boundary overshoots by less than one receive. */
  lemma {:induction false} BoundaryNear(pieces: seq<ByteString>, limit: nat)
    requires limit > 0 && forall piece :: piece in pieces ==> 0 < |piece| <= MAX_RECEIVE
    ensures var stop := FirstBoundary(pieces, limit);
            && (stop.Some? ==> limit <= stop.value < limit + MAX_RECEIVE && stop.value <= |Flatten(pieces)|)
            && (stop.None? ==> |Flatten(pieces)| < limit)
  {
    if pieces != [] {
      assert forall piece :: piece in Init(pieces) ==> piece in pieces;
      BoundaryNear(Init(pieces), limit);
      assert Last(pieces) in pieces;
    }
  }

  // ---------- every boundary in reach can be hit ----------

  function Singles(s: ByteString): seq<ByteString> {
    seq(|s|, i requires 0 <= i < |s| => [s[i]])
  }

  lemma {:induction false} FlattenSingles(s: ByteString)
    ensures Flatten(Singles(s)) == s
  {
    if s != [] {
      FlattenSingles(Init(s));
      assert Init(Singles(s)) == Singles(Init(s));
    }
  }

  /** Single bytes up to just before limit, one receive up to n, single bytes from there. */
  function CutAt(response: ByteString, limit: nat, n: nat): seq<ByteString>
    requires 0 < limit <= n <= |response|
  {
    Singles(response[..limit - 1]) + [response[limit - 1..n]] + Singles(response[n..])
  }

  lemma CutAtHits(response: ByteString, limit: nat, n: nat)
    requires 0 < limit <= n <= |response| && n < limit + MAX_RECEIVE
    ensures Receives(CutAt(response, limit, n), response)
    ensures FirstBoundary(CutAt(response, limit, n), limit) == Some(n)
  {
    var head, piece, tail := Singles(response[..limit - 1]), response[limit - 1..n], Singles(response[n..]);
    FlattenSingles(response[..limit - 1]);
    FlattenSingles(response[n..]);
    InitLast(head, piece);
    FlattenAppend(head + [piece], tail);
    assert response[..limit - 1] + piece + response[n..] == response;
    NoBoundary(head, limit);
    assert FirstBoundary(head + [piece], limit) == Some(n);
    BoundaryStays(head + [piece], tail, limit);
  }

  lemma {:induction false} NoBoundary(pieces: seq<ByteString>, limit: nat)
    requires |Flatten(pieces)| < limit
    ensures FirstBoundary(pieces, limit) == None
  {
    if pieces != [] {
      NoBoundary(Init(pieces), limit);
    }
  }

  lemma {:induction false} BoundaryStays(a: seq<ByteString>, b: seq<ByteString>, limit: nat)
    requires FirstBoundary(a, limit).Some?
    ensures FirstBoundary(a + b, limit) == FirstBoundary(a, limit)
  {
    if b == [] {
      assert a + b == a;
    } else {
      BoundaryStays(a, Init(b), limit);
      assert Init(a + b) == a + Init(b);
    }
  }

  // ---------- the exact condition ----------

  /**
   The headers never complete within the limit, or they do with a receive to spare and no CRLFCRLF can
   arrive in the receive that completes an earlier LFLF.
   */
  predicate StableHeader(response: ByteString) {
    var n := Enough(response);
    var reach := if |response| < n + MAX_RECEIVE - 1 then |response| else n + MAX_RECEIVE - 1;
    var crlf := Complete(response, CRLFCRLF);
    n > MAX_HEADER || |response| < n
    || (reach <= MAX_HEADER && (crlf.None? || crlf.value == n || crlf.value > reach))
  }

  lemma ScanStable(response: ByteString, n: nat)
    requires StableHeader(response)
    requires Enough(response) <= n < Enough(response) + MAX_RECEIVE && n <= |response|
    ensures Scan(response[..n]) == Scan(response[..Enough(response)])
  {
    var first := Enough(response);
    FindPrefix(response, CRLFCRLF, n);
    FindPrefix(response, LFLF, n);
    FindPrefix(response, CRLFCRLF, first);
    FindPrefix(response, LFLF, first);
  }

  lemma StableIsInvariant(response: ByteString, pieces: seq<ByteString>)
    requires StableHeader(response) && Receives(pieces, response)
    ensures ReadHeader(pieces) == if |response| < Enough(response) then Reading(response)
                                  else Scan(response[..Enough(response)])
  {
    hide Scan, Enough, StableHeader;
    ReadHeaderStops(response, pieces);
    BoundaryNear(pieces, Enough(response));
    var stop := FirstBoundary(pieces, Enough(response));
    if stop.Some? {
      ScanStable(response, stop.value);
    }
  }

  /** Two boundaries an unstable response can be cut at, with different outcomes. */
  lemma Unstable(response: ByteString) returns (a: seq<ByteString>, b: seq<ByteString>)
    requires !StableHeader(response)
    ensures Receives(a, response) && Receives(b, response) && ReadHeader(a) != ReadHeader(b)
  {
    var n := Enough(response);
    var reach := if |response| < n + MAX_RECEIVE - 1 then |response| else n + MAX_RECEIVE - 1;
    var other := if reach > MAX_HEADER then reach else Complete(response, CRLFCRLF).value;
    a, b := CutAt(response, n, n), CutAt(response, n, other);
    CutAtHits(response, n, n);
    CutAtHits(response, n, other);
    ReadHeaderStops(response, a);
    ReadHeaderStops(response, b);
    ScansDiffer(response, n, other);
  }

  lemma ScansDiffer(response: ByteString, n: nat, other: nat)
    requires n == Enough(response) <= other <= |response| && n <= MAX_HEADER
    requires other > MAX_HEADER || (other != n && Complete(response, CRLFCRLF) == Some(other))
    ensures Scan(response[..n]) != Scan(response[..other])
  {
    FindPrefix(response, CRLFCRLF, n);
    FindPrefix(response, LFLF, n);
    FindPrefix(response, CRLFCRLF, other);
    FindPrefix(response, LFLF, other);
  }

  /** Where the headers end does not depend on the receives exactly when the response is stable. */
  lemma HeaderInvariantIff(response: ByteString)
    ensures (forall a, b :: Receives(a, response) && Receives(b, response) ==> ReadHeader(a) == ReadHeader(b))
       <==> StableHeader(response)
  {
    hide StableHeader, Scan, Enough, Receives;
    if StableHeader(response) {
      forall a, b | Receives(a, response) && Receives(b, response)
        ensures ReadHeader(a) == ReadHeader(b)
      {
        StableIsInvariant(response, a);
        StableIsInvariant(response, b);
      }
    } else {
      var a, b := Unstable(response);
    }
  }

  /** Headers that an LFLF ends, and nothing earlier; one line or many. */
  predicate LFHead(head: ByteString) {
    Find(head + LFLF, LFLF) == Some(|head|) && Find(head + LFLF, CRLFCRLF).None?
  }

  /** Such headers, then one event whose lines end in CRLF. */
  function MixedResponse(head: ByteString, event: ByteString): ByteString {
    head + LFLF + event + CRLFCRLF
  }

  lemma FirstIs(s: ByteString, pattern: ByteString, i: nat)
    requires pattern != [] && Occurs(s, pattern, i) && forall j: nat :: j < i ==> !Occurs(s, pattern, j)
    ensures Find(s, pattern) == Some(i)
  {
  }

  /** When such a response arrives at once its event is taken for headers; not so when the headers arrive first. */
  lemma MixedHeaderEnds(head: ByteString, event: ByteString)
    requires LFHead(head) && LF !in event && |MixedResponse(head, event)| <= MAX_RECEIVE
    ensures var response := MixedResponse(head, event);
            && ReadHeader([response]) == Found(|response| - 4, 4)
            && ReadHeader([head + LFLF, event + CRLFCRLF]) == Found(|head|, 2)
            && Receives([response], response) && Receives([head + LFLF, event + CRLFCRLF], response)
            && !StableHeader(response)
  {
    hide Scan, StableHeader;
    var response, first, second := MixedResponse(head, event), head + LFLF, event + CRLFCRLF;
    MixedScans(head, event);
    assert response == first + second;
    FlattenPair(first, second);
    ReadOne(response);
    ReadOne(first);
    InitLast([first], second);
    assert [first] + [second] == [first, second];
    if StableHeader(response) {
      StableIsInvariant(response, [response]);
      StableIsInvariant(response, [first, second]);
    }
  }

  lemma MixedScans(head: ByteString, event: ByteString)
    requires LFHead(head) && LF !in event && |MixedResponse(head, event)| <= MAX_RECEIVE
    ensures Scan(MixedResponse(head, event)) == Found(|MixedResponse(head, event)| - 4, 4)
    ensures Scan(head + LFLF) == Found(|head|, 2)
  {
    var response, first := MixedResponse(head, event), head + LFLF;
    var end := |response| - 4;
    assert response[end..end + 4] == CRLFCRLF;
    MixedHasNone(head, event);
    FirstIs(response, CRLFCRLF, end);
  }

  lemma FlattenPair(a: ByteString, b: ByteString)
    ensures Flatten([a]) == a && Flatten([a, b]) == a + b
  {
  }

  lemma ReadOne(piece: ByteString)
    ensures ReadHeader([piece]) == Scan(piece) && Flatten([piece]) == piece
  {
    assert Init([piece]) == [] && [] + piece == piece;
  }

  lemma MixedHasNone(head: ByteString, event: ByteString)
    requires LFHead(head) && LF !in event
    ensures var response := MixedResponse(head, event);
            forall j: nat :: j < |response| - 4 ==> !Occurs(response, CRLFCRLF, j)
  {
    var response, first, n := MixedResponse(head, event), head + LFLF, |head|;
    assert response[n] == LF && response[n + 1] == LF;
    forall j: nat | j < |response| - 4
      ensures !Occurs(response, CRLFCRLF, j)
    {
      var window := response[j..j + 4];
      assert window[0] == response[j] && window[1] == response[j + 1];
      assert window[2] == response[j + 2] && window[3] == response[j + 3];
      if j + 4 <= n + 2 {
        assert window == first[j..j + 4];
        assert !Occurs(first, CRLFCRLF, j);
      } else if n + 2 <= j + 1 < n + 2 + |event| {
        assert response[j + 1] == event[j + 1 - n - 2];
      } else if n + 2 <= j + 3 < n + 2 + |event| {
        assert response[j + 3] == event[j + 3 - n - 2];
      }
    }
  }

  /** No line is empty: no LF at the start, and none behind another. */
  predicate NoEmptyLine(s: ByteString) {
    forall i :: 0 <= i < |s| && s[i] == LF ==> i > 0 && s[i - 1] != LF
  }

  lemma {:induction false} LFLines(lines: seq<ByteString>)
    requires forall line :: line in lines ==> line != [] && LF !in line && CR !in line
    ensures NoEmptyLine(Unsplit(lines, LF)) && CR !in Unsplit(lines, LF)
  {
    if lines != [] {
      assert forall line :: line in Init(lines) ==> line in lines;
      LFLines(Init(lines));
      assert Last(lines) in lines;
      LFLine(Unsplit(Init(lines), LF), Last(lines));
    }
  }

  lemma LFLine(before: ByteString, line: ByteString)
    requires NoEmptyLine(before) && line != [] && LF !in line
    ensures NoEmptyLine(before + line + [LF])
  {
    var s, n := before + line + [LF], |before| + |line|;
    assert s[..|before|] == before && s[|before|..n] == line;
    assert forall k :: |before| <= k < n ==> s[k] == s[|before|..n][k - |before|] && s[k] in line;
    forall i | 0 <= i < |s| && s[i] == LF
      ensures i > 0 && s[i - 1] != LF
    {
      if i < |before| {
        assert s[i] == before[i];
      } else {
        assert i == n && s[i - 1] in line;
      }
    }
  }

  /** Non-empty header lines that end in LF are such headers, however many. */
  lemma LFLinesAreHead(lines: seq<ByteString>, head: ByteString)
    requires forall line :: line in lines ==> line != [] && LF !in line && CR !in line
    requires head + [LF] == Unsplit(lines, LF)
    ensures LFHead(head)
  {
    var s, all := Unsplit(lines, LF), head + LFLF;
    LFLines(lines);
    assert all == s + [LF];
    forall j: nat | j < |head|
      ensures !Occurs(all, LFLF, j)
    {
      assert all[j..j + 2] == [all[j], all[j + 1]];
      assert all[j] == s[j] && all[j + 1] == s[j + 1];
    }
    assert all[|head|..|head| + 2] == LFLF;
    FirstIs(all, LFLF, |head|);
    forall j: nat
      ensures !Occurs(all, CRLFCRLF, j)
    {
      assert CR !in all;
      assert j + 4 <= |all| ==> all[j..j + 4][0] == all[j] && all[j] in all;
    }
  }
}
