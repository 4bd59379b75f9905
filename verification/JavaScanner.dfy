/**
 The Android client's line scanner: it looks for LF in a bounded window over a buffered source, hands each
 line that fits to the parser, and drops the rest of one that does not without losing what follows it.
 The source is a buffer over reads of any size; stopped may be set between any two polls of it.
 */
module JavaScanner {
  import opened Bytes
  import ParserModel
  import StreamSpec

  /** What the scanner tells the parser: processLine or poison. */
  datatype Report = Whole(line: ByteString) | TooLong

  /** The bytes received and not yet taken, in front of the reads that are still to come. */
  class BufferedSource {
    var buffer: ByteString
    var arrivals: seq<ByteString>

    ghost function Unread(): (all: ByteString)
      reads this
      ensures buffer <= all
      ensures arrivals == [] ==> all == buffer
    {
      buffer + Flatten(arrivals)
    }

    constructor (arrivals: seq<ByteString>)
      ensures Unread() == Flatten(arrivals)
    {
      this.buffer := [];
      this.arrivals := arrivals;
    }

    /** One more read into the buffer. */
    method Read()
      requires arrivals != []
      modifies this
      ensures Unread() == old(Unread())
      ensures arrivals == old(arrivals)[1..] && old(buffer) <= buffer
    {
      FlattenAppend([arrivals[0]], arrivals[1..]);
      FlattenOne(arrivals[0]);
      assert arrivals == [arrivals[0]] + arrivals[1..];
      buffer := buffer + arrivals[0];
      arrivals := arrivals[1..];
    }

    /** Where LF first stands among the first `to` bytes, reading on while it may still turn up there; else -1. */
    method IndexOfLF(to: nat) returns (at: int)
      modifies this
      ensures Unread() == old(Unread())
      ensures |arrivals| <= old(|arrivals|)
      ensures 0 <= at ==> at < to && at < |buffer| && at == IndexOf(Unread(), LF) < |Unread()|
      ensures at < 0 ==> LF !in buffer[..if to < |buffer| then to else |buffer|]
      ensures at < 0 ==> to <= |buffer| || arrivals == []
    {
      while true
        invariant Unread() == old(Unread()) && |arrivals| <= old(|arrivals|)
        decreases |arrivals|
      {
        var window := buffer[..if to < |buffer| then to else |buffer|];
        at := IndexOf(window, LF);
        if at < |window| {
          FirstIndex(Unread(), LF, at);
          return;
        }
        if to <= |buffer| || arrivals == [] {
          assert window[..at] == window;
          return -1;
        }
        Read();
      }
    }

    method Skip(n: nat)
      requires n <= |buffer|
      modifies this
      ensures Unread() == old(Unread())[n..] && arrivals == old(arrivals) && buffer == old(buffer)[n..]
    {
      buffer := buffer[n..];
    }

    /** Whether n bytes can be buffered, reading on as needed. */
    method Request(n: nat) returns (available: bool)
      modifies this
      ensures Unread() == old(Unread())
      ensures available <==> n <= |buffer|
      ensures !available ==> arrivals == []
      ensures n > old(|buffer|) && available ==> |arrivals| < old(|arrivals|)
      ensures |arrivals| <= old(|arrivals|)
    {
      while |buffer| < n && arrivals != []
        invariant Unread() == old(Unread()) && |arrivals| <= old(|arrivals|)
        invariant |buffer| > old(|buffer|) ==> |arrivals| < old(|arrivals|)
        decreases |arrivals|
      {
        Read();
      }
      available := n <= |buffer|;
    }
  }

  // ---------- what a stream should be reported as ----------

  function ReportLine(line: ByteString, max: nat): Report {
    if |line| < max then Whole(line) else TooLong
  }

  function ReportLines(lines: seq<ByteString>, max: nat): (reports: seq<Report>)
    ensures |reports| == |lines|
    ensures forall i :: 0 <= i < |lines| ==> reports[i] == ReportLine(lines[i], max)
  {
    if lines == [] then [] else ReportLines(Init(lines), max) + [ReportLine(Last(lines), max)]
  }

  /** Every line LF ended, and the unended one only once it is too long. */
  function Scan(content: ByteString, max: nat): seq<Report> {
    var (lines, rest) := Split(content, LF);
    ReportLines(lines, max) + if |rest| < max then [] else [TooLong]
  }

  /** What follows the first LF; nothing if there is none. */
  function AfterLine(content: ByteString): ByteString {
    var i := IndexOf(content, LF);
    if i < |content| then content[i + 1..] else []
  }

  lemma ReportFirst(line: ByteString, lines: seq<ByteString>, max: nat)
    ensures ReportLines([line] + lines, max) == [ReportLine(line, max)] + ReportLines(lines, max)
  {
  }

  lemma ScanLine(content: ByteString, max: nat)
    requires IndexOf(content, LF) < |content|
    ensures Scan(content, max)
         == [ReportLine(content[..IndexOf(content, LF)], max)] + Scan(AfterLine(content), max)
  {
    hide Split, IndexOf, ReportLines, ReportLine;
    SplitFirst(content, LF);
    var line := content[..IndexOf(content, LF)];
    var (lines, rest) := Split(AfterLine(content), LF);
    ReportFirst(line, lines, max);
    assert AfterLine(content) == content[IndexOf(content, LF) + 1..];
    AppendAssociates([ReportLine(line, max)], ReportLines(lines, max), if |rest| < max then [] else [TooLong]);
  }

  lemma ScanTooLong(content: ByteString, max: nat)
    requires 0 < max <= |content| && LF !in content[..max]
    ensures Scan(content, max) == [TooLong] + Scan(AfterLine(content), max)
  {
    hide Split, Scan;
    var i := IndexOf(content, LF);
    if i < |content| {
      NotBefore(content, LF, max);
      ScanLine(content, max);
    } else {
      ScanRest(content, max);
      ScanRest([], max);
    }
  }

  lemma ScanRest(content: ByteString, max: nat)
    requires IndexOf(content, LF) == |content|
    ensures Scan(content, max) == if |content| < max then [] else [TooLong]
  {
    SplitNone(content, LF);
  }

  lemma AfterSkip(content: ByteString, n: nat)
    requires n <= |content| && LF !in content[..n]
    ensures AfterLine(content[n..]) == AfterLine(content)
  {
  }

  // ---------- the scanner ----------

  class Scanner {
    const max: nat
    const stopped: nat -> bool   // what the n-th poll of the flag answers
    const source: BufferedSource
    var polls: nat
    var reports: seq<Report>

    constructor (source: BufferedSource, max: nat, stopped: nat -> bool)
      ensures this.source == source && this.max == max && this.stopped == stopped
      ensures polls == 0 && reports == []
    {
      this.source := source;
      this.max := max;
      this.stopped := stopped;
      polls, reports := 0, [];
    }

    /**
     Unless it is stopped, exactly the lines of the stream are reported, however the source buffers it;
     stopped, a first part of them.
     */
    method ReadStream()
      requires max > 0
      modifies this, source
      ensures reports <= old(reports) + Scan(old(source.Unread()), max)
      ensures stopped(polls) || reports == old(reports) + Scan(old(source.Unread()), max)
    {
      hide Scan, AfterLine, Flatten;
      ghost var all := reports + Scan(source.Unread(), max);
      while !stopped(polls)
        invariant reports + Scan(source.Unread(), max) == all
        decreases |source.Unread()|, |source.arrivals|
      {
        polls := polls + 1;
        ghost var content := source.Unread();
        var newline := source.IndexOfLF(max);
        if newline >= 0 {
          ScanLine(content, max);
          AfterLineAt(content);
          var line := source.buffer[..newline];
          assert line == content[..newline];
          source.Skip(newline);
          source.Skip(1);
          assert source.Unread() == content[newline + 1..];
          reports := reports + [Whole(line)];
        } else if |source.buffer| >= max {
          ScanTooLong(content, max);
          reports := reports + [TooLong];
          var found := SkipUntilNewline();
          if !found {
            ScanTail([], max);
            break;
          }
        } else {
          var more := source.Request(|source.buffer| + 1);
          if !more {
            ScanTail(content, max);
            break;
          }
        }
      }
    }

    /** Drops the rest of the line and its LF, and nothing behind it. */
    method SkipUntilNewline() returns (found: bool)
      requires max > 0
      modifies this`polls, source
      ensures found ==> source.Unread() == AfterLine(old(source.Unread()))
      ensures found ==> |source.Unread()| < old(|source.Unread()|)
      ensures !found ==> stopped(polls) || AfterLine(old(source.Unread())) == []
    {
      hide AfterLine, Flatten;
      ghost var after := AfterLine(source.Unread());
      while !stopped(polls)
        invariant AfterLine(source.Unread()) == after
        invariant |source.Unread()| <= old(|source.Unread()|)
        decreases |source.Unread()|, |source.arrivals|
      {
        polls := polls + 1;
        ghost var content := source.Unread();
        var newline := source.IndexOfLF(max);
        if newline >= 0 {
          AfterLineAt(content);
          source.Skip(newline + 1);
          return true;
        }
        var skipped := if |source.buffer| < max then |source.buffer| else max;
        AfterSkip(content, skipped);
        if |source.buffer| > 0 {
          source.Skip(skipped);
        }
        var more := source.Request(1);
        if !more {
          AfterNothing();
          return false;
        }
      }
      return false;
    }
  }

  lemma AfterLineAt(content: ByteString)
    requires IndexOf(content, LF) < |content|
    ensures AfterLine(content) == content[IndexOf(content, LF) + 1..]
  {
  }

  lemma AfterNothing()
    ensures AfterLine([]) == []
  {
  }

  /** An unended line that fits is dropped. */
  lemma ScanTail(content: ByteString, max: nat)
    requires LF !in content && |content| < max
    ensures Scan(content, max) == []
  {
  }

  // ---------- the two scanners ----------

  /** Where the two line limits part: at a length of exactly the limit. */
  predicate AtLimit(e: ParserModel.Env, line: ByteString) {
    |line| == e.cap
  }

  /**
   With the same limit, the two clients find the same lines of a stream too long, the unended one included, if
   and only if no line has exactly the limit's length.
   */
  lemma LimitsAgreeIff(e: ParserModel.Env, content: ByteString)
    ensures var (lines, rest) := Split(content, LF);
            var reports, native := Scan(content, e.cap), StreamSpec.ClassifyAll(e, lines);
            (&& (forall i :: 0 <= i < |lines| ==> (reports[i] == TooLong <==> native[i] == StreamSpec.TooLong))
             && (|reports| > |lines| <==> |rest| > e.cap))
            <==> !AtLimit(e, rest) && forall line :: line in lines ==> !AtLimit(e, line)
  {
    hide Split;
    var (lines, rest) := Split(content, LF);
    NativeTooLong(e, lines);
    var reports, native := Scan(content, e.cap), StreamSpec.ClassifyAll(e, lines);
    forall i | 0 <= i < |lines|
      ensures reports[i] == ReportLine(lines[i], e.cap)
      ensures (reports[i] == TooLong <==> native[i] == StreamSpec.TooLong) <==> !AtLimit(e, lines[i])
    {
    }
    if forall line :: line in lines ==> !AtLimit(e, line) {
      assert forall i :: 0 <= i < |lines| ==> lines[i] in lines;
    }
  }

  lemma {:induction false} NativeTooLong(e: ParserModel.Env, lines: seq<ByteString>)
    ensures forall i :: 0 <= i < |lines| ==>
              (StreamSpec.ClassifyAll(e, lines)[i] == StreamSpec.TooLong <==> |lines[i]| > e.cap)
  {
    hide ParserModel.LineText, ParserModel.FieldOf;
    if lines != [] {
      NativeTooLong(e, Init(lines));
    }
  }

  /** A comment of exactly the limit's length: poison here, nothing at all there. */
  lemma LimitExample(e: ParserModel.Env, comment: ByteString)
    requires |comment| == e.cap > 0 && comment[0] == COLON && LF !in comment
    ensures Scan(comment + [LF], e.cap) == [TooLong]
    ensures ParserModel.Feed(e, ParserModel.Reset([]), comment + [LF]).core.log == []
  {
    hide Split, StreamSpec.Classify, StreamSpec.ClassifyAll, StreamSpec.Immediate, ParserModel.Feed;
    UnsplitOne(comment, LF);
    assert Unsplit([comment], LF) + [] == comment + [LF];
    SplitUnsplit([comment], [], LF);
    CommentOnly(e, comment);
    assert Unsplit([], StreamSpec.Blank) + [StreamSpec.Comment] == [StreamSpec.Comment];
    SplitUnsplit([], [StreamSpec.Comment], StreamSpec.Blank);
    StreamSpec.Refinement(e, [], comment + [LF]);
    assert Init([comment]) == [];
  }

  lemma CommentOnly(e: ParserModel.Env, comment: ByteString)
    requires 0 < |comment| <= e.cap && comment[0] == COLON
    ensures StreamSpec.ClassifyAll(e, [comment]) == [StreamSpec.Comment]
    ensures StreamSpec.Immediate(e, [StreamSpec.Comment]) == []
  {
    hide ParserModel.FieldOf;
    assert Init([comment]) == [] && Init([StreamSpec.Comment]) == [];
    assert StreamSpec.Classify(e, comment, true) == StreamSpec.Comment;
  }
}
