/**
 The most recent id field received, against the resume position that is stored, and the one that is sent. The
 first two are the same unless the block of that field is unfinished, poisoned, or not before the first refused
 event; the last two, unless the id is empty or cannot be sent.
 */
module RecentId {
  import opened Bytes
  import opened ParserModel
  import opened SseParser
  import opened StreamSpec
  import opened Delivery
  import opened Replay
  import opened RoundTrip
  import opened Worker
  import BlockedResume
  import Request

  /** The blocks of a stream, the unfinished one last. */
  function AllBlocks(e: Env, bytes: ByteString): seq<seq<Line>> {
    Blocks(e, bytes).0 + [Blocks(e, bytes).1]
  }

  /** The stream's last id field stands in block n. */
  predicate LastIn(blocks: seq<seq<Line>>, n: nat) {
    n < |blocks| && LastValue(blocks[n], Id).Some? && forall i :: n < i < |blocks| ==> LastValue(blocks[i], Id).None?
  }

  lemma {:induction false} BeforeRefusalPrefix(e: Env, pos: Position, blocks: seq<seq<Line>>, n: nat)
    requires !pos.dropped && n <= |blocks|
    ensures var k := BeforeRefusal(e, pos, blocks);
            BeforeRefusal(e, pos, blocks[..n]) == if n < k then n else k
  {
    hide EndBlock;
    if n < |blocks| {
      BeforeRefusalPrefix(e, pos, Init(blocks), n);
      assert Init(blocks)[..n] == blocks[..n];
      if EndBlocks(e, pos, Init(blocks)).dropped {
        DropStays(e, pos, blocks);
      }
      BeforeRefusalAll(e, pos, Init(blocks));
    } else {
      assert blocks[..n] == blocks;
    }
  }

  lemma DropStays(e: Env, pos: Position, blocks: seq<seq<Line>>)
    requires blocks != [] && EndBlocks(e, pos, Init(blocks)).dropped
    ensures EndBlocks(e, pos, blocks).dropped
  {
  }

  /** Blocks without an id field change nothing. */
  lemma {:induction false} LastIdSkips(e: Env, blocks: seq<seq<Line>>, n: nat)
    requires n <= |blocks| && forall i :: n <= i < |blocks| ==> LastValue(blocks[i], Id).None?
    ensures LastIdOf(e, blocks) == LastIdOf(e, blocks[..n])
  {
    hide LastValue, Poisoned;
    if n < |blocks| {
      LastIdSkips(e, Init(blocks), n);
      assert Init(blocks)[..n] == blocks[..n];
    } else {
      assert blocks[..n] == blocks;
    }
  }

  lemma LastIdWithin(e: Env, blocks: seq<seq<Line>>, open: seq<Line>, n: nat, k: nat)
    requires LastIn(blocks + [open], n) && k <= |blocks|
    ensures LastIdOf(e, blocks[..k])
         == if n < k && !Poisoned(e, blocks[n]) then LastValue(blocks[n], Id)
            else LastIdOf(e, blocks[..if n < k then n else k])
  {
    hide LastValue, Poisoned;
    if n < k {
      forall i | n + 1 <= i < k
        ensures LastValue(blocks[..k][i], Id).None?
      {
        assert (blocks + [open])[i] == blocks[i];
      }
      LastIdSkips(e, blocks[..k], n + 1);
      assert blocks[..k][..n + 1] == blocks[..n + 1] && Init(blocks[..n + 1]) == blocks[..n];
      assert (blocks + [open])[n] == blocks[n];
    }
  }

  /**
   What is stored after a stream whose last id field stands in block n: that id if the block is complete, sound
   and before the first refused event, and otherwise what was stored before the block.
   */
  lemma RecentIdStored(e: Env, log: Log, bytes: ByteString, initial: ByteString, n: nat)
    requires LastIn(AllBlocks(e, bytes), n)
    ensures var blocks, pos := Blocks(e, bytes).0, Position(None, false, log);
            var recent := RecentId(e, bytes, n);
            var before := Resume(initial, EndBlocks(e, pos, blocks[..n]).log);
            Resume(initial, Feed(e, Reset(log), bytes).core.log)
            == if n < BeforeRefusal(e, pos, blocks) && !Poisoned(e, blocks[n]) then recent else before
  {
    hide Feed, Blocks, EndBlock, EndBlocks, BeforeRefusal, LastIdOf, LastValue, Poisoned, CStr, Resume;
    var (blocks, open) := Blocks(e, bytes);
    var pos := Position(None, false, log);
    var k := BeforeRefusal(e, pos, blocks);
    StreamOutcome(e, log, bytes, initial);
    ResumeExact(e, pos, blocks[..n], initial);
    BeforeRefusalPrefix(e, pos, blocks, n);
    LastIdWithin(e, blocks, open, n, k);
    assert blocks[..n][..if n < k then n else k] == blocks[..if n < k then n else k];
    if n < k {
      assert AllBlocks(e, bytes)[n] == blocks[n];
    }
  }

  /**
   The most recent id field is the one stored if and only if its block is complete, sound and before the first
   refused event, or it repeats what was stored before that block.
   */
  lemma RecentIdStoredIff(e: Env, log: Log, bytes: ByteString, initial: ByteString, n: nat)
    requires LastIn(AllBlocks(e, bytes), n)
    ensures Resume(initial, Feed(e, Reset(log), bytes).core.log) == RecentId(e, bytes, n)
            <==> RecentIdKept(e, log, bytes, initial, n)
  {
    hide Feed, Blocks, EndBlocks, BeforeRefusal, LastValue, Poisoned, CStr, Resume;
    RecentIdStored(e, log, bytes, initial, n);
  }

  /** The value of the last id field, which stands in block n. */
  function RecentId(e: Env, bytes: ByteString, n: nat): ByteString
    requires LastIn(AllBlocks(e, bytes), n)
  {
    CStr(LastValue(AllBlocks(e, bytes)[n], Id).value)
  }

  predicate RecentIdKept(e: Env, log: Log, bytes: ByteString, initial: ByteString, n: nat)
    requires LastIn(AllBlocks(e, bytes), n)
  {
    var blocks, pos := Blocks(e, bytes).0, Position(None, false, log);
    || (n < BeforeRefusal(e, pos, blocks) && !Poisoned(e, blocks[n]))
    || Resume(initial, EndBlocks(e, pos, blocks[..n]).log) == RecentId(e, bytes, n)
  }

  // ---------- what is sent ----------

  /** The next request is sent, and carries the id behind the caller's headers. */
  predicate Sends(c: Config, log: Log, id: ByteString) {
    && Request.SentHeaders(c.headers, Resume(c.initialId, log))
       == c.headers + [Request.Header(Request.LAST_EVENT_ID, id)]
    && Sendable(c, log)
  }

  lemma SendsIff(c: Config, log: Log, id: ByteString)
    requires forall header :: header in c.headers ==> Request.ValidHeader(header)
    ensures Sends(c, log, id) <==> Resume(c.initialId, log) == id && id != [] && !Request.HasControlChars(id)
  {
    hide Resume, Request.HasControlChars, Request.ValidHeader;
    var stored := Resume(c.initialId, log);
    Request.SendableIff(c.headers, stored);
    if stored != [] {
      var sent := Request.SentHeaders(c.headers, stored);
      assert Last(sent) == Request.Header(Request.LAST_EVENT_ID, stored);
      InitLast(c.headers, Request.Header(Request.LAST_EVENT_ID, id));
    }
  }

  /**
   The most recent id field is what the next request sends if and only if it is the one stored, and it is not
   empty and holds neither a CR nor an LF. With a CR nothing is sent at all.
   */
  lemma RecentIdSentIff(e: Env, log: Log, bytes: ByteString, quiet: Log, c: Config, n: nat)
    requires LastIn(AllBlocks(e, bytes), n) && Quiet(quiet)
    requires forall header :: header in c.headers ==> Request.ValidHeader(header)
    ensures var recent := RecentId(e, bytes, n);
            Sends(c, Feed(e, Reset(log), bytes).core.log + quiet, recent)
            <==> RecentIdKept(e, log, bytes, c.initialId, n)
                 && recent != [] && !Request.HasControlChars(recent)
  {
    hide Feed, Sends, RecentId, RecentIdKept, Resume, Request.HasControlChars, Request.ValidHeader, LastIn;
    var after := Feed(e, Reset(log), bytes).core.log;
    QuietKeeps(c.initialId, after, quiet);
    RecentIdStoredIff(e, log, bytes, c.initialId, n);
    SendsIff(c, after + quiet, RecentId(e, bytes, n));
  }

  /** An id with a CR inside, in a complete and sound block: stored, and then no request is sent. */
  lemma RecentIdUnsent(e: Env, c: Config, id: ByteString)
    requires Printable(e, ID_KEY, id) && CR in id
    ensures var bytes := BlockedResume.IdStream(id);
            var after := Feed(e, Reset([]), bytes).core.log;
            && LastIn(AllBlocks(e, bytes), 0) && RecentId(e, bytes, 0) == id
            && RecentIdKept(e, [], bytes, c.initialId, 0)
            && Resume(c.initialId, after) == id && !Sendable(c, after)
  {
    hide Feed, Classify, Resume, Sendable, Printable, Blocks, BeforeRefusal, Poisoned, CStr;
    var bytes := BlockedResume.IdStream(id);
    BlockedResume.IdBlocks(e, id);
    assert AllBlocks(e, bytes) == [[Field(Id, id)], []];
    ValuesOne(Id, id, Id);
    assert LastValue([], Id) == None && LastValue([Field(Id, id)], Id) == Some(id);
    BlockedResume.IdBlockMeans(e, [], id);
    BlockedResume.IdStored(e, [], id, c.initialId);
    RecentIdStoredIff(e, [], bytes, c.initialId, 0);
    BlockedResume.NotSendable(c, Feed(e, Reset([]), bytes).core.log);
  }

  // ---------- a stream where they differ ----------

  /** "data: a" and "id: b", each in a block of its own. */
  const TWO_BLOCKS: seq<Block> := [[[100, 97, 116, 97, 58, 32, 97]], [[105, 100, 58, 32, 98]]]

  lemma TwoBlocksMean(e: Env)
    requires e.cap >= 7
    ensures PlainHistory(e, TWO_BLOCKS)
    ensures Meanings(e, TWO_BLOCKS) == [[Field(Data, [97])], [Field(Id, [98])]]
  {
    hide Classify, PlainLine;
    var data, id := FieldLine(DATA_KEY, [97]), FieldLine(ID_KEY, [98]);
    assert data == [100, 97, 116, 97, 58, 32, 97] && id == [105, 100, 58, 32, 98];
    assert TWO_BLOCKS == [[data], [id]];
    KeyNames();
    FieldLineReads(e, DATA_KEY, [97]);
    FieldLineReads(e, ID_KEY, [98]);
    assert Meaning(e, [data]) == [Field(Data, [97])] && Meaning(e, [id]) == [Field(Id, [98])];
    assert Meanings(e, [[data], [id]]) == [Meaning(e, [data]), Meaning(e, [id])];
  }

  lemma RefusedFirst(e: Env)
    requires e.cap >= 7 && !e.accept([])
    ensures var blocks, pos := [[Field(Data, [97])], [Field(Id, [98])]], Position(None, false, []);
            && BeforeRefusal(e, pos, blocks) == 0
            && LastIn(blocks + [[]], 1) && LastValue(blocks[1], Id) == Some([98])
  {
    hide CStr, Immediate;
    var data, id := [Field(Data, [97])], [Field(Id, [98])];
    var pos := Position(None, false, []);
    assert Init(data) == [] && Init(id) == [] && Init([data, id]) == [data] && Init([data]) == [];
    ValuesOne(Data, [97], Data);
    ValuesOne(Id, [98], Id);
    UnsplitOne([97 as byte], LF);
    FieldsSilent(e, data);
    assert EndBlocks(e, pos, [data]).dropped;
    DropStays(e, pos, [data, id]);
    assert ([data, id] + [[]])[2] == [] && Values([], Id) == [];
  }

  /** The event is refused, the id is received behind it, and what was stored before stays stored. */
  lemma RecentIdExample(e: Env, initial: ByteString)
    requires e.cap >= 7 && !e.accept([])
    ensures var bytes := Render(TWO_BLOCKS);
            && LastIn(AllBlocks(e, bytes), 1) && LastValue(AllBlocks(e, bytes)[1], Id) == Some([98])
            && Resume(initial, Feed(e, Reset([]), bytes).core.log) == initial
  {
    hide Feed, EndBlock, EndBlocks, LastIn, LastValue, Meanings, RenderWith, BeforeRefusal, Blocks;
    TwoBlocksMean(e);
    WholeReplay(e, TWO_BLOCKS, BareBlanks(TWO_BLOCKS));
    RefusedFirst(e);
    StreamOutcome(e, [], Render(TWO_BLOCKS), initial);
    assert Meanings(e, TWO_BLOCKS)[..0] == [];
  }
}
