/** What a stream delivers: which events are offered, and which resume position is left behind. */
module Delivery {
  import opened Bytes
  import opened ParserModel
  import opened SseParser
  import opened StreamSpec

  // ---------- offered events ----------

  predicate Refused(a: Action) { a.Message? && !a.accepted }

  /** The events a log offers to the queue, in order. */
  function Offers(log: Log): seq<Action> {
    if log == [] then []
    else if Last(log).Message? then Offers(Init(log)) + [Last(log)]
    else Offers(Init(log))
  }

  lemma {:induction false} OffersAppend(a: Log, b: Log)
    ensures Offers(a + b) == Offers(a) + Offers(b)
  {
    if b == [] {
      assert a + b == a;
    } else {
      OffersAppend(a, Init(b));
      assert Init(a + b) == a + Init(b) && Last(a + b) == Last(b);
    }
  }

  function Deliverables(e: Env, blocks: seq<seq<Line>>): seq<seq<Line>> {
    if blocks == [] then []
    else if Deliverable(e, Last(blocks)) then Deliverables(e, Init(blocks)) + [Last(blocks)]
    else Deliverables(e, Init(blocks))
  }

  lemma {:induction false} DeliverablesAppend(e: Env, a: seq<seq<Line>>, b: seq<seq<Line>>)
    ensures Deliverables(e, a + b) == Deliverables(e, a) + Deliverables(e, b)
  {
    if b == [] {
      assert a + b == a;
    } else {
      DeliverablesAppend(e, a, Init(b));
      assert Init(a + b) == a + Init(b) && Last(a + b) == Last(b);
    }
  }

  /** Nothing is committed or offered while a block is still being read. */
  predicate Quiet(log: Log) {
    forall a :: a in log ==> !a.Message? && !a.Commit?
  }

  lemma {:induction false} ImmediateQuiet(e: Env, block: seq<Line>)
    ensures Quiet(Immediate(e, block))
  {
    if block != [] {
      ImmediateQuiet(e, Init(block));
    }
  }

  lemma {:induction false} QuietKeeps(initial: ByteString, log: Log, quiet: Log)
    requires Quiet(quiet)
    ensures Resume(initial, log + quiet) == Resume(initial, log)
    ensures Offers(log + quiet) == Offers(log)
  {
    if quiet == [] {
      assert log + quiet == log;
    } else {
      assert Quiet(Init(quiet)) by {
        assert forall a :: a in Init(quiet) ==> a in quiet;
      }
      QuietKeeps(initial, log, Init(quiet));
      assert Init(log + quiet) == log + Init(quiet) && Last(log + quiet) == Last(quiet);
      assert Last(quiet) in quiet;
    }
  }

  /** The queue's answers to the events of a stream. */
  function Answers(e: Env, pos: Position, blocks: seq<seq<Line>>): (answers: seq<bool>)
    ensures |answers| == |Deliverables(e, blocks)|
  {
    if blocks == [] then []
    else
      var before := Answers(e, pos, Init(blocks));
      if Deliverable(e, Last(blocks)) then
        before + [e.accept(EndBlocks(e, pos, Init(blocks)).log + Immediate(e, Last(blocks)))]
      else before
  }

  function Announce(blocks: seq<seq<Line>>, answers: seq<bool>): seq<Action>
    requires |blocks| == |answers|
  {
    seq(|blocks|, k requires 0 <= k < |blocks| => MessageOf(blocks[k], answers[k]))
  }

  /** What one block adds to the log: quiet reports and at most one offer. */
  lemma BlockOffer(e: Env, pos: Position, block: seq<Line>)
    ensures var after := EndBlock(e, pos, block);
            var accepted := e.accept(pos.log + Immediate(e, block));
            && pos.log <= after.log
            && Offers(after.log)
               == Offers(pos.log) + (if Deliverable(e, block) then [MessageOf(block, accepted)] else [])
            && after.dropped == (pos.dropped || (Deliverable(e, block) && !accepted))
  {
    hide CStr, JoinLF, Values, LastValue, Poisoned, Immediate, Offers, Resume;
    var log := pos.log + Immediate(e, block);
    ImmediateQuiet(e, block);
    QuietKeeps([], pos.log, Immediate(e, block));
    var id := if LastValue(block, Id).Some? then LastValue(block, Id) else pos.lastId;
    var message := MessageOf(block, e.accept(log));
    OffersSnoc(log, message);
    if id.Some? {
      OffersSnoc(log, Commit(CStr(id.value)));
      OffersSnoc(log + [message], Commit(CStr(id.value)));
    }
  }

  lemma OffersSnoc(log: Log, a: Action)
    ensures Offers(log + [a]) == Offers(log) + if a.Message? then [a] else []
  {
  }

  /** A stream offers exactly its deliverable blocks, in order; it is dropped once one is refused. */
  lemma {:induction false} OffersAreDeliverables(e: Env, pos: Position, blocks: seq<seq<Line>>)
    requires !pos.dropped
    ensures var after := EndBlocks(e, pos, blocks);
            && pos.log <= after.log
            && Offers(after.log) == Offers(pos.log) + Announce(Deliverables(e, blocks), Answers(e, pos, blocks))
            && after.dropped == (false in Answers(e, pos, blocks))
  {
    hide EndBlock, MessageOf, Deliverable, Immediate;
    if blocks != [] {
      OffersAreDeliverables(e, pos, Init(blocks));
      BlockOffer(e, EndBlocks(e, pos, Init(blocks)), Last(blocks));
      var before, answers := Deliverables(e, Init(blocks)), Answers(e, pos, Init(blocks));
      if Deliverable(e, Last(blocks)) {
        var answer := Last(Answers(e, pos, blocks));
        assert Announce(before + [Last(blocks)], answers + [answer])
            == Announce(before, answers) + [MessageOf(Last(blocks), answer)];
      }
    }
  }

  // ---------- the resume position ----------

  /** The last id field of the sound blocks of a stream. */
  function LastIdOf(e: Env, blocks: seq<seq<Line>>): Option<ByteString> {
    if blocks == [] then None
    else if !Poisoned(e, Last(blocks)) && LastValue(Last(blocks), Id).Some? then LastValue(Last(blocks), Id)
    else LastIdOf(e, Init(blocks))
  }

  /** How many blocks a stream completed before the first refused event. */
  function BeforeRefusal(e: Env, pos: Position, blocks: seq<seq<Line>>): (n: nat)
    ensures n <= |blocks|
  {
    if blocks == [] then 0
    else if EndBlocks(e, pos, blocks).dropped then BeforeRefusal(e, pos, Init(blocks))
    else |blocks|
  }

  function ResumeOf(initial: ByteString, id: Option<ByteString>): ByteString {
    if id.Some? then CStr(id.value) else initial
  }

  lemma BlockResume(e: Env, pos: Position, block: seq<Line>, initial: ByteString, origin: ByteString)
    requires !pos.dropped ==> Resume(initial, pos.log) == ResumeOf(origin, pos.lastId)
    ensures var after := EndBlock(e, pos, block);
            Resume(initial, after.log)
            == if after.dropped then Resume(initial, pos.log) else ResumeOf(origin, after.lastId)
  {
    hide CStr, JoinLF, Values, LastValue, Poisoned, Immediate, Offers, Resume;
    var log := pos.log + Immediate(e, block);
    ImmediateQuiet(e, block);
    QuietKeeps(initial, pos.log, Immediate(e, block));
    var id := if LastValue(block, Id).Some? then LastValue(block, Id) else pos.lastId;
    var message := MessageOf(block, e.accept(log));
    ResumeSnoc(initial, log, message);
    if id.Some? {
      ResumeSnoc(initial, log, Commit(CStr(id.value)));
      ResumeSnoc(initial, log + [message], Commit(CStr(id.value)));
    }
  }

  lemma ResumeSnoc(initial: ByteString, log: Log, a: Action)
    ensures Resume(initial, log + [a]) == if a.Commit? then a.id else Resume(initial, log)
  {
    InitLast(log, a);
  }

  /** What a block does to the last id and to the freeze. */
  lemma BlockIds(e: Env, pos: Position, block: seq<Line>)
    ensures var after := EndBlock(e, pos, block);
            && (pos.dropped ==> after.dropped)
            && (!after.dropped ==>
                  after.lastId == if !Poisoned(e, block) && LastValue(block, Id).Some? then LastValue(block, Id)
                                  else pos.lastId)
  {
    hide CStr, MessageOf, Poisoned, Values;
  }

  /** The stored resume position is the last id of the sound blocks before the first refused event. */
  lemma {:induction false} ResumeExact(e: Env, pos: Position, blocks: seq<seq<Line>>, initial: ByteString)
    requires pos.lastId == None && !pos.dropped
    ensures var origin, k := Resume(initial, pos.log), BeforeRefusal(e, pos, blocks);
            && Resume(initial, EndBlocks(e, pos, blocks).log) == ResumeOf(origin, LastIdOf(e, blocks[..k]))
            && !EndBlocks(e, pos, blocks[..k]).dropped
            && EndBlocks(e, pos, blocks[..k]).lastId == LastIdOf(e, blocks[..k])
  {
    hide CStr, Resume, LastValue, Poisoned, EndBlock;
    if blocks != [] {
      var before := Init(blocks);
      BlockIds(e, EndBlocks(e, pos, before), Last(blocks));
      ResumeExact(e, pos, before, initial);
      BeforeRefusalAll(e, pos, before);
      assert before[..|before|] == before && blocks[..|blocks|] == blocks;
      BlockResume(e, EndBlocks(e, pos, before), Last(blocks), initial, Resume(initial, pos.log));
      var k := BeforeRefusal(e, pos, before);
      assert before[..k] == blocks[..k];
    }
  }

  lemma BeforeRefusalAll(e: Env, pos: Position, blocks: seq<seq<Line>>)
    requires !pos.dropped
    ensures !EndBlocks(e, pos, blocks).dropped ==> BeforeRefusal(e, pos, blocks) == |blocks|
  {
  }

  // ---------- commits ----------

  lemma QuietHasNoCommit(log: Log, quiet: Log, i: nat)
    requires Quiet(quiet)
    ensures |log| <= i < |log + quiet| ==> !(log + quiet)[i].Commit?
  {
  }

  lemma BlockCommit(e: Env, pos: Position, block: seq<Line>, i: nat)
    requires |pos.log| <= i < |EndBlock(e, pos, block).log| && EndBlock(e, pos, block).log[i].Commit?
    ensures var after := EndBlock(e, pos, block);
            && !Poisoned(e, block) && !after.dropped && after.lastId.Some?
            && after.log[i] == Commit(CStr(after.lastId.value))
  {
    hide CStr, JoinLF, Values;
    ImmediateQuiet(e, block);
    QuietHasNoCommit(pos.log, Immediate(e, block), i);
  }

  /** A commit comes from a sound block before any refusal, and carries the last id up to that block. */
  lemma {:induction false} CommitInBlock(e: Env, pos: Position, blocks: seq<seq<Line>>, i: nat) returns (n: nat)
    requires pos.lastId == None && !pos.dropped
    requires |pos.log| <= i < |EndBlocks(e, pos, blocks).log| && EndBlocks(e, pos, blocks).log[i].Commit?
    ensures 0 < n <= BeforeRefusal(e, pos, blocks)
    ensures |EndBlocks(e, pos, blocks[..n - 1]).log| <= i < |EndBlocks(e, pos, blocks[..n]).log|
    ensures !Poisoned(e, blocks[n - 1])
    ensures LastIdOf(e, blocks[..n]).Some?
    ensures EndBlocks(e, pos, blocks).log[i] == Commit(CStr(LastIdOf(e, blocks[..n]).value))
  {
    hide EndBlock, Poisoned, CStr, LastValue;
    var before := Init(blocks);
    OffersAreDeliverables(e, pos, before);
    BlockOffer(e, EndBlocks(e, pos, before), Last(blocks));
    assert blocks[..|blocks|] == blocks && before[..|before|] == before;
    if i < |EndBlocks(e, pos, before).log| {
      n := CommitInBlock(e, pos, before, i);
      BeforeRefusalGrows(e, pos, blocks);
      assert before[..n] == blocks[..n] && before[..n - 1] == blocks[..n - 1];
    } else {
      n := |blocks|;
      BlockCommit(e, EndBlocks(e, pos, before), Last(blocks), i);
      ResumeExact(e, pos, blocks, []);
      BeforeRefusalAll(e, pos, blocks);
    }
  }

  lemma BeforeRefusalGrows(e: Env, pos: Position, blocks: seq<seq<Line>>)
    requires !pos.dropped && blocks != []
    ensures BeforeRefusal(e, pos, Init(blocks)) <= BeforeRefusal(e, pos, blocks)
  {
  }

  /** Over any bytes fed to a reset parser, at block granularity: where each commit comes from. */
  lemma CommitDiscipline(e: Env, log: Log, bytes: ByteString, i: nat) returns (n: nat)
    requires |log| <= i < |Feed(e, Reset(log), bytes).core.log| && Feed(e, Reset(log), bytes).core.log[i].Commit?
    ensures var blocks, pos := Blocks(e, bytes).0, Position(None, false, log);
            && 0 < n <= BeforeRefusal(e, pos, blocks)
            && |EndBlocks(e, pos, blocks[..n - 1]).log| <= i < |EndBlocks(e, pos, blocks[..n]).log|
            && !Poisoned(e, blocks[n - 1])
            && LastIdOf(e, blocks[..n]).Some?
            && Feed(e, Reset(log), bytes).core.log[i] == Commit(CStr(LastIdOf(e, blocks[..n]).value))
  {
    hide EndBlock, Poisoned, CStr, LastValue, Feed, Blocks;
    Refinement(e, log, bytes);
    var (blocks, open) := Blocks(e, bytes);
    ImmediateQuiet(e, open);
    QuietHasNoCommit(EndBlocks(e, Position(None, false, log), blocks).log, Immediate(e, open), i);
    n := CommitInBlock(e, Position(None, false, log), blocks, i);
  }

  /** Over any bytes fed to a reset parser: the offers made, and the resume position left behind. */
  lemma StreamOutcome(e: Env, log: Log, bytes: ByteString, initial: ByteString)
    ensures var after, blocks := Feed(e, Reset(log), bytes).core.log, Blocks(e, bytes).0;
            var pos := Position(None, false, log);
            && Offers(after) == Offers(log) + Announce(Deliverables(e, blocks), Answers(e, pos, blocks))
            && Resume(initial, after)
               == ResumeOf(Resume(initial, log), LastIdOf(e, blocks[..BeforeRefusal(e, pos, blocks)]))
  {
    hide EndBlock, Poisoned, CStr, LastValue, Feed, Blocks;
    Refinement(e, log, bytes);
    var (blocks, open) := Blocks(e, bytes);
    var pos := Position(None, false, log);
    ImmediateQuiet(e, open);
    QuietKeeps(initial, EndBlocks(e, pos, blocks).log, Immediate(e, open));
    OffersAreDeliverables(e, pos, blocks);
    ResumeExact(e, pos, blocks, initial);
  }
}
