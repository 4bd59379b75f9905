/**
 Reconnecting. A server keeps a history of what it has to say and, on every attempt, replays what follows the
 item whose id the client sends. An attempt may end after any number of bytes, and the queue may refuse any
 event. Every event at or before the stored resume position has still been accepted.

 What the server promises is about the meaning of its bytes only: line endings, comments, heartbeats, the order
 of fields and the byte-order mark are its own business. Rendered histories are one way to keep the promise.
 */
module Replay {
  import opened Bytes
  import opened ParserModel
  import opened SseParser
  import opened StreamSpec
  import opened Delivery

  // ---------- what a stream says ----------

  /** What a block asks of the client: to take an event (here with the queue's yes), to resume behind an id, or both. */
  datatype Item = Item(message: Option<Action>, id: Option<ByteString>)

  const NOTHING := Item(None, None)

  function ItemOf(e: Env, block: seq<Line>): Item {
    if Poisoned(e, block) then NOTHING
    else
      Item(if Values(block, Data) != [] then Some(MessageOf(block, true)) else None,
           if LastValue(block, Id).Some? then Some(CStr(LastValue(block, Id).value)) else None)
  }

  /** The items of a stream's blocks; a block that says nothing, like a heartbeat, leaves none. */
  function Items(e: Env, blocks: seq<seq<Line>>): seq<Item> {
    if blocks == [] then []
    else
      var item := ItemOf(e, Last(blocks));
      if item == NOTHING then Items(e, Init(blocks)) else Items(e, Init(blocks)) + [item]
  }

  function Messages(items: seq<Item>): seq<Action> {
    if items == [] then []
    else if Last(items).message.Some? then Messages(Init(items)) + [Last(items).message.value]
    else Messages(Init(items))
  }

  lemma {:induction false} ItemsAppend(e: Env, a: seq<seq<Line>>, b: seq<seq<Line>>)
    ensures Items(e, a + b) == Items(e, a) + Items(e, b)
  {
    hide ItemOf;
    if b == [] {
      assert a + b == a;
    } else {
      ItemsAppend(e, a, Init(b));
      assert Init(a + b) == a + Init(b) && Last(a + b) == Last(b);
    }
  }

  lemma ItemsPrefix(e: Env, a: seq<seq<Line>>, b: seq<seq<Line>>)
    requires a <= b
    ensures Items(e, a) <= Items(e, b)
  {
    hide Items;
    assert b == a + b[|a|..];
    ItemsAppend(e, a, b[|a|..]);
  }

  /** The block an item stands for. */
  lemma {:induction false} ItemWitness(e: Env, blocks: seq<seq<Line>>, q: nat) returns (b: nat)
    requires q < |Items(e, blocks)|
    ensures b < |blocks| && |Items(e, blocks[..b])| == q && ItemOf(e, blocks[b]) == Items(e, blocks)[q]
  {
    hide ItemOf;
    var before := Init(blocks);
    assert blocks[..|before|] == before;
    if q < |Items(e, before)| {
      b := ItemWitness(e, before, q);
      assert before[..b] == blocks[..b];
    } else {
      b := |before|;
    }
  }

  /** A stream's messages are those of its deliverable blocks. */
  lemma {:induction false} MessagesAreDeliverables(e: Env, blocks: seq<seq<Line>>)
    ensures |Messages(Items(e, blocks))| == |Deliverables(e, blocks)|
  {
    hide Poisoned, MessageOf, CStr;
    if blocks != [] {
      MessagesAreDeliverables(e, Init(blocks));
      InitLast(Items(e, Init(blocks)), ItemOf(e, Last(blocks)));
    }
  }

  // ---------- the server ----------

  /** No two items share an id, and none is empty: an empty one is not sent. */
  ghost predicate DistinctIds(history: seq<Item>) {
    && (forall i :: 0 <= i < |history| ==> history[i].id != Some([]))
    && (forall i, j :: 0 <= i < j < |history| && history[i].id.Some? ==> history[i].id != history[j].id)
  }

  /** Where the server resumes for an id: behind the item that carries it, or at the beginning. */
  function PositionOf(history: seq<Item>, id: ByteString): (n: nat)
    ensures n <= |history|
  {
    if history == [] then 0
    else if Last(history).id == Some(id) then |history|
    else PositionOf(Init(history), id)
  }

  lemma {:induction false} PositionOfId(history: seq<Item>, i: nat, id: ByteString)
    requires DistinctIds(history) && i < |history| && history[i].id == Some(id)
    ensures PositionOf(history, id) == i + 1
  {
    if i < |history| - 1 {
      var before := Init(history);
      assert before[i] == history[i];
      assert DistinctIds(before) by {
        assert forall k :: 0 <= k < |before| ==> before[k] == history[k];
      }
      PositionOfId(before, i, id);
      assert history[i].id != history[|history| - 1].id;
    }
  }

  /** The received bytes say a first part of what follows the id. */
  ghost predicate Replays(e: Env, history: seq<Item>, id: ByteString, bytes: ByteString) {
    Items(e, Blocks(e, bytes).0) <= history[PositionOf(history, id)..]
  }

  // ---------- runs of attempts ----------

  /** What arrives in one attempt, and what is reported before and behind it. */
  datatype Attempt = Attempt(prelude: Log, bytes: ByteString, epilogue: Log)

  predicate QuietAttempt(attempt: Attempt) {
    Quiet(attempt.prelude) && Quiet(attempt.epilogue)
  }

  /** One attempt: a reset parser reads what arrives. */
  function AttemptLog(e: Env, log: Log, attempt: Attempt): Log {
    Feed(e, Reset(log + attempt.prelude), attempt.bytes).core.log + attempt.epilogue
  }

  function RunLog(e: Env, attempts: seq<Attempt>): Log {
    if attempts == [] then [] else AttemptLog(e, RunLog(e, Init(attempts)), Last(attempts))
  }

  /** Every attempt is answered with the replay of what follows the id stored by then. */
  ghost predicate ReplaysAll(e: Env, history: seq<Item>, initial: ByteString, attempts: seq<Attempt>) {
    forall i :: 0 <= i < |attempts| ==>
      && QuietAttempt(attempts[i])
      && Replays(e, history, Resume(initial, RunLog(e, attempts[..i])), attempts[i].bytes)
  }

  /** The place in the history that the stored resume position stands for. */
  function Progress(history: seq<Item>, initial: ByteString, log: Log): nat {
    PositionOf(history, Resume(initial, log))
  }

  /** The event of item j was offered in the attempt that made `after` of `before`, and the queue took it. */
  ghost predicate Delivered(history: seq<Item>, initial: ByteString, before: Log, after: Log, j: nat)
    requires j < |history| && history[j].message.Some?
  {
    var start := Progress(history, initial, before);
    && start <= j
    && var k := |Offers(before)| + |Messages(history[start..j])|;
       k < |Offers(after)| && Offers(after)[k] == history[j].message.value
  }

  lemma {:induction false} LastIdWitness(e: Env, blocks: seq<seq<Line>>) returns (i: nat)
    requires LastIdOf(e, blocks).Some?
    ensures i < |blocks| && !Poisoned(e, blocks[i]) && LastValue(blocks[i], Id) == LastIdOf(e, blocks)
  {
    hide Poisoned, LastValue;
    if !Poisoned(e, Last(blocks)) && LastValue(Last(blocks), Id).Some? {
      i := |blocks| - 1;
    } else {
      i := LastIdWitness(e, Init(blocks));
    }
  }

  /** A deliverable block among those completed before any refusal was accepted. */
  lemma AcceptedBefore(e: Env, pos: Position, blocks: seq<seq<Line>>, i: nat)
    requires !pos.dropped && i < BeforeRefusal(e, pos, blocks) && Deliverable(e, blocks[i])
    ensures var k, sound := |Deliverables(e, blocks[..i])|, Deliverables(e, blocks);
            k < |sound| && sound[k] == blocks[i] && Answers(e, pos, blocks)[k]
  {
    hide EndBlock, EndBlocks, Deliverable, MessageOf, BeforeRefusal;
    var n := BeforeRefusal(e, pos, blocks);
    BeforeRefusalNotDropped(e, pos, blocks);
    OffersAreDeliverables(e, pos, blocks[..n]);
    assert blocks == blocks[..n] + blocks[n..];
    DeliverablesAppend(e, blocks[..n], blocks[n..]);
    AnswersPrefix(e, pos, blocks, n);
    assert blocks[..n] == blocks[..i] + blocks[i..n];
    DeliverablesAppend(e, blocks[..i], blocks[i..n]);
    assert blocks[i..n] == [blocks[i]] + blocks[i + 1..n];
    DeliverablesAppend(e, [blocks[i]], blocks[i + 1..n]);
    assert Init([blocks[i]]) == [];
    assert Deliverables(e, [blocks[i]]) == [blocks[i]];
  }

  lemma {:induction false} BeforeRefusalNotDropped(e: Env, pos: Position, blocks: seq<seq<Line>>)
    requires !pos.dropped
    ensures !EndBlocks(e, pos, blocks[..BeforeRefusal(e, pos, blocks)]).dropped
  {
    if blocks != [] && EndBlocks(e, pos, blocks).dropped {
      BeforeRefusalNotDropped(e, pos, Init(blocks));
      var n := BeforeRefusal(e, pos, blocks);
      assert blocks[..n] == Init(blocks)[..n];
    } else {
      assert blocks[..|blocks|] == blocks;
    }
  }

  lemma {:induction false} AnswersPrefix(e: Env, pos: Position, blocks: seq<seq<Line>>, n: nat)
    requires n <= |blocks|
    ensures Answers(e, pos, blocks[..n]) <= Answers(e, pos, blocks)
  {
    hide EndBlock, Deliverable;
    if n < |blocks| {
      AnswersPrefix(e, pos, Init(blocks), n);
      assert blocks[..n] == Init(blocks)[..n];
    } else {
      assert blocks[..n] == blocks;
    }
  }

  /** What one attempt offers, and what it leaves stored, in terms of the blocks it completed. */
  lemma AttemptOutcome(e: Env, initial: ByteString, log: Log, attempt: Attempt)
    requires QuietAttempt(attempt)
    ensures var after, blocks := AttemptLog(e, log, attempt), Blocks(e, attempt.bytes).0;
            var pos := Position(None, false, log + attempt.prelude);
            && Offers(after) == Offers(log) + Announce(Deliverables(e, blocks), Answers(e, pos, blocks))
            && Resume(initial, after)
               == ResumeOf(Resume(initial, log), LastIdOf(e, blocks[..BeforeRefusal(e, pos, blocks)]))
  {
    hide Feed, Blocks, Resume, Offers, Announce, Answers, Deliverables, LastIdOf, ResumeOf, BeforeRefusal;
    QuietKeeps(initial, log, attempt.prelude);
    StreamOutcome(e, log + attempt.prelude, attempt.bytes, initial);
    QuietKeeps(initial, Feed(e, Reset(log + attempt.prelude), attempt.bytes).core.log, attempt.epilogue);
  }

  /** An item before the block that holds the stored id was accepted. */
  lemma AcceptedItem(e: Env, pos: Position, blocks: seq<seq<Line>>, i: nat, q: nat)
    requires !pos.dropped && i < BeforeRefusal(e, pos, blocks) && q < |Items(e, blocks[..i + 1])|
    requires Items(e, blocks[..i + 1])[q].message.Some?
    ensures Items(e, blocks[..i + 1]) <= Items(e, blocks)
    ensures var items, offers := Items(e, blocks), Announce(Deliverables(e, blocks), Answers(e, pos, blocks));
            var k := |Messages(items[..q])|;
            && k < |offers| && offers[k] == items[q].message.value
  {
    hide EndBlock, EndBlocks, MessageOf, BeforeRefusal, Poisoned, Values, LastValue, CStr, Answers;
    var seen := blocks[..i + 1];
    var b := ItemWitness(e, seen, q);
    assert seen[..b] == blocks[..b] && seen[b] == blocks[b];
    AcceptedBefore(e, pos, blocks, b);
    ItemsPrefix(e, seen, blocks);
    ItemsPrefix(e, blocks[..b], blocks);
    MessagesAreDeliverables(e, blocks[..b]);
    assert Items(e, blocks)[..q] == Items(e, blocks[..b]);
  }

  /** What one attempt does: it moves the resume position forward only over items it had accepted. */
  lemma AttemptAdvances(e: Env, history: seq<Item>, initial: ByteString, log: Log, attempt: Attempt)
    requires DistinctIds(history) && QuietAttempt(attempt)
    requires Replays(e, history, Resume(initial, log), attempt.bytes)
    ensures var after := AttemptLog(e, log, attempt);
            var start, end := Progress(history, initial, log), Progress(history, initial, after);
            && start <= end
            && forall j :: start <= j < end && history[j].message.Some? ==>
                 Delivered(history, initial, log, after, j)
  {
    hide EndBlock, MessageOf, Poisoned, AttemptLog, CStr, LastValue, Values, Resume, Offers, Blocks;
    hide Answers, Deliverables, BeforeRefusal, LastIdOf, Items, Announce, Messages;
    var after, blocks := AttemptLog(e, log, attempt), Blocks(e, attempt.bytes).0;
    var start := Progress(history, initial, log);
    var pos := Position(None, false, log + attempt.prelude);
    AttemptOutcome(e, initial, log, attempt);
    var sound := blocks[..BeforeRefusal(e, pos, blocks)];
    if LastIdOf(e, sound).Some? {
      var i := LastIdWitness(e, sound);
      var p := LastItem(e, blocks, i);
      assert history[start + p] == Items(e, blocks)[p];
      PositionOfId(history, start + p, Resume(initial, after));
      forall j | start <= j <= start + p && history[j].message.Some?
        ensures Delivered(history, initial, log, after, j)
      {
        assert Items(e, blocks)[j - start] == history[j];
        assert Items(e, blocks)[..j - start] == history[start..j];
        AcceptedItem(e, pos, blocks, i, j - start);
      }
    }
  }

  /** A sound block with an id is the last item of the stream up to it. */
  lemma LastItem(e: Env, blocks: seq<seq<Line>>, i: nat) returns (p: nat)
    requires i < |blocks| && !Poisoned(e, blocks[i]) && LastValue(blocks[i], Id).Some?
    ensures |Items(e, blocks[..i + 1])| == p + 1 && Items(e, blocks[..i + 1]) <= Items(e, blocks)
    ensures Items(e, blocks)[p].id == Some(CStr(LastValue(blocks[i], Id).value))
  {
    hide Poisoned, MessageOf, CStr, LastValue, Values;
    p := |Items(e, blocks[..i])|;
    assert Init(blocks[..i + 1]) == blocks[..i];
    ItemsPrefix(e, blocks[..i + 1], blocks);
  }

  lemma ReplaysLast(e: Env, history: seq<Item>, initial: ByteString, attempts: seq<Attempt>)
    requires ReplaysAll(e, history, initial, attempts) && attempts != []
    ensures var before, last := Init(attempts), Last(attempts);
            && ReplaysAll(e, history, initial, before)
            && QuietAttempt(last) && Replays(e, history, Resume(initial, RunLog(e, before)), last.bytes)
  {
    hide Replays, RunLog, QuietAttempt;
    var before := Init(attempts);
    assert attempts[..|before|] == before;
    assert forall i :: 0 <= i < |before| ==> before[..i] == attempts[..i] && before[i] == attempts[i];
  }

  /**
   At-least-once delivery, over any number of attempts, cuts and refusals: every event between the position
   the client started from and the one it has stored was accepted in some attempt.
   */
  lemma {:induction false} AtLeastOnce(e: Env, history: seq<Item>, initial: ByteString, attempts: seq<Attempt>, j: nat)
      returns (n: nat)
    requires DistinctIds(history) && ReplaysAll(e, history, initial, attempts)
    requires PositionOf(history, initial) <= j
    requires j < Progress(history, initial, RunLog(e, attempts))
    requires history[j].message.Some?
    ensures n < |attempts|
    ensures Delivered(history, initial, RunLog(e, attempts[..n]), RunLog(e, attempts[..n + 1]), j)
  {
    hide PositionOf, AttemptLog, Delivered, Replays, ReplaysAll;
    if attempts != [] {
      var before := Init(attempts);
      var log := RunLog(e, before);
      ReplaysLast(e, history, initial, attempts);
      AttemptAdvances(e, history, initial, log, Last(attempts));
      if j < Progress(history, initial, log) {
        n := AtLeastOnce(e, history, initial, before, j);
        assert before[..n] == attempts[..n] && before[..n + 1] == attempts[..n + 1];
      } else {
        n := |before|;
        assert attempts[..n] == before && attempts[..n + 1] == attempts;
      }
    }
  }

  // ---------- one way to keep the promise: rendered histories ----------

  /** One block as its raw lines, without the LF of each and without the blank line. */
  type Block = seq<ByteString>

  /** Lines hold no LF, are not blank, and do not start with a byte-order mark. */
  predicate PlainLine(e: Env, raw: ByteString) {
    LF !in raw && !(BOM <= raw) && Classify(e, raw, false) != Blank
  }

  predicate PlainBlock(e: Env, block: Block) {
    forall raw :: raw in block ==> PlainLine(e, raw)
  }

  predicate PlainHistory(e: Env, history: seq<Block>) {
    forall block :: block in history ==> PlainBlock(e, block)
  }

  /** A blank line, with or without its CR. */
  predicate BlankLine(e: Env, raw: ByteString) {
    raw == [] || (raw == [CR] && e.cap > 0)
  }

  /** One blank line for each block. */
  predicate BlankLines(e: Env, history: seq<Block>, blanks: seq<ByteString>) {
    |blanks| == |history| && forall blank :: blank in blanks ==> BlankLine(e, blank)
  }

  function Lines(history: seq<Block>, blanks: seq<ByteString>): seq<ByteString>
    requires |blanks| == |history|
  {
    if history == [] then [] else Lines(Init(history), Init(blanks)) + Last(history) + [Last(blanks)]
  }

  function RenderWith(history: seq<Block>, blanks: seq<ByteString>): ByteString
    requires |blanks| == |history|
  {
    Unsplit(Lines(history, blanks), LF)
  }

  function BareBlanks(history: seq<Block>): (blanks: seq<ByteString>)
    ensures |blanks| == |history|
    ensures forall blank :: blank in blanks ==> blank == []
  {
    seq(|history|, i => [])
  }

  /** Every blank line a bare LF. */
  function Render(history: seq<Block>): ByteString {
    RenderWith(history, BareBlanks(history))
  }

  function Meaning(e: Env, block: Block): seq<Line> {
    seq(|block|, i requires 0 <= i < |block| => Classify(e, block[i], false))
  }

  function Meanings(e: Env, history: seq<Block>): (r: seq<seq<Line>>)
    ensures |r| == |history|
  {
    seq(|history|, i requires 0 <= i < |history| => Meaning(e, history[i]))
  }

  lemma {:induction false} ClassifyBlock(e: Env, raws: seq<ByteString>, block: Block)
    requires PlainBlock(e, block)
    ensures ClassifyAll(e, raws + block) == ClassifyAll(e, raws) + Meaning(e, block)
  {
    hide Classify;
    if block == [] {
      assert raws + block == raws;
    } else {
      var before := Init(block);
      assert PlainBlock(e, before) by {
        assert forall raw :: raw in before ==> raw in block;
      }
      ClassifyBlock(e, raws, before);
      assert Init(raws + block) == raws + before && Last(raws + block) == Last(block);
      assert Last(block) in block && PlainLine(e, Last(block));
      PlainLineAnywhere(e, Last(block), BomPending(e, raws + before));
      assert Meaning(e, block) == Meaning(e, before) + [Classify(e, Last(block), false)];
    }
  }

  lemma PlainLineAnywhere(e: Env, raw: ByteString, first: bool)
    ensures raw == [] || !(BOM <= raw) ==> Classify(e, raw, first) == Classify(e, raw, false)
    ensures BlankLine(e, raw) ==> Classify(e, raw, first) == Blank && LF !in raw
  {
    assert Init([CR]) == [];
  }

  lemma {:induction false} ClassifyHistory(e: Env, history: seq<Block>, blanks: seq<ByteString>)
    requires PlainHistory(e, history) && BlankLines(e, history, blanks)
    ensures ClassifyAll(e, Lines(history, blanks)) == Unsplit(Meanings(e, history), Blank)
  {
    hide Classify, Meaning, BlankLine;
    if history != [] {
      var before, block := Init(history), Last(history);
      assert PlainHistory(e, before) && PlainBlock(e, block) by {
        assert forall b :: b in before ==> b in history;
        assert block in history;
      }
      assert forall blank :: blank in Init(blanks) ==> blank in blanks;
      ClassifyHistory(e, before, Init(blanks));
      ClassifyBlock(e, Lines(before, Init(blanks)), block);
      var raws := Lines(before, Init(blanks)) + block;
      InitLast(raws, Last(blanks));
      assert Last(blanks) in blanks;
      PlainLineAnywhere(e, Last(blanks), BomPending(e, raws));
      assert Meanings(e, history) == Meanings(e, before) + [Meaning(e, block)];
      InitLast(Meanings(e, before), Meaning(e, block));
    }
  }

  lemma {:induction false} LinesPlain(e: Env, history: seq<Block>, blanks: seq<ByteString>)
    requires PlainHistory(e, history) && BlankLines(e, history, blanks)
    ensures forall raw :: raw in Lines(history, blanks) ==> LF !in raw
  {
    if history != [] {
      assert forall block :: block in Init(history) ==> block in history;
      assert forall blank :: blank in Init(blanks) ==> blank in blanks;
      LinesPlain(e, Init(history), Init(blanks));
      assert Last(history) in history && Last(blanks) in blanks;
    }
  }

  lemma MeaningHasNoBlank(e: Env, history: seq<Block>)
    requires PlainHistory(e, history)
    ensures forall block :: block in Meanings(e, history) ==> Blank !in block
  {
    forall lines | lines in Meanings(e, history)
      ensures Blank !in lines
    {
      var i :| 0 <= i < |history| && lines == Meaning(e, history[i]);
      forall k | 0 <= k < |lines|
        ensures lines[k] != Blank
      {
        assert history[i] in history && PlainLine(e, history[i][k]);
      }
    }
  }

  /** A whole replay reads as its blocks, with nothing left over, whichever blank lines have a CR. */
  lemma WholeReplay(e: Env, history: seq<Block>, blanks: seq<ByteString>)
    requires PlainHistory(e, history) && BlankLines(e, history, blanks)
    ensures Blocks(e, RenderWith(history, blanks)) == (Meanings(e, history), [])
  {
    hide Classify, Meaning;
    var lines := Lines(history, blanks);
    LinesPlain(e, history, blanks);
    SplitUnsplit(lines, [], LF);
    assert RenderWith(history, blanks) + [] == RenderWith(history, blanks);
    ClassifyHistory(e, history, blanks);
    MeaningHasNoBlank(e, history);
    SplitUnsplit(Meanings(e, history), [], Blank);
    assert ClassifyAll(e, lines) + [] == ClassifyAll(e, lines);
  }

  /** However early a stream is cut off, the client completes some first part of its blocks. */
  lemma CutStream(e: Env, bytes: ByteString, cut: nat)
    requires cut <= |bytes|
    ensures Blocks(e, bytes[..cut]).0 <= Blocks(e, bytes).0
  {
    hide Classify, Split, ClassifyAll;
    var all := Split(bytes, LF).0;
    var raws := Split(bytes[..cut], LF).0;
    assert bytes == bytes[..cut] + bytes[cut..];
    SplitPrefix(bytes[..cut], bytes[cut..], LF);
    ClassifyPrefix(e, raws, all);
    var lines, seen := ClassifyAll(e, all), ClassifyAll(e, raws);
    assert lines == seen + lines[|seen|..];
    SplitPrefix(seen, lines[|seen|..], Blank);
  }

  /** A cut replay is one, too. */
  lemma ReplaysCut(e: Env, history: seq<Item>, id: ByteString, bytes: ByteString, cut: nat)
    requires cut <= |bytes| && Replays(e, history, id, bytes)
    ensures Replays(e, history, id, bytes[..cut])
  {
    hide Blocks, Items;
    CutStream(e, bytes, cut);
    ItemsPrefix(e, Blocks(e, bytes[..cut]).0, Blocks(e, bytes).0);
  }

  lemma {:induction false} ClassifyPrefix(e: Env, raws: seq<ByteString>, all: seq<ByteString>)
    requires raws <= all
    ensures ClassifyAll(e, raws) <= ClassifyAll(e, all)
    decreases |all|
  {
    if |raws| < |all| {
      ClassifyPrefix(e, raws, Init(all));
    } else {
      assert raws == all;
    }
  }

  /** What a history of raw blocks says. */
  function Said(e: Env, blocks: seq<Block>): seq<Item> {
    Items(e, Meanings(e, blocks))
  }

  /** Where a server that looks through its raw blocks resumes for an id. */
  function BlockPosition(e: Env, blocks: seq<Block>, id: ByteString): (n: nat)
    ensures n <= |blocks|
  {
    if blocks == [] then 0
    else if ItemOf(e, Meaning(e, Last(blocks))).id == Some(id) then |blocks|
    else BlockPosition(e, Init(blocks), id)
  }

  lemma {:induction false} PositionsAgree(e: Env, blocks: seq<Block>, id: ByteString)
    ensures PositionOf(Said(e, blocks), id) == |Said(e, blocks[..BlockPosition(e, blocks, id)])|
  {
    hide ItemOf, Meaning;
    if blocks != [] {
      var before, item := Init(blocks), ItemOf(e, Meaning(e, Last(blocks)));
      PositionsAgree(e, before, id);
      assert Meanings(e, blocks) == Meanings(e, before) + [Meaning(e, Last(blocks))];
      InitLast(Meanings(e, before), Meaning(e, Last(blocks)));
      InitLast(Said(e, before), item);
      assert blocks[..|blocks|] == blocks;
      assert before[..BlockPosition(e, before, id)] == blocks[..BlockPosition(e, before, id)];
    }
  }

  /** What arrives from a server that renders its raw blocks behind the id, and is cut off. */
  function Served(e: Env, blocks: seq<Block>, id: ByteString, blanks: seq<ByteString>, cut: nat): ByteString
    requires |blanks| == |blocks| - BlockPosition(e, blocks, id)
  {
    var bytes := RenderWith(blocks[BlockPosition(e, blocks, id)..], blanks);
    bytes[..if cut < |bytes| then cut else |bytes|]
  }

  /** Such a server keeps its promise, with heartbeats among its blocks, and with LF or CRLF as it likes. */
  lemma ServedReplays(e: Env, blocks: seq<Block>, id: ByteString, blanks: seq<ByteString>, cut: nat)
    requires PlainHistory(e, blocks)
    requires BlankLines(e, blocks[BlockPosition(e, blocks, id)..], blanks)
    ensures Replays(e, Said(e, blocks), id, Served(e, blocks, id, blanks, cut))
  {
    hide Blocks, Items, PlainBlock, Meaning, BlockPosition, RenderWith;
    var n := BlockPosition(e, blocks, id);
    var rest := blocks[n..];
    assert PlainHistory(e, rest) by {
      assert forall block :: block in rest ==> block in blocks;
    }
    WholeReplay(e, rest, blanks);
    PositionsAgree(e, blocks, id);
    assert Meanings(e, blocks) == Meanings(e, blocks[..n]) + Meanings(e, rest);
    ItemsAppend(e, Meanings(e, blocks[..n]), Meanings(e, rest));
    var bytes := RenderWith(rest, blanks);
    assert Replays(e, Said(e, blocks), id, bytes);
    ReplaysCut(e, Said(e, blocks), id, bytes, |Served(e, blocks, id, blanks, cut)|);
  }
}
