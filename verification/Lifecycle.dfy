/**
 Connections, their callbacks and the flush of the queue, as steps in any order: pushes by any thread at any
 time; a flush that dispatches one item after another; and, while a callback runs or none does, the script
 connecting and disconnecting as it likes.
 */
module Lifecycle {
  import opened Bytes
  import opened EventQueue

  const INT32_MAX := 0x7fff_ffff

  datatype Connection = Connection(userClosed: bool, dispatching: bool, destroyAfterDispatch: bool, attached: bool)

  /** What a flush hands to the dispatcher. */
  datatype Item = Queued(event: Event) | Overflow(of: int)

  function HandleOf(item: Item): int {
    if item.Queued? then item.event.handle else item.of
  }

  datatype State = State(
    capacity: nat,
    active: bool,
    nextHandle: int,
    connections: map<int, Connection>,
    queue: Buffer,
    pending: seq<Item>,           // swapped out by the flush, not yet dispatched
    inCallback: Option<int>,      // whose callback is running
    // history
    created: set<int>,
    destroyed: seq<int>,
    closed: set<int>,             // handles sse.disconnect was called with
    started: seq<int>,            // callbacks started
    handed: seq<Item>,            // items handed to the dispatcher
    windows: seq<seq<Event>>,     // pushes of each flushed window
    window: seq<Event>            // pushes since the last flush
  )

  function Start(capacity: nat): State {
    State(capacity, true, 1, map[], Buffer([], []), [], None, {}, [], {}, [], [], [], [])
  }

  datatype ConnectOutcome = Rejected | PlatformFailed | Connected

  datatype Step =
    | Push(event: Event)
    | BeginFlush
    | Dispatch(callbackValid: bool, setUp: bool)
    | Return
    | Connect(outcome: ConnectOutcome)
    | Disconnect(handle: int)
    | FinalizeOne(handle: int)    // the extension's teardown destroys what is left
    | Shutdown                    // the application's teardown drops what is still queued

  /** The script runs inside a callback, or outside of a flush. */
  predicate ScriptMayRun(s: State) {
    s.inCallback.Some? || s.pending == []
  }

  predicate Enabled(s: State, step: Step) {
    match step
    case Push(_) => true
    case BeginFlush => s.pending == [] && s.inCallback.None?
    case Dispatch(_, _) => s.pending != [] && s.inCallback.None?
    case Return => s.inCallback.Some?
    case Connect(_) => ScriptMayRun(s) && s.nextHandle < INT32_MAX
    case Disconnect(_) => ScriptMayRun(s)
    case FinalizeOne(h) => s.pending == [] && s.inCallback.None? && h in s.connections
    case Shutdown => s.pending == [] && s.inCallback.None? && s.connections == map[]
  }

  function Destroy(s: State, h: int): State {
    s.(connections := s.connections - {h}, destroyed := s.destroyed + [h])
  }

  function Items(b: Buffer): seq<Item> {
    seq(|b.events|, i requires 0 <= i < |b.events| => Queued(b.events[i]))
    + seq(|b.overflow|, i requires 0 <= i < |b.overflow| => Overflow(b.overflow[i]))
  }

  function DispatchItem(s: State, h: int, callbackValid: bool, setUp: bool): State {
    if h !in s.connections || s.connections[h].userClosed then s
    else if !callbackValid then Destroy(s, h)
    else s.(connections := s.connections[h := s.connections[h].(dispatching := true)],
            inCallback := Some(h),
            started := if setUp then s.started + [h] else s.started)
  }

  function ReturnFrom(s: State, h: int): State
    requires h in s.connections
  {
    var c := s.connections[h];
    var s := s.(connections := s.connections[h := c.(dispatching := false)], inCallback := None);
    if c.destroyAfterDispatch then Destroy(s, h) else s
  }

  function ConnectNew(s: State, outcome: ConnectOutcome): State {
    var h := s.nextHandle;
    var s := s.(nextHandle := h + 1, created := s.created + {h});
    if outcome.Connected? then
      s.(connections := s.connections[h := Connection(false, false, false, true)])
    else Destroy(s, h)
  }

  function DisconnectHandle(s: State, h: int): State {
    var s := if h < s.nextHandle then s.(closed := s.closed + {h}) else s;
    if h !in s.connections || s.connections[h].userClosed then s
    else
      var c := s.connections[h].(userClosed := true, attached := false);
      if c.dispatching then s.(connections := s.connections[h := c.(destroyAfterDispatch := true)])
      else Destroy(s, h)
  }

  function Apply(s: State, step: Step): State {
    match step
    case Push(event) =>
      if !s.active then s
      else s.(queue := PushTo(s.capacity, s.queue, event).0, window := s.window + [event])
    case BeginFlush =>
      s.(pending := Items(s.queue), queue := Buffer([], []), windows := s.windows + [s.window], window := [])
    case Dispatch(callbackValid, setUp) =>
      if s.pending == [] then s
      else
        var item := s.pending[0];
        DispatchItem(s.(pending := s.pending[1..], handed := s.handed + [item]), HandleOf(item), callbackValid, setUp)
    case Return =>
      if s.inCallback.Some? && s.inCallback.value in s.connections then ReturnFrom(s, s.inCallback.value) else s
    case Connect(outcome) => ConnectNew(s, outcome)
    case Disconnect(h) => DisconnectHandle(s, h)
    case FinalizeOne(h) => Destroy(s, h)
    case Shutdown => s.(active := false, queue := Buffer([], []), window := [])
  }

  predicate EnabledAll(s: State, steps: seq<Step>) {
    steps == [] || (EnabledAll(s, Init(steps)) && Enabled(Run(s, Init(steps)), Last(steps)))
  }

  function Run(s: State, steps: seq<Step>): State {
    if steps == [] then s else Apply(Run(s, Init(steps)), Last(steps))
  }

  // ---------- connections ----------

  function SeqSet(s: seq<int>): set<int> {
    set x | x in s
  }

  ghost predicate ConnectionInvariant(s: State) {
    && (forall h :: h in s.created || h in s.closed ==> h < s.nextHandle)
    && s.created == s.connections.Keys + SeqSet(s.destroyed)
    && s.connections.Keys !! SeqSet(s.destroyed)
    && Distinct(s.destroyed)
    && (s.inCallback.Some? ==> s.inCallback.value in s.connections)
    && (forall h :: h in s.connections ==>
          var c := s.connections[h];
          && (c.dispatching <==> s.inCallback == Some(h))
          && (c.userClosed ==> c.dispatching && !c.attached)
          && (c.userClosed <==> c.destroyAfterDispatch)
          && (h in s.closed <==> c.userClosed))
  }

  lemma InvariantAtStart(capacity: nat)
    ensures ConnectionInvariant(Start(capacity))
    ensures var s := Start(capacity);
            && s.capacity == capacity && s.active && s.nextHandle == 1 && s.connections == map[]
            && s.queue == Buffer([], []) && s.window == [] && s.started == []
  {
  }

  lemma DestroyKeeps(s: State, h: int)
    requires ConnectionInvariant(s) && h in s.connections && s.inCallback != Some(h)
    ensures ConnectionInvariant(Destroy(s, h))
  {
  }

  lemma ConnectKeeps(s: State, outcome: ConnectOutcome)
    requires ConnectionInvariant(s)
    ensures ConnectionInvariant(ConnectNew(s, outcome))
  {
  }

  lemma DisconnectKeeps(s: State, h: int)
    requires ConnectionInvariant(s)
    ensures ConnectionInvariant(DisconnectHandle(s, h))
  {
  }

  lemma ReturnKeeps(s: State, h: int)
    requires ConnectionInvariant(s) && s.inCallback == Some(h)
    ensures ConnectionInvariant(ReturnFrom(s, h))
  {
  }

  lemma DispatchKeeps(s: State, h: int, callbackValid: bool, setUp: bool)
    requires ConnectionInvariant(s) && s.inCallback == None
    ensures ConnectionInvariant(DispatchItem(s, h, callbackValid, setUp))
  {
  }

  lemma ConnectionStep(s: State, step: Step)
    requires ConnectionInvariant(s) && Enabled(s, step)
    ensures ConnectionInvariant(Apply(s, step))
  {
    match step
    case Connect(outcome) => ConnectKeeps(s, outcome);
    case Disconnect(h) => DisconnectKeeps(s, h);
    case FinalizeOne(h) => DestroyKeeps(s, h);
    case Return => ReturnKeeps(s, s.inCallback.value);
    case Dispatch(callbackValid, setUp) =>
      var item := s.pending[0];
      DispatchKeeps(s.(pending := s.pending[1..], handed := s.handed + [item]), HandleOf(item), callbackValid, setUp);
    case Push(_) =>
    case BeginFlush =>
    case Shutdown =>
  }

  lemma {:induction false} ConnectionRun(s: State, steps: seq<Step>)
    requires ConnectionInvariant(s) && EnabledAll(s, steps)
    ensures ConnectionInvariant(Run(s, steps))
  {
    hide ConnectionInvariant, Apply, Enabled;
    if steps != [] {
      ConnectionRun(s, Init(steps));
      ConnectionStep(Run(s, Init(steps)), Last(steps));
    }
  }

  /** One step starts no callback of a closed handle, and never reopens one. */
  lemma ClosedStep(s: State, step: Step, h: int)
    requires ConnectionInvariant(s) && Enabled(s, step) && h in s.closed
    ensures var after := Apply(s, step);
            && h in after.closed
            && s.started <= after.started
            && (forall i :: |s.started| <= i < |after.started| ==> after.started[i] != h)
  {
  }

  /**
   Once a handle has been disconnected, no callback of it is started again, whatever events and overflow
   notes for it are still in either side of the queue, and whatever any thread or callback does.
   */
  lemma {:induction false} DisconnectIsFinal(s: State, steps: seq<Step>, h: int)
    requires ConnectionInvariant(s) && EnabledAll(s, steps) && h in s.closed
    ensures var after := Run(s, steps);
            && h in after.closed
            && s.started <= after.started
            && forall i :: |s.started| <= i < |after.started| ==> after.started[i] != h
  {
    hide ConnectionInvariant, Apply, Enabled;
    if steps != [] {
      var before := Run(s, Init(steps));
      DisconnectIsFinal(s, Init(steps), h);
      ConnectionRun(s, Init(steps));
      ClosedStep(before, Last(steps), h);
      var after := Run(s, steps);
      forall i | |s.started| <= i < |after.started|
        ensures after.started[i] != h
      {
        if i < |before.started| {
          assert after.started[i] == before.started[i];
        }
      }
    }
  }

  /** From the start of the application: nothing for h is started behind a disconnect of h. */
  lemma NoCallbackAfterDisconnect(capacity: nat, before: seq<Step>, h: int, after: seq<Step>)
    requires EnabledAll(Start(capacity), before + [Disconnect(h)])
    requires h < Run(Start(capacity), before).nextHandle
    requires EnabledAll(Run(Start(capacity), before + [Disconnect(h)]), after)
    ensures var closing := Run(Start(capacity), before + [Disconnect(h)]);
            var s := Run(closing, after);
            && closing.started <= s.started
            && forall i :: |closing.started| <= i < |s.started| ==> s.started[i] != h
  {
    hide Apply, Enabled;
    var start := Start(capacity);
    InvariantAtStart(capacity);
    ConnectionRun(start, before + [Disconnect(h)]);
    InitLast(before, Disconnect(h));
    DisconnectCloses(Run(start, before), h);
    DisconnectIsFinal(Run(start, before + [Disconnect(h)]), after, h);
  }

  lemma DisconnectCloses(s: State, h: int)
    requires h < s.nextHandle
    ensures h in Apply(s, Disconnect(h)).closed
  {
  }

  lemma ClosedIgnores(s: State, h: int)
    requires ConnectionInvariant(s) && h in s.closed
    ensures DisconnectHandle(s, h) == s
  {
    assert s.closed + {h} == s.closed;
  }

  /**
   Once a handed-out handle has been disconnected, disconnecting it again changes nothing at any later point:
   in its own callback, in another one, in between flushes, or when it is long destroyed.
   */
  lemma DisconnectTwice(s: State, h: int, steps: seq<Step>)
    requires ConnectionInvariant(s) && h < s.nextHandle && Enabled(s, Disconnect(h))
    requires EnabledAll(Apply(s, Disconnect(h)), steps)
    ensures var after := Run(Apply(s, Disconnect(h)), steps);
            h in after.closed && Apply(after, Disconnect(h)) == after
  {
    var closing := Apply(s, Disconnect(h));
    ConnectionStep(s, Disconnect(h));
    DisconnectCloses(s, h);
    DisconnectIsFinal(closing, steps, h);
    ConnectionRun(closing, steps);
    ClosedIgnores(Run(closing, steps), h);
  }

  /**
   Over a whole run: every connection ever created is either alive or destroyed exactly once; one that
   was disconnected is destroyed unless its own callback is still running; none is destroyed while it runs.
   */
  lemma DestroyedOnce(capacity: nat, steps: seq<Step>)
    requires EnabledAll(Start(capacity), steps)
    ensures var s := Run(Start(capacity), steps);
            && Distinct(s.destroyed)
            && (forall h :: h in s.created <==> h in s.connections || h in s.destroyed)
            && (forall h :: h in s.destroyed ==> h !in s.connections)
            && (s.inCallback.Some? ==> s.inCallback.value in s.connections && s.inCallback.value !in s.destroyed)
            && (forall h :: h in s.closed && h in s.connections ==> s.inCallback == Some(h))
  {
    var start := Start(capacity);
    InvariantAtStart(capacity);
    ConnectionRun(start, steps);
    var s := Run(start, steps);
    assert forall h :: h in SeqSet(s.destroyed) <==> h in s.destroyed;
  }

  // ---------- events ----------

  function AllItems(capacity: nat, windows: seq<seq<Event>>): seq<Item> {
    if windows == [] then []
    else AllItems(capacity, Init(windows)) + Items(WindowResult(capacity, Last(windows)))
  }

  ghost predicate QueueInvariant(s: State) {
    && s.queue == WindowResult(s.capacity, s.window)
    && s.handed + s.pending == AllItems(s.capacity, s.windows)
  }

  lemma EmptyWindow(capacity: nat)
    ensures WindowResult(capacity, []) == Buffer([], [])
  {
  }

  lemma QueueStep(s: State, step: Step)
    requires QueueInvariant(s) && Enabled(s, step)
    ensures QueueInvariant(Apply(s, step)) && Apply(s, step).capacity == s.capacity
  {
    hide PushTo, WindowResult, Items;
    EmptyWindow(s.capacity);
    match step
    case Push(event) => PushExtendsWindow(s.capacity, s.window, event);
    case BeginFlush =>
      InitLast(s.windows, s.window);
      assert s.handed + Items(s.queue) == s.handed + s.pending + Items(s.queue);
    case Dispatch(_, _) =>
      assert s.handed + s.pending == (s.handed + [s.pending[0]]) + s.pending[1..];
    case Return =>
    case Connect(_) =>
    case Disconnect(_) =>
    case FinalizeOne(_) =>
    case Shutdown =>
  }

  /**
   Conservation over all flushes: what has been handed to the dispatcher, followed by what the current
   flush still holds, is for every flushed window its accepted events in order and then one note for
   each handle that lost an event; the queue holds exactly the result of the window that is still open.
   */
  lemma {:induction false} NothingLostOrRepeated(capacity: nat, steps: seq<Step>)
    requires EnabledAll(Start(capacity), steps)
    ensures var s := Run(Start(capacity), steps);
            && s.capacity == capacity
            && s.handed + s.pending == AllItems(capacity, s.windows)
            && s.queue == WindowResult(capacity, s.window)
  {
    hide Apply, Enabled;
    if steps == [] {
      assert AllItems(capacity, []) == [];
    } else {
      NothingLostOrRepeated(capacity, Init(steps));
      QueueStep(Run(Start(capacity), Init(steps)), Last(steps));
    }
  }

  // ---------- what reaches the script ----------

  /** The handle has a connection that the script has not disconnected. */
  predicate Open(s: State, h: int) {
    h in s.connections && h !in s.closed
  }

  /** A successful connect opens a handle that no connection ever had; a failed one leaves nothing behind. */
  lemma ConnectOpens(s: State, outcome: ConnectOutcome)
    requires ConnectionInvariant(s)
    ensures var h, after := s.nextHandle, Apply(s, Connect(outcome));
            && h !in s.created && after.created == s.created + {h} && after.nextHandle == h + 1
            && (outcome.Connected? ==> Open(after, h) && after.destroyed == s.destroyed)
            && (!outcome.Connected? ==> after.connections == s.connections && after.destroyed == s.destroyed + [h])
            && forall other :: other != h ==> Open(after, other) == Open(s, other)
  {
  }

  /**
   A dispatch starts exactly one callback, that of the item's handle, if the handle is open and its callback is
   valid and set up; otherwise none. An open handle whose callback is no longer valid loses its connection.
   */
  lemma DispatchStarts(s: State, callbackValid: bool, setUp: bool)
    requires ConnectionInvariant(s) && s.pending != [] && s.inCallback == None
    ensures var item, after := s.pending[0], Apply(s, Dispatch(callbackValid, setUp));
            var h := if item.Queued? then item.event.handle else item.of;
            && after.handed == s.handed + [item] && after.pending == s.pending[1..]
            && after.started == s.started + (if Open(s, h) && callbackValid && setUp then [h] else [])
            && after.inCallback == (if Open(s, h) && callbackValid then Some(h) else None)
            && after.connections.Keys == s.connections.Keys - (if Open(s, h) && !callbackValid then {h} else {})
            && after.destroyed == s.destroyed + (if Open(s, h) && !callbackValid then [h] else [])
  {
  }

  /** When a callback returns, its connection is destroyed exactly if it was disconnected meanwhile. */
  lemma ReturnDestroys(s: State)
    requires ConnectionInvariant(s) && s.inCallback.Some?
    ensures var h, after := s.inCallback.value, Apply(s, Return);
            && after.inCallback == None && after.started == s.started
            && (s.connections[h].userClosed ==> h !in after.connections && after.destroyed == s.destroyed + [h])
            && (!s.connections[h].userClosed ==> h in after.connections && after.destroyed == s.destroyed)
  {
  }

  lemma FinalizeDestroys(s: State, h: int)
    requires h in s.connections
    ensures var after := Apply(s, FinalizeOne(h));
            after.connections.Keys == s.connections.Keys - {h} && after.destroyed == s.destroyed + [h]
  {
  }

  /** After the application's teardown nothing is queued, and nothing ever will be. */
  lemma ShutdownStops(s: State, event: Event)
    ensures var after := Apply(s, Shutdown);
            after.queue == Buffer([], []) && Apply(after, Push(event)) == after
  {
  }

  /** No other step starts a callback. */
  lemma OnlyDispatchStarts(s: State, step: Step)
    requires !step.Dispatch?
    ensures Apply(s, step).started == s.started
  {
  }

  /** What may happen during a flush whose callbacks are sound and disconnect nothing. */
  predicate CalmStep(step: Step) {
    step.Push? || step.Connect? || step.Return? || step == Dispatch(true, true)
  }

  /** Those of some handles that are open, in order. */
  function OpenOnes(s: State, handles: seq<int>): seq<int> {
    if handles == [] then []
    else if Open(s, Last(handles)) then OpenOnes(s, Init(handles)) + [Last(handles)]
    else OpenOnes(s, Init(handles))
  }

  /** The handles of items, with the event's own handle for an event and the loser's for an overflow note. */
  function ItemHandles(items: seq<Item>): seq<int> {
    seq(|items|, i requires 0 <= i < |items| => if items[i].Queued? then items[i].event.handle else items[i].of)
  }

  /** After a calm run, the callbacks started are those of the handed items whose handle is open, in order. */
  lemma {:induction false} CalmRunStarts(s: State, steps: seq<Step>)
    requires ConnectionInvariant(s) && EnabledAll(s, steps)
    requires forall step :: step in steps ==> CalmStep(step)
    requires forall h :: h in ItemHandles(s.pending) ==> h < s.nextHandle
    ensures var after := Run(s, steps);
            && s.nextHandle <= after.nextHandle
            && (forall h :: h < s.nextHandle ==> Open(after, h) == Open(s, h))
            && s.handed <= after.handed && after.handed + after.pending == s.handed + s.pending
            && after.started == s.started + OpenOnes(s, ItemHandles(after.handed[|s.handed|..]))
  {
    hide ConnectionInvariant, Apply, Enabled, Open;
    if steps == [] {
      assert s.handed[|s.handed|..] == [] && ItemHandles([]) == [];
    } else {
      var before, step := Run(s, Init(steps)), Last(steps);
      assert step in steps && forall x :: x in Init(steps) ==> x in steps;
      CalmRunStarts(s, Init(steps));
      ConnectionRun(s, Init(steps));
      CalmStepStarts(s, before, step);
    }
  }

  lemma CalmStepStarts(s: State, before: State, step: Step)
    requires ConnectionInvariant(before) && Enabled(before, step) && CalmStep(step)
    requires forall h :: h in ItemHandles(s.pending) ==> h < s.nextHandle
    requires s.nextHandle <= before.nextHandle && forall h :: h < s.nextHandle ==> Open(before, h) == Open(s, h)
    requires s.handed <= before.handed && before.handed + before.pending == s.handed + s.pending
    requires before.started == s.started + OpenOnes(s, ItemHandles(before.handed[|s.handed|..]))
    ensures var after := Apply(before, step);
            && s.nextHandle <= after.nextHandle
            && (forall h :: h < s.nextHandle ==> Open(after, h) == Open(s, h))
            && s.handed <= after.handed && after.handed + after.pending == s.handed + s.pending
            && after.started == s.started + OpenOnes(s, ItemHandles(after.handed[|s.handed|..]))
  {
    hide ConnectionInvariant, Enabled, Apply, Open;
    CalmStepKeepsOpen(before, step);
    if step == Dispatch(true, true) {
      CanDispatch(before);
      CalmDispatch(s, before);
    } else {
      OnlyDispatchStarts(before, step);
      CalmStepKeepsItems(before, step);
    }
  }

  lemma CalmDispatch(s: State, before: State)
    requires ConnectionInvariant(before) && before.pending != [] && before.inCallback == None
    requires forall h :: h in ItemHandles(s.pending) ==> h < s.nextHandle
    requires forall h :: h < s.nextHandle ==> Open(before, h) == Open(s, h)
    requires s.handed <= before.handed && before.handed + before.pending == s.handed + s.pending
    requires before.started == s.started + OpenOnes(s, ItemHandles(before.handed[|s.handed|..]))
    ensures var after := Apply(before, Dispatch(true, true));
            && s.handed <= after.handed && after.handed + after.pending == s.handed + s.pending
            && after.started == s.started + OpenOnes(s, ItemHandles(after.handed[|s.handed|..]))
  {
    hide ConnectionInvariant, Apply, Open, OpenOnes;
    var item, rest := before.pending[0], before.pending[1..];
    var done, n := before.handed[|s.handed|..], |before.handed| - |s.handed|;
    DispatchStarts(before, true, true);
    NextItem(s.handed, s.pending, before.handed, before.pending);
    var h := ItemHandles(s.pending)[n];
    assert h in ItemHandles(s.pending);
    assert ItemHandles(done + [item]) == ItemHandles(done) + [h];
    OpenOnesSnoc(s, ItemHandles(done), h);
    assert (before.handed + [item])[|s.handed|..] == done + [item];
  }

  lemma NextItem(handed: seq<Item>, pending: seq<Item>, handedNow: seq<Item>, pendingNow: seq<Item>)
    requires handed <= handedNow && handedNow + pendingNow == handed + pending && pendingNow != []
    ensures var n := |handedNow| - |handed|; n < |pending| && pending[n] == pendingNow[0]
    ensures handed <= handedNow + [pendingNow[0]]
    ensures (handedNow + [pendingNow[0]]) + pendingNow[1..] == handed + pending
  {
    assert (handedNow + pendingNow)[|handedNow|] == pendingNow[0];
    assert (handed + pending)[|handedNow|] == pending[|handedNow| - |handed|];
  }

  lemma OpenOnesSnoc(s: State, handles: seq<int>, h: int)
    ensures OpenOnes(s, handles + [h]) == OpenOnes(s, handles) + if Open(s, h) then [h] else []
  {
    hide Open;
    InitLast(handles, h);
  }

  lemma CanDispatch(s: State)
    requires Enabled(s, Dispatch(true, true))
    ensures s.pending != [] && s.inCallback == None
  {
  }

  lemma CalmStepKeepsItems(s: State, step: Step)
    requires CalmStep(step) && !step.Dispatch?
    ensures Apply(s, step).handed == s.handed && Apply(s, step).pending == s.pending
  {
  }

  lemma CalmStepKeepsOpen(s: State, step: Step)
    requires ConnectionInvariant(s) && Enabled(s, step) && CalmStep(step)
    ensures var after := Apply(s, step);
            s.nextHandle <= after.nextHandle && forall h :: h < s.nextHandle ==> Open(after, h) == Open(s, h)
  {
  }

  /**
   A whole flush whose callbacks are sound and disconnect nothing starts, in order, one callback for each event
   of the flushed window and then one for each overflow note, if the handle is open.
   */
  lemma FlushDelivers(s: State, steps: seq<Step>)
    requires ConnectionInvariant(s) && Enabled(s, BeginFlush) && EnabledAll(Apply(s, BeginFlush), steps)
    requires forall step :: step in steps ==> CalmStep(step)
    requires Run(Apply(s, BeginFlush), steps).pending == []
    requires forall event :: event in s.queue.events ==> event.handle < s.nextHandle
    requires forall h :: h in s.queue.overflow ==> h < s.nextHandle
    ensures var b := s.queue;
            var handles := seq(|b.events|, i requires 0 <= i < |b.events| => b.events[i].handle) + b.overflow;
            Run(Apply(s, BeginFlush), steps).started == s.started + OpenOnes(s, handles)
  {
    hide ConnectionInvariant, EnabledAll, Run;
    var b, start := s.queue, Apply(s, BeginFlush);
    var handles := seq(|b.events|, i requires 0 <= i < |b.events| => b.events[i].handle) + b.overflow;
    assert ItemHandles(start.pending) == handles;
    forall h | h in handles
      ensures h < s.nextHandle
    {
      var i :| 0 <= i < |handles| && handles[i] == h;
      if i < |b.events| {
        assert b.events[i] in b.events;
      }
    }
    ConnectionStep(s, BeginFlush);
    CalmRunStarts(start, steps);
    var after := Run(start, steps);
    assert after.handed + [] == after.handed && after.handed == s.handed + start.pending;
    assert after.handed[|s.handed|..] == start.pending;
    OpenOnesSame(s, start, handles);
  }

  lemma {:induction false} OpenOnesSame(s: State, t: State, handles: seq<int>)
    requires forall h :: Open(s, h) == Open(t, h)
    ensures OpenOnes(s, handles) == OpenOnes(t, handles)
  {
    hide Open;
    if handles != [] {
      OpenOnesSame(s, t, Init(handles));
    }
  }

  /** One connection, one event, one flush: its callback is started. */
  lemma EventReachesScript(event: Event)
    requires event.handle == 1
    ensures var steps := [Connect(Connected), Push(event), BeginFlush, Dispatch(true, true)];
            && EnabledAll(Start(8), steps)
            && Run(Start(8), steps).started == [1] && Run(Start(8), steps).inCallback == Some(1)
  {
    hide Apply, Enabled;
    var s0 := Start(8);
    var s1 := Apply(s0, Connect(Connected));
    var s2 := Apply(s1, Push(event));
    var s3 := Apply(s2, BeginFlush);
    FirstEvent(event);
    RunFour(s0, Connect(Connected), Push(event), BeginFlush, Dispatch(true, true));
  }

  lemma FirstEvent(event: Event)
    requires event.handle == 1
    ensures var s0 := Start(8);
            var s1 := Apply(s0, Connect(Connected));
            var s2 := Apply(s1, Push(event));
            var s3 := Apply(s2, BeginFlush);
            var s4 := Apply(s3, Dispatch(true, true));
            && Enabled(s0, Connect(Connected)) && Enabled(s1, Push(event)) && Enabled(s2, BeginFlush)
            && Enabled(s3, Dispatch(true, true)) && s4.started == [1] && s4.inCallback == Some(1)
  {
    var s0 := Start(8);
    var s3 := Apply(Apply(Apply(s0, Connect(Connected)), Push(event)), BeginFlush);
    assert s3.pending == [Queued(event)];
  }

  lemma RunFour(s: State, a: Step, b: Step, c: Step, d: Step)
    ensures Run(s, [a, b, c, d]) == Apply(Apply(Apply(Apply(s, a), b), c), d)
    ensures EnabledAll(s, [a, b, c, d]) <==>
              && Enabled(s, a) && Enabled(Apply(s, a), b) && Enabled(Apply(Apply(s, a), b), c)
              && Enabled(Apply(Apply(Apply(s, a), b), c), d)
  {
    hide Apply, Enabled;
    assert Init([a, b, c, d]) == [a, b, c] && Init([a, b, c]) == [a, b] && Init([a, b]) == [a] && Init([a]) == [];
    assert Run(s, []) == s && Run(s, [a]) == Apply(s, a) && Run(s, [a, b]) == Apply(Apply(s, a), b);
    assert Run(s, [a, b, c]) == Apply(Apply(Apply(s, a), b), c);
    assert EnabledAll(s, [a]) <==> Enabled(s, a);
    assert EnabledAll(s, [a, b]) <==> Enabled(s, a) && Enabled(Apply(s, a), b);
    assert EnabledAll(s, [a, b, c]) <==>
           EnabledAll(s, [a, b]) && Enabled(Apply(Apply(s, a), b), c);
  }
}
