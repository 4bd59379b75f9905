/**
 The extension's global state as an object: connect, disconnect, dispatch and flush, with the script calling
 back into it from its own callbacks. Every method is tied to the steps of the lifecycle it performs.
 */
module Extension {
  import opened Bytes
  import opened EventQueue
  import opened Lifecycle

  /** What happens while one item is dispatched: the callback's fate, and the calls made while it runs. */
  datatype Plan = Plan(callbackValid: bool, setUp: bool, script: seq<Step>)

  predicate ScriptStep(step: Step) {
    step.Push? || step.Connect? || step.Disconnect?
  }

  /** One item, the callback it may start, and everything until that callback returns. */
  function DispatchRun(s: State, plan: Plan): State {
    var inside := Apply(s, Dispatch(plan.callbackValid, plan.setUp));
    if inside.inCallback.None? then inside else Apply(Run(inside, plan.script), Return)
  }

  ghost predicate PlanEnabled(s: State, plan: Plan) {
    && (forall step :: step in plan.script ==> ScriptStep(step))
    && EnabledAll(Apply(s, Dispatch(plan.callbackValid, plan.setUp)), plan.script)
  }

  function FlushRun(s: State, plans: seq<Plan>): State {
    if plans == [] then s else DispatchRun(FlushRun(s, Init(plans)), Last(plans))
  }

  ghost predicate PlansEnabled(s: State, plans: seq<Plan>) {
    plans == [] || (PlansEnabled(s, Init(plans)) && PlanEnabled(FlushRun(s, Init(plans)), Last(plans)))
  }

  class SSEExtension {
    const queue: SSEEventQueue
    var active: bool
    var nextHandle: int
    var connections: map<int, Connection>
    var callbacks: seq<int>  // the script callbacks called
    ghost var s: State  // the lifecycle state these fields stand for

    ghost predicate Valid()
      reads this, queue
    {
      && queue.Valid()
      && s.capacity == queue.capacity && s.window == queue.window
      && s.queue == Buffer(queue.events, queue.overflowHandles)
      && s.started == callbacks
      && s.active == active && s.nextHandle == nextHandle && s.connections == connections
      && ConnectionInvariant(s)
    }

    constructor (capacity: nat)
      ensures Valid() && s == Start(capacity) && fresh(queue)
      ensures queue.eventsSwap == [] && queue.overflowSwap == []
    {
      hide ConnectionInvariant, WindowResult, Start;
      queue := new SSEEventQueue(capacity);
      active, nextHandle, connections, callbacks := true, 1, map[], [];
      s := Start(capacity);
      new;
      InvariantAtStart(capacity);
    }

    method Enqueue(event: Event) returns (accepted: bool)
      requires Valid()
      modifies `s, queue`events, queue`overflowHandles, queue`window
      ensures Valid() && s == Apply(old(s), Push(event))
      ensures accepted == (active && |old(queue.window)| < queue.capacity)
    {
      hide ConnectionInvariant, WindowResult, PushTo;
      ConnectionStep(s, Push(event));
      if active {
        PushExtendsWindow(queue.capacity, queue.window, event);
      }
      accepted := queue.Push(event, active);
      s := Apply(s, Push(event));
    }

    method DestroyConnection(h: int)
      requires h in connections
      modifies `connections
      ensures connections == old(connections) - {h}
    {
      connections := connections - {h};
    }

    method Connect(outcome: ConnectOutcome) returns (handle: Option<int>)
      requires Valid() && Enabled(s, Step.Connect(outcome))
      modifies `nextHandle, `connections, `s
      ensures Valid() && s == Apply(old(s), Step.Connect(outcome))
      ensures handle == if outcome.Connected? then Some(old(nextHandle)) else None
    {
      ConnectionStep(s, Step.Connect(outcome));
      s := Apply(s, Step.Connect(outcome));
      var h := nextHandle;
      nextHandle := nextHandle + 1;
      if outcome.Rejected? {
        return None;
      }
      connections := connections[h := Connection(false, false, false, true)];
      if outcome.PlatformFailed? {
        DestroyConnection(h);
        return None;
      }
      return Some(h);
    }

    method Disconnect(h: int)
      requires Valid() && Enabled(s, Step.Disconnect(h))
      modifies `connections, `s
      ensures Valid() && s == Apply(old(s), Step.Disconnect(h))
    {
      ConnectionStep(s, Step.Disconnect(h));
      s := Apply(s, Step.Disconnect(h));
      if h !in connections || connections[h].userClosed {
        return;
      }
      var c := connections[h];
      c := c.(userClosed := true);
      if c.attached {
        c := c.(attached := false);
      }
      if c.dispatching {
        c := c.(destroyAfterDispatch := true);
        connections := connections[h := c];
      } else {
        DestroyConnection(h);
      }
    }

    /** What the script, or a network thread, does while a callback runs. */
    method Perform(step: Step)
      requires Valid() && ScriptStep(step) && Enabled(s, step)
      modifies this`connections, this`nextHandle, this`s, queue`events, queue`overflowHandles, queue`window
      ensures Valid() && s == Apply(old(s), step)
    {
      hide ConnectionInvariant, Apply, Enabled;
      match step {
        case Push(event) => var _ := Enqueue(event);
        case Connect(outcome) => var _ := Connect(outcome);
        case Disconnect(h) => Disconnect(h);
      }
    }

    /** Dispatch one item of a flush; the callback may call back into the extension. */
    method DispatchEvent(h: int, plan: Plan)
      requires Valid() && s.pending != [] && s.inCallback.None? && HandleOf(s.pending[0]) == h
      requires PlanEnabled(s, plan)
      modifies this`connections, this`nextHandle, this`callbacks, this`s
      modifies queue`events, queue`overflowHandles, queue`window
      ensures Valid() && s == DispatchRun(old(s), plan) && s.inCallback.None?
    {
      var starting := Dispatch(plan.callbackValid, plan.setUp);
      ghost var inside := Apply(s, starting);
      ConnectionStep(s, starting);
      s := inside;
      if h !in connections || connections[h].userClosed {
        return;
      }
      if !plan.callbackValid {
        DestroyConnection(h);
        return;
      }
      connections := connections[h := connections[h].(dispatching := true)];
      if plan.setUp {
        callbacks := callbacks + [h];
      }
      RunScript(plan.script);
      ConnectionStep(s, Return);
      s := Apply(s, Return);
      var destroyAfterDispatch := connections[h].destroyAfterDispatch;
      connections := connections[h := connections[h].(dispatching := false)];
      if destroyAfterDispatch {
        DestroyConnection(h);
      }
    }

    method RunScript(script: seq<Step>)
      requires Valid() && s.inCallback.Some?
      requires (forall step :: step in script ==> ScriptStep(step)) && EnabledAll(s, script)
      modifies this`connections, this`nextHandle, this`s, queue`events, queue`overflowHandles, queue`window
      ensures Valid() && s == Run(old(s), script) && s.inCallback == old(s.inCallback)
    {
      hide ConnectionInvariant, Apply, Enabled, WindowResult;
      ghost var start := s;
      for i := 0 to |script|
        invariant Valid() && s == Run(start, script[..i]) && s.inCallback == start.inCallback
      {
        assert Init(script[..i + 1]) == script[..i];
        EnabledPrefix(start, script, i + 1);
        assert script[i] in script;
        ScriptStaysInside(s, script[i]);
        Perform(script[i]);
      }
      assert script[..|script|] == script;
    }

    /** One update's flush: the swapped window is dispatched to the end, events first, overflow notes last. */
    method FlushQueue(plans: seq<Plan>)
      requires Valid() && Enabled(s, BeginFlush) && queue.eventsSwap == [] && queue.overflowSwap == []
      requires |plans| == |Items(s.queue)| && PlansEnabled(Apply(s, BeginFlush), plans)
      modifies this`connections, this`nextHandle, this`callbacks, this`s, queue
      ensures Valid() && s == FlushRun(Apply(old(s), BeginFlush), plans)
      ensures s.pending == [] && s.inCallback.None? && queue.eventsSwap == [] && queue.overflowSwap == []
    {
      hide ConnectionInvariant, PlanEnabled, DispatchRun, FlushRun, PlansEnabled, WindowResult, Items, HandleOf;
      ConnectionStep(s, BeginFlush);
      ghost var start := Apply(s, BeginFlush);
      ItemsAt(s.queue);
      s := start;
      queue.Swap();
      FlushNothing(start);
      var events, notes := queue.eventsSwap, queue.overflowSwap;
      for i := 0 to |events|
        invariant Valid() && s.inCallback.None? && s == FlushRun(start, plans[..i]) && s.pending == start.pending[i..]
        invariant queue.eventsSwap == events && queue.overflowSwap == notes
      {
        DispatchNext(events[i].handle, plans, i, start);
      }
      for i := |events| to |events| + |notes|
        invariant Valid() && s.inCallback.None? && s == FlushRun(start, plans[..i]) && s.pending == start.pending[i..]
        invariant queue.eventsSwap == events && queue.overflowSwap == notes
      {
        DispatchNext(notes[i - |events|], plans, i, start);
      }
      assert plans[..|plans|] == plans;
      queue.Clear();
    }

    /** The i-th item of a flush. */
    method DispatchNext(h: int, plans: seq<Plan>, i: nat, ghost start: State)
      requires i < |plans| == |start.pending| && PlansEnabled(start, plans)
      requires Valid() && s.inCallback.None? && s == FlushRun(start, plans[..i]) && s.pending == start.pending[i..]
      requires HandleOf(start.pending[i]) == h
      modifies this`connections, this`nextHandle, this`callbacks, this`s
      modifies queue`events, queue`overflowHandles, queue`window
      ensures Valid() && s.inCallback.None?
      ensures s == FlushRun(start, plans[..i + 1]) && s.pending == start.pending[i + 1..]
    {
      hide ConnectionInvariant, PlanEnabled, DispatchRun, FlushRun, PlansEnabled, WindowResult;
      PlanAt(start, plans, i);
      assert s.pending[0] == start.pending[i] && s.pending[1..] == start.pending[i + 1..];
      DispatchKeepsPending(s, plans[i]);
      DispatchEvent(h, plans[i]);
    }
  }

  lemma FlushNothing(s: State)
    ensures FlushRun(s, []) == s
  {
  }

  lemma ItemsAt(b: Buffer)
    ensures |Items(b)| == |b.events| + |b.overflow|
    ensures forall i :: 0 <= i < |b.events| ==> HandleOf(Items(b)[i]) == b.events[i].handle
    ensures forall i :: |b.events| <= i < |Items(b)| ==> HandleOf(Items(b)[i]) == b.overflow[i - |b.events|]
  {
  }

  lemma {:induction false} EnabledPrefix(s: State, steps: seq<Step>, n: nat)
    requires EnabledAll(s, steps) && n <= |steps|
    ensures EnabledAll(s, steps[..n])
  {
    hide Apply, Enabled;
    if n < |steps| {
      EnabledPrefix(s, Init(steps), n);
      assert Init(steps)[..n] == steps[..n];
    } else {
      assert steps[..n] == steps;
    }
  }

  lemma {:induction false} PlansPrefix(s: State, plans: seq<Plan>, n: nat)
    requires PlansEnabled(s, plans) && n <= |plans|
    ensures PlansEnabled(s, plans[..n])
  {
    hide PlanEnabled, DispatchRun;
    if n < |plans| {
      PlansPrefix(s, Init(plans), n);
      assert Init(plans)[..n] == plans[..n];
    } else {
      assert plans[..n] == plans;
    }
  }

  lemma PlanAt(s: State, plans: seq<Plan>, i: nat)
    requires PlansEnabled(s, plans) && i < |plans|
    ensures PlanEnabled(FlushRun(s, plans[..i]), plans[i])
    ensures FlushRun(s, plans[..i + 1]) == DispatchRun(FlushRun(s, plans[..i]), plans[i])
  {
    hide PlanEnabled, DispatchRun;
    PlansPrefix(s, plans, i + 1);
    assert Init(plans[..i + 1]) == plans[..i] && Last(plans[..i + 1]) == plans[i];
  }

  lemma ScriptStaysInside(s: State, step: Step)
    requires ScriptStep(step)
    ensures Apply(s, step).inCallback == s.inCallback && Apply(s, step).pending == s.pending
  {
  }

  lemma {:induction false} ScriptKeepsPending(s: State, script: seq<Step>)
    requires forall step :: step in script ==> ScriptStep(step)
    ensures Run(s, script).inCallback == s.inCallback && Run(s, script).pending == s.pending
  {
    hide Apply;
    if script != [] {
      assert forall step :: step in Init(script) ==> step in script;
      assert Last(script) in script;
      ScriptKeepsPending(s, Init(script));
      ScriptStaysInside(Run(s, Init(script)), Last(script));
    }
  }

  /** A dispatch consumes exactly one item, whatever its callback does. */
  lemma DispatchKeepsPending(s: State, plan: Plan)
    requires s.pending != [] && s.inCallback.None? && PlanEnabled(s, plan)
    ensures DispatchRun(s, plan).pending == s.pending[1..]
  {
    ScriptKeepsPending(Apply(s, Dispatch(plan.callbackValid, plan.setUp)), plan.script);
  }
}
