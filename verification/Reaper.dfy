/**
 Desktop connection objects and their worker threads. Disconnect never waits for a running worker: it leaves
 the object among the zombies, and a later update, or the final teardown, joins the worker and frees it.
 The main thread's operations are cut at every point where a worker may move, and joining waits. The teardown
 of the extension disconnects what is still connected, in any order, and then finalizes the zombies.
 */
module Reaper {
  import opened Bytes

  /** A worker sets its finished flag as its last access to the object, and exits later. */
  datatype WorkerPc = Running | FlagSet | Exited

  /** Who owns an object: its connection, the main thread while it joins the worker, the zombies, or nobody. */
  datatype Place = Attached | Held | Zombie | Freed

  datatype Desktop = Desktop(place: Place, worker: WorkerPc, stop: bool)

  datatype Main =
    | Idle
    | Joining(id: int)               // disconnect found the worker finished
    | Scanning(at: nat)              // update, about to look at a zombie
    | Reaping(at: nat)               // update found it finished and joins it
    | Finalizing(rest: seq<int>)     // teardown joins one after another

  /** closing: the teardown of the extension has begun and is not over. */
  datatype State = State(objects: map<int, Desktop>, zombies: seq<int>, main: Main, closing: bool, freed: seq<int>)

  const START := State(map[], [], Idle, false, [])

  datatype Step =
    | Connect(id: int)
    | Disconnect(id: int)
    | BeginUpdate
    | BeginTeardown
    | BeginFinalize       // the teardown's loop finds no connection left
    | Advance             // the main thread's next move in what it is doing
    | SetFlag(id: int)
    | Exit(id: int)

  function EraseSwap(s: seq<int>, i: nat): seq<int>
    requires i < |s|
  {
    s[i := Last(s)][..|s| - 1]
  }

  function AttachedIds(s: State): set<int> {
    set id | id in s.objects && s.objects[id].place == Attached
  }

  predicate HasExited(s: State, id: int) {
    id in s.objects && s.objects[id].worker == Exited
  }

  /** Joining waits for the worker to exit; everything else the main thread can always do. */
  predicate CanAdvance(s: State) {
    match s.main
    case Idle => false
    case Joining(id) => HasExited(s, id)
    case Scanning(at) => true
    case Reaping(at) => at < |s.zombies| && HasExited(s, s.zombies[at])
    case Finalizing(rest) => rest == [] || HasExited(s, rest[0])
  }

  predicate Enabled(s: State, step: Step) {
    match step
    case Connect(id) => s.main == Idle && !s.closing && id !in s.objects
    case Disconnect(id) => s.main == Idle && id in s.objects && s.objects[id].place == Attached
    case BeginUpdate => s.main == Idle && !s.closing
    case BeginTeardown => s.main == Idle && !s.closing
    case BeginFinalize => s.main == Idle && s.closing && AttachedIds(s) == {}
    case Advance => CanAdvance(s)
    case SetFlag(id) => id in s.objects && s.objects[id].worker == Running
    case Exit(id) => id in s.objects && s.objects[id].worker == FlagSet
  }

  function Move(s: State, id: int, place: Place): State {
    if id in s.objects then s.(objects := s.objects[id := s.objects[id].(place := place)]) else s
  }

  function Free(s: State, id: int): State {
    Move(s, id, Freed).(freed := s.freed + [id])
  }

  function Apply(s: State, step: Step): State {
    match step
    case Connect(id) => s.(objects := s.objects[id := Desktop(Attached, Running, false)])
    case Disconnect(id) =>
      if id !in s.objects then s
      else
        var d := s.objects[id].(stop := true);
        var stopped := s.(objects := s.objects[id := d]);
        if d.worker == Running then Move(stopped, id, Zombie).(zombies := s.zombies + [id])
        else Move(stopped, id, Held).(main := Joining(id))
    case BeginUpdate => s.(main := Scanning(0))
    case BeginTeardown => s.(closing := true)
    case BeginFinalize => s.(zombies := [], main := Finalizing(s.zombies))
    case Advance => Next(s)
    case SetFlag(id) => SetWorker(s, id, FlagSet)
    case Exit(id) => SetWorker(s, id, Exited)
  }

  function SetWorker(s: State, id: int, pc: WorkerPc): State {
    if id in s.objects then s.(objects := s.objects[id := s.objects[id].(worker := pc)]) else s
  }

  function Next(s: State): State {
    match s.main
    case Idle => s
    case Joining(id) => Free(s, id).(main := Idle)
    case Scanning(at) =>
      if at >= |s.zombies| then s.(main := Idle)
      else if s.zombies[at] in s.objects && s.objects[s.zombies[at]].worker == Running then s.(main := Scanning(at + 1))
      else s.(main := Reaping(at))
    case Reaping(at) =>
      if at >= |s.zombies| then s
      else Free(s, s.zombies[at]).(zombies := EraseSwap(s.zombies, at), main := Scanning(at))
    case Finalizing(rest) =>
      if rest == [] then s.(main := Idle, closing := false) else Free(s, rest[0]).(main := Finalizing(rest[1..]))
  }

  function Run(s: State, steps: seq<Step>): State {
    if steps == [] then s else Apply(Run(s, Init(steps)), Last(steps))
  }

  predicate EnabledAll(s: State, steps: seq<Step>) {
    steps == [] || (EnabledAll(s, Init(steps)) && Enabled(Run(s, Init(steps)), Last(steps)))
  }

  // ---------- safety ----------

  /** The zombies, wherever the main thread keeps them at the moment. */
  function Waiting(s: State): seq<int> {
    s.zombies + if s.main.Finalizing? then s.main.rest else []
  }

  /** Outside of the finalization, the object whose worker the main thread joins. */
  predicate Awaits(s: State, id: int) {
    s.main == Joining(id) || (s.main.Reaping? && s.main.at < |s.zombies| && s.zombies[s.main.at] == id)
  }

  ghost predicate Invariant(s: State) {
    && Distinct(Waiting(s)) && Distinct(s.freed)
    && (s.main.Finalizing? ==> s.zombies == [])
    && (s.main.Reaping? ==> s.main.at < |s.zombies|)
    && (forall id :: id in Waiting(s) <==> id in s.objects && s.objects[id].place == Zombie)
    && (forall id :: id in s.freed <==> id in s.objects && s.objects[id].place == Freed)
    && (forall id :: id in s.objects && s.objects[id].place == Held <==> s.main == Joining(id))
    && (forall id :: id in s.objects && s.objects[id].place == Freed ==> s.objects[id].worker == Exited)
    && (forall id :: id in s.objects && s.objects[id].place != Attached ==> s.objects[id].stop)
    && (s.main.Finalizing? ==> s.closing && AttachedIds(s) == {})
    && (s.closing ==> !s.main.Scanning? && !s.main.Reaping?)
    && (forall id :: Awaits(s, id) ==> id in s.objects && s.objects[id].worker != Running)
  }

  lemma EraseSwapExact(s: seq<int>, i: nat)
    requires i < |s| && Distinct(s)
    ensures Distinct(EraseSwap(s, i))
    ensures forall x :: x in EraseSwap(s, i) <==> x in s && x != s[i]
  {
    var r := EraseSwap(s, i);
    forall x | x in s && x != s[i]
      ensures x in r
    {
      var k :| 0 <= k < |s| && s[k] == x;
      if k == |s| - 1 {
        assert r[i] == x;
      } else {
        assert r[k] == x;
      }
    }
    forall k | 0 <= k < |r|
      ensures r[k] in s && r[k] != s[i]
    {
      assert r[k] == if k == i then s[|s| - 1] else s[k];
    }
  }

  lemma FreeKeeps(s: State, id: int, after: State)
    requires Invariant(s) && HasExited(s, id) && s.objects[id].place != Freed && s.objects[id].place != Attached
    requires after == Free(s, id).(zombies := after.zombies, main := after.main)
    requires Distinct(Waiting(after))
    requires forall x :: x in Waiting(after) <==> x in Waiting(s) && x != id
    requires after.main == Idle || after.main.Scanning?
             || (s.main.Finalizing? && after.main.Finalizing? && after.zombies == [])
    requires s.main.Joining? ==> s.main == Joining(id)
    requires after.main.Scanning? ==> !s.closing
    ensures Invariant(after)
  {
  }

  lemma WaitingZombies(s: State)
    requires !s.main.Finalizing?
    ensures Waiting(s) == s.zombies
  {
  }

  lemma ReapKeeps(s: State)
    requires Invariant(s) && CanAdvance(s) && s.main.Reaping?
    ensures Invariant(Next(s))
  {
    hide Invariant, EraseSwap;
    var after, at := Next(s), s.main.at;
    WaitingZombies(s);
    WaitingZombies(after);
    assert s.zombies[at] in Waiting(s);
    PlaceOfWaiting(s, s.zombies[at]);
    NotClosing(s);
    EraseSwapExact(s.zombies, at);
    FreeKeeps(s, s.zombies[at], after);
  }

  lemma PlaceOfWaiting(s: State, id: int)
    requires Invariant(s) && id in Waiting(s)
    ensures id in s.objects && s.objects[id].place == Zombie && Distinct(Waiting(s))
  {
  }

  lemma NotClosing(s: State)
    requires Invariant(s) && s.main.Reaping?
    ensures !s.closing
  {
  }

  lemma FinalizeKeeps(s: State)
    requires Invariant(s) && CanAdvance(s) && s.main.Finalizing? && s.main.rest != []
    ensures Invariant(Next(s))
  {
    var after, rest := Next(s), s.main.rest;
    assert Waiting(s) == rest && Waiting(after) == rest[1..];
    assert rest[0] in Waiting(s);
    assert rest == [rest[0]] + rest[1..];
    FreeKeeps(s, rest[0], after);
  }

  lemma AdvanceKeeps(s: State)
    requires Invariant(s) && CanAdvance(s)
    ensures Invariant(Next(s))
  {
    var after := Next(s);
    match s.main
    case Joining(id) =>
      assert id !in Waiting(s);
      FreeKeeps(s, id, after);
    case Scanning(at) =>
      assert Waiting(after) == Waiting(s);
    case Reaping(at) => ReapKeeps(s);
    case Finalizing(rest) =>
      if rest != [] {
        FinalizeKeeps(s);
      }
  }

  lemma DisconnectKeeps(s: State, id: int)
    requires Invariant(s) && Enabled(s, Disconnect(id))
    ensures Invariant(Apply(s, Disconnect(id)))
  {
    assert id !in Waiting(s) && id !in s.freed;
    var after := Apply(s, Disconnect(id));
    if s.objects[id].worker == Running {
      assert Waiting(after) == Waiting(s) + [id];
    }
  }

  lemma StepKeeps(s: State, step: Step)
    requires Invariant(s) && Enabled(s, step)
    ensures Invariant(Apply(s, step))
  {
    var after := Apply(s, step);
    match step
    case Advance => AdvanceKeeps(s);
    case Disconnect(id) => DisconnectKeeps(s, id);
    case BeginFinalize => assert Waiting(after) == Waiting(s);
    case BeginUpdate => assert Waiting(after) == Waiting(s);
    case BeginTeardown => assert Waiting(after) == Waiting(s);
    case Connect(id) =>
      assert id !in s.freed && id !in Waiting(s);
      assert Waiting(after) == Waiting(s);
    case SetFlag(id) => assert Waiting(after) == Waiting(s);
    case Exit(id) => assert Waiting(after) == Waiting(s);
  }

  lemma {:induction false} RunKeeps(s: State, steps: seq<Step>)
    requires Invariant(s) && EnabledAll(s, steps)
    ensures Invariant(Run(s, steps))
  {
    hide Invariant, Apply, Enabled;
    if steps != [] {
      RunKeeps(s, Init(steps));
      StepKeeps(Run(s, Init(steps)), Last(steps));
    }
  }

  /**
   Every interleaving: each object is freed at most once, and only when its worker can never touch it
   again; an object nobody owns any more is freed; the zombies are exactly the objects waiting for that.
   */
  lemma FreedOnceAfterExit(steps: seq<Step>)
    requires EnabledAll(START, steps)
    ensures var s := Run(START, steps);
            && Distinct(s.freed) && Distinct(Waiting(s))
            && (forall id :: id in s.freed ==> id in s.objects && s.objects[id].worker == Exited)
            && (forall id :: id in s.objects ==>
                  match s.objects[id].place
                  case Attached => id !in s.freed && id !in Waiting(s) && s.main != Joining(id)
                  case Held => id !in s.freed && id !in Waiting(s) && s.main == Joining(id)
                  case Zombie => id !in s.freed && id in Waiting(s) && s.main != Joining(id)
                  case Freed => id in s.freed && id !in Waiting(s) && s.main != Joining(id))
  {
    assert Waiting(START) == [];
    RunKeeps(START, steps);
  }

  // ---------- the main thread does not wait for the network ----------

  /** A connected object is attached, and its worker runs. */
  lemma ConnectExact(s: State, id: int)
    requires Enabled(s, Connect(id))
    ensures var after := Apply(s, Connect(id));
            && id !in s.objects && after.objects.Keys == s.objects.Keys + {id}
            && after.objects[id] == Desktop(Attached, Running, false)
            && Enabled(after, Disconnect(id)) && Enabled(after, SetFlag(id))
  {
  }

  /**
   Disconnect asks the worker to stop. If it is still running, that is all, and the object waits among the
   zombies; if it has set its finished flag, the main thread joins it.
   */
  lemma DisconnectExact(s: State, id: int)
    requires Enabled(s, Disconnect(id))
    ensures var worker, after := s.objects[id].worker, Apply(s, Disconnect(id));
            && after.objects[id].stop && after.objects[id].worker == worker
            && (worker == Running ==>
                  after.main == Idle && after.objects[id].place == Zombie && after.zombies == s.zombies + [id])
            && (worker != Running ==>
                  after.main == Joining(id) && after.objects[id].place == Held && after.zombies == s.zombies)
  {
  }

  /** One look of an update: a running worker is passed over; a finished one is joined, freed and erased. */
  lemma ScanExact(s: State)
    requires Invariant(s) && s.main.Scanning? && s.main.at < |s.zombies|
    ensures var at := s.main.at;
            var id := s.zombies[at];
            && Enabled(s, Advance) && id in s.objects
            && (s.objects[id].worker == Running ==> Apply(s, Advance) == s.(main := Scanning(at + 1)))
            && (s.objects[id].worker != Running ==>
                  var joining := Apply(s, Advance);
                  && Awaits(joining, id)
                  && (HasExited(s, id) ==>
                        && Enabled(joining, Advance)
                        && Apply(joining, Advance).objects[id].place == Freed
                        && Apply(joining, Advance).freed == s.freed + [id]
                        && id !in Apply(joining, Advance).zombies))
  {
    var at := s.main.at;
    assert Waiting(s) == s.zombies;
    assert s.zombies[at] in Waiting(s);
    EraseSwapExact(s.zombies, at);
  }

  /**
   In every reachable state outside of the finalization, a worker the main thread waits for has already set its
   finished flag and only has to exit: no disconnect and no update ever waits for the network.
   */
  lemma OnlyFinishedAwaited(steps: seq<Step>, id: int)
    requires EnabledAll(START, steps) && Awaits(Run(START, steps), id)
    ensures var s := Run(START, steps);
            id in s.objects && s.objects[id].worker != Running
    ensures var s := Run(START, steps);
            !CanAdvance(s) ==> Enabled(s, Exit(id)) && CanAdvance(Apply(s, Exit(id)))
  {
    assert Waiting(START) == [];
    RunKeeps(START, steps);
  }

  // ---------- the teardown ----------

  lemma NothingLeft(s: State)
    requires Invariant(s) && s.main == Finalizing([])
    ensures forall id :: id in s.objects ==> id in s.freed
  {
    assert Waiting(s) == [];
    assert forall id :: id in s.objects ==> id !in AttachedIds(s);
  }

  lemma StepKeepsObjects(s: State, step: Step)
    ensures s.objects.Keys <= Apply(s, step).objects.Keys
  {
  }

  lemma {:induction false} RunKeepsObjects(s: State, steps: seq<Step>)
    ensures s.objects.Keys <= Run(s, steps).objects.Keys
  {
    hide Apply;
    if steps != [] {
      RunKeepsObjects(s, Init(steps));
      StepKeepsObjects(Run(s, Init(steps)), Last(steps));
    }
  }

  /** Only the end of the finalization ends a teardown. */
  lemma TeardownEnds(s: State, last: Step)
    requires Invariant(s) && Enabled(s, last) && s.closing && !Apply(s, last).closing
    ensures s.main == Finalizing([]) && last == Advance
  {
  }

  /**
   Whatever is connected, waiting or half done when the teardown begins, and however the workers move: when
   the teardown is over, every object there ever was has been freed.
   */
  lemma FinalizeFreesAll(s: State, steps: seq<Step>, last: Step)
    requires Invariant(s) && Enabled(s, BeginTeardown)
    requires EnabledAll(Apply(s, BeginTeardown), steps + [last])
    requires Run(Apply(s, BeginTeardown), steps).closing
    requires !Run(Apply(s, BeginTeardown), steps + [last]).closing
    ensures var after := Run(Apply(s, BeginTeardown), steps + [last]);
            && after.main == Idle && s.objects.Keys <= after.objects.Keys
            && forall id :: id in after.objects ==> id in after.freed
  {
    hide Invariant;
    var start := Apply(s, BeginTeardown);
    InitLast(steps, last);
    StepKeeps(s, BeginTeardown);
    RunKeeps(start, steps);
    RunKeepsObjects(start, steps);
    TeardownEnds(Run(start, steps), last);
    NothingLeft(Run(start, steps));
  }

  lemma RunOne(s: State, a: Step)
    ensures Run(s, [a]) == Apply(s, a)
    ensures EnabledAll(s, [a]) <==> Enabled(s, a)
  {
    assert Init([a]) == [];
  }

  lemma {:induction false} RunAppend(s: State, a: seq<Step>, b: seq<Step>)
    requires EnabledAll(s, a) && EnabledAll(Run(s, a), b)
    ensures Run(s, a + b) == Run(Run(s, a), b) && EnabledAll(s, a + b)
  {
    hide Apply, Enabled;
    if b == [] {
      assert a + b == a;
    } else {
      RunAppend(s, a, Init(b));
      assert Init(a + b) == a + Init(b) && Last(a + b) == Last(b);
    }
  }

  /** One step, and then a run. */
  lemma RunFirst(s: State, a: Step, b: seq<Step>)
    requires Enabled(s, a) && EnabledAll(Apply(s, a), b)
    ensures Run(s, [a] + b) == Run(Apply(s, a), b) && EnabledAll(s, [a] + b)
  {
    hide Apply, Enabled;
    RunOne(s, a);
    RunAppend(s, [a], b);
  }

  /** What is left to do in a teardown. */
  function Work(s: State): nat {
    4 * |AttachedIds(s)| + 2 * |Waiting(s)| + (if s.main.Joining? then 2 else 0) + if s.main.Finalizing? then 1 else 2
  }

  /** A worker needs nobody else to exit. */
  lemma WorkerExits(s: State, id: int) returns (steps: seq<Step>)
    requires id in s.objects
    ensures EnabledAll(s, steps) && Run(s, steps) == SetWorker(s, id, Exited)
  {
    var d := s.objects[id];
    match d.worker
    case Exited =>
      steps := [];
      assert SetWorker(s, id, Exited) == s;
    case FlagSet =>
      steps := [Exit(id)];
      RunOne(s, Exit(id));
    case Running =>
      steps := [SetFlag(id)] + [Exit(id)];
      var flagged := Apply(s, SetFlag(id));
      RunOne(flagged, Exit(id));
      RunFirst(s, SetFlag(id), [Exit(id)]);
      assert Apply(flagged, Exit(id)).objects == SetWorker(s, id, Exited).objects;
  }

  lemma ExitKeeps(s: State, id: int)
    requires Invariant(s) && id in s.objects
    ensures Invariant(SetWorker(s, id, Exited)) && Work(SetWorker(s, id, Exited)) == Work(s)
    ensures SetWorker(s, id, Exited).main == s.main && SetWorker(s, id, Exited).closing == s.closing
  {
    var after := SetWorker(s, id, Exited);
    assert Waiting(after) == Waiting(s) && AttachedIds(after) == AttachedIds(s);
  }

  lemma DisconnectWorks(s: State, id: int)
    requires Invariant(s) && Enabled(s, Disconnect(id))
    ensures Work(Apply(s, Disconnect(id))) < Work(s) && Apply(s, Disconnect(id)).closing == s.closing
  {
    var after := Apply(s, Disconnect(id));
    assert AttachedIds(after) == AttachedIds(s) - {id};
    assert Waiting(after) == Waiting(s) + if s.objects[id].worker == Running then [id] else [];
  }

  lemma FinalizeWorks(s: State)
    requires Invariant(s) && Enabled(s, BeginFinalize)
    ensures Work(Apply(s, BeginFinalize)) < Work(s) && Apply(s, BeginFinalize).closing
  {
    var after := Apply(s, BeginFinalize);
    assert Waiting(after) == Waiting(s) && AttachedIds(after) == AttachedIds(s);
  }

  lemma JoinWorks(s: State)
    requires Invariant(s) && s.closing && CanAdvance(s) && s.main != Finalizing([])
    ensures Work(Next(s)) < Work(s) && Next(s).closing
  {
    var after := Next(s);
    assert AttachedIds(after) == AttachedIds(s);
    assert Waiting(after) == if s.main.Finalizing? then s.main.rest[1..] else Waiting(s);
  }

  lemma JoinsAnObject(s: State, id: int)
    requires Invariant(s)
    requires s.main == Joining(id) || (s.main.Finalizing? && s.main.rest != [] && s.main.rest[0] == id)
    ensures id in s.objects
  {
    assert s.main.Finalizing? ==> s.main.rest[0] in Waiting(s);
  }

  /** The main thread and, where it joins, the worker it waits for can always go on. */
  lemma TeardownGoesOn(s: State) returns (steps: seq<Step>)
    requires Invariant(s) && s.closing && s.main != Finalizing([])
    ensures EnabledAll(s, steps) && Run(s, steps).closing && Work(Run(s, steps)) < Work(s)
  {
    hide Work, Invariant;
    if s.main == Idle {
      EmptyOrNot(AttachedIds(s));
      if AttachedIds(s) == {} {
        steps := [BeginFinalize];
        FinalizeWorks(s);
        RunOne(s, BeginFinalize);
      } else {
        var id :| id in AttachedIds(s);
        steps := [Disconnect(id)];
        DisconnectWorks(s, id);
        RunOne(s, Disconnect(id));
      }
    } else {
      ClosingMain(s);
      var id := if s.main.Joining? then s.main.id else s.main.rest[0];
      JoinsAnObject(s, id);
      var exit := WorkerExits(s, id);
      ExitKeeps(s, id);
      var ready := SetWorker(s, id, Exited);
      RunOne(ready, Advance);
      JoinWorks(ready);
      RunAppend(s, exit, [Advance]);
      steps := exit + [Advance];
    }
  }

  lemma ClosingMain(s: State)
    requires Invariant(s) && s.closing
    ensures s.main == Idle || s.main.Joining? || s.main.Finalizing?
  {
  }

  lemma EmptyOrNot(ids: set<int>)
    ensures ids == {} || exists id :: id in ids
  {
    if forall id :: id !in ids {
      assert ids == {};
    }
  }

  /**
   From every state of a teardown, with anything still connected, waiting, or being joined, it can be
   completed, and then every object there ever was has been freed.
   */
  lemma {:induction false} TeardownCanEnd(s: State) returns (steps: seq<Step>)
    requires Invariant(s) && s.closing
    ensures EnabledAll(s, steps)
    ensures var after := Run(s, steps);
            && !after.closing && after.main == Idle && s.objects.Keys <= after.objects.Keys
            && forall id :: id in after.objects ==> id in after.freed
    decreases Work(s)
  {
    hide Work, Invariant, Enabled, EnabledAll, Run;
    if s.main == Finalizing([]) {
      steps := [Advance];
      RunOne(s, Advance);
      LastAdvance(s);
      NothingLeft(s);
    } else {
      var first := TeardownGoesOn(s);
      RunKeeps(s, first);
      var rest := TeardownCanEnd(Run(s, first));
      RunAppend(s, first, rest);
      RunKeepsObjects(s, first);
      steps := first + rest;
    }
  }

  lemma LastAdvance(s: State)
    requires s.main == Finalizing([])
    ensures Enabled(s, Advance) && Apply(s, Advance) == s.(main := Idle, closing := false)
  {
  }

  // ---------- the array that update scans in place ----------

  /** Erasing at i leaves what stands before it, and all of what stands behind it. */
  lemma EraseSwapRest(s: seq<int>, i: nat)
    requires i < |s|
    ensures |EraseSwap(s, i)| == |s| - 1 && EraseSwap(s, i)[..i] == s[..i]
    ensures multiset(EraseSwap(s, i)[i..]) == multiset(s[i + 1..])
  {
    var last := |s| - 1;
    if i < last {
      var middle := s[i + 1..last];
      assert EraseSwap(s, i)[i..] == [s[last]] + middle;
      assert s[i + 1..] == middle + [s[last]];
    }
  }

  /** Polled and unpolled entries together stay the same, whether the next one is kept or erased. */
  lemma PollsNext(polled: seq<int>, s: seq<int>, i: nat)
    requires i < |s|
    ensures var all := multiset(polled) + multiset(s[i..]);
            && multiset(polled + [s[i]]) + multiset(s[i + 1..]) == all
            && multiset(polled + [s[i]]) + multiset(EraseSwap(s, i)[i..]) == all
  {
    hide EraseSwap;
    EraseSwapRest(s, i);
    assert s[i..] == [s[i]] + s[i + 1..];
  }

  /** What the main thread does with an object it is done with. */
  datatype Call = Join(id: int) | FreeObject(id: int)

  function JoinThenFree(ids: seq<int>): (calls: seq<Call>)
    ensures |calls| == 2 * |ids|
  {
    if ids == [] then [] else JoinThenFree(Init(ids)) + [Join(Last(ids)), FreeObject(Last(ids))]
  }

  /** Each object is freed right behind its own join, and no object twice if none is listed twice. */
  lemma {:induction false} JoinedBeforeFreed(ids: seq<int>, i: nat)
    requires i < |ids|
    ensures JoinThenFree(ids)[2 * i] == Join(ids[i]) && JoinThenFree(ids)[2 * i + 1] == FreeObject(ids[i])
  {
    if i < |ids| - 1 {
      JoinedBeforeFreed(Init(ids), i);
    }
  }

  /** The polled objects whose answer was the wanted one; the n-th poll is of polled[n]. */
  function Answered(polled: seq<int>, isFinished: (nat, int) -> bool, wanted: bool): seq<int> {
    if polled == [] then []
    else
      var before := Answered(Init(polled), isFinished, wanted);
      if isFinished(|polled| - 1, Last(polled)) == wanted then before + [Last(polled)] else before
  }

  lemma NothingPolled(isFinished: (nat, int) -> bool)
    ensures Answered([], isFinished, false) == Answered([], isFinished, true) == [] && JoinThenFree([]) == []
  {
  }

  lemma AnsweredNext(polled: seq<int>, id: int, isFinished: (nat, int) -> bool)
    ensures var (yes, no) := (Answered(polled, isFinished, true), Answered(polled, isFinished, false));
            var finished := isFinished(|polled|, id);
            && Answered(polled + [id], isFinished, true) == (if finished then yes + [id] else yes)
            && Answered(polled + [id], isFinished, false) == if finished then no else no + [id]
  {
    InitLast(polled, id);
  }

  lemma JoinThenFreeNext(ids: seq<int>, id: int)
    ensures JoinThenFree(ids + [id]) == JoinThenFree(ids) + [Join(id), FreeObject(id)]
  {
    InitLast(ids, id);
  }

  class ZombieArray {
    var zombies: seq<int>
    var calls: seq<Call>

    constructor ()
      ensures zombies == [] && calls == []
    {
      zombies, calls := [], [];
    }

    method Push(id: int)
      modifies this`zombies
      ensures zombies == old(zombies) + [id]
    {
      zombies := zombies + [id];
    }

    method JoinAndFree(id: int)
      modifies this`calls
      ensures calls == old(calls) + [Join(id), FreeObject(id)]
    {
      calls := calls + [Join(id)];
      calls := calls + [FreeObject(id)];
    }

    /**
     One update, while workers may finish at any time: every zombie is polled exactly once; those that had
     finished by then are joined and freed, and exactly the others stay, in the order they were polled.
     */
    method Update(isFinished: (nat, int) -> bool) returns (ghost polled: seq<int>)
      modifies this
      ensures multiset(polled) == multiset(old(zombies))
      ensures zombies == Answered(polled, isFinished, false)
      ensures calls == old(calls) + JoinThenFree(Answered(polled, isFinished, true))
    {
      hide Answered, JoinThenFree, EraseSwap;
      polled := [];
      var i, polls := 0, 0;
      NothingPolled(isFinished);
      while i < |zombies|
        invariant i <= |zombies| && polls == |polled|
        invariant multiset(polled) + multiset(zombies[i..]) == multiset(old(zombies))
        invariant zombies[..i] == Answered(polled, isFinished, false)
        invariant calls == old(calls) + JoinThenFree(Answered(polled, isFinished, true))
        decreases |zombies| - i
      {
        var id := zombies[i];
        AnsweredNext(polled, id, isFinished);
        JoinThenFreeNext(Answered(polled, isFinished, true), id);
        PollsNext(polled, zombies, i);
        EraseSwapRest(zombies, i);
        polled := polled + [id];
        if isFinished(polls, id) {
          JoinAndFree(id);
          zombies := EraseSwap(zombies, i);
        } else {
          i := i + 1;
        }
        polls := polls + 1;
      }
      assert zombies[..i] == zombies && zombies[i..] == [];
    }

    /** The final teardown takes the whole array, and joins and frees one after another. */
    method Finalize()
      modifies this
      ensures zombies == [] && calls == old(calls) + JoinThenFree(old(zombies))
    {
      var taken := zombies;
      zombies := [];
      for i := 0 to |taken|
        invariant zombies == [] && calls == old(calls) + JoinThenFree(taken[..i])
      {
        assert taken[..i + 1] == taken[..i] + [taken[i]];
        JoinThenFreeNext(taken[..i], taken[i]);
        JoinAndFree(taken[i]);
      }
      assert taken[..|taken|] == taken;
    }
  }
}
