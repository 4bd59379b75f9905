/**
 The guard that lets network threads use the queue's mutexes while the application may be tearing them down.
 A thread counts itself in before it looks at the active flag; the teardown clears the flag, then waits for
 the count to be zero, then deletes the mutexes. Any number of threads, in any interleaving, over any
 number of initialisations.
 */
module TeardownGuard {
  import opened Bytes

  /** Where a registered thread is; a thread that is not registered has no entry. */
  datatype ThreadPc = Checking | Inside | Refused

  /** Where the main thread is in its cycle of initialisation and teardown. */
  datatype MainPc = Down | MutexesMade | Up | Waiting | Drained | QueueMutexGone

  datatype State = State(
    active: bool,
    entrants: int,
    queueMutex: bool,
    stateMutex: bool,
    threads: map<int, ThreadPc>,
    main: MainPc
  )

  const START := State(false, 0, false, false, map[], Down)

  datatype Step =
    | CountIn(thread: int)         // the guard's constructor, first half
    | LookAtFlag(thread: int)      // and second half
    | CountOut(thread: int)        // refused in the constructor, or done in the destructor
    | MakeMutexes
    | Activate
    | ClearFlag
    | Poll
    | DeleteQueueMutex
    | DeleteStateMutex

  predicate Enabled(s: State, step: Step) {
    match step
    case CountIn(t) => t !in s.threads
    case LookAtFlag(t) => t in s.threads && s.threads[t].Checking?
    case CountOut(t) => t in s.threads && !s.threads[t].Checking?
    case MakeMutexes => s.main == Down
    case Activate => s.main == MutexesMade
    case ClearFlag => s.main == Up
    case Poll => s.main == Waiting
    case DeleteQueueMutex => s.main == Drained
    case DeleteStateMutex => s.main == QueueMutexGone
  }

  function Apply(s: State, step: Step): State {
    match step
    case CountIn(t) => s.(entrants := s.entrants + 1, threads := s.threads[t := Checking])
    case LookAtFlag(t) => s.(threads := s.threads[t := if s.active then Inside else Refused])
    case CountOut(t) => s.(entrants := s.entrants - 1, threads := s.threads - {t})
    case MakeMutexes => s.(queueMutex := true, stateMutex := true, main := MutexesMade)
    case Activate => s.(active := true, main := Up)
    case ClearFlag => s.(active := false, main := Waiting)
    case Poll => if s.entrants == 0 then s.(main := Drained) else s
    case DeleteQueueMutex => s.(queueMutex := false, main := QueueMutexGone)
    case DeleteStateMutex => s.(stateMutex := false, main := Down)
  }

  function Run(s: State, steps: seq<Step>): State {
    if steps == [] then s else Apply(Run(s, Init(steps)), Last(steps))
  }

  predicate EnabledAll(s: State, steps: seq<Step>) {
    steps == [] || (EnabledAll(s, Init(steps)) && Enabled(Run(s, Init(steps)), Last(steps)))
  }

  function InsideThreads(s: State): set<int> {
    set t | t in s.threads && s.threads[t].Inside?
  }

  ghost predicate Invariant(s: State) {
    && s.entrants == |s.threads|
    && (s.active <==> s.main == Up)
    && (s.queueMutex <==> s.main in {MutexesMade, Up, Waiting, Drained})
    && (s.stateMutex <==> s.main in {MutexesMade, Up, Waiting, Drained, QueueMutexGone})
    && (s.main != Up && s.main != Waiting ==> InsideThreads(s) == {})
  }

  lemma RemoveOne(threads: map<int, ThreadPc>, t: int)
    requires t in threads
    ensures |threads - {t}| == |threads| - 1
  {
    assert (threads - {t}).Keys == threads.Keys - {t};
    assert |threads| == |threads.Keys| && |threads - {t}| == |(threads - {t}).Keys|;
  }

  lemma StepKeeps(s: State, step: Step)
    requires Invariant(s) && Enabled(s, step)
    ensures Invariant(Apply(s, step))
  {
  }

  lemma {:induction false} RunKeeps(s: State, steps: seq<Step>)
    requires Invariant(s) && EnabledAll(s, steps)
    ensures Invariant(Run(s, steps))
  {
    hide Invariant, Apply, Enabled;
    if steps != [] {
      RunKeeps(s, Init(steps));
      StepKeeps(Run(s, Init(steps)), Last(steps));
    }
  }

  /**
   Whatever the interleaving and however often the extension comes up and goes down: a thread inside the
   guarded section finds both mutexes alive, and the counter is the number of registered threads.
   */
  lemma MutexesOutliveThreads(steps: seq<Step>)
    requires EnabledAll(START, steps)
    ensures var s := Run(START, steps);
            && (InsideThreads(s) != {} ==> s.queueMutex && s.stateMutex)
            && s.entrants == |s.threads|
  {
    assert InsideThreads(START) == {};
    RunKeeps(START, steps);
  }

  /** Once the flag is cleared, the threads inside only leave: nobody enters before the next activation. */
  lemma {:induction false} NobodyEnters(s: State, steps: seq<Step>)
    requires EnabledAll(s, steps) && !s.active && Activate !in steps
    ensures InsideThreads(Run(s, steps)) <= InsideThreads(s)
    ensures !Run(s, steps).active
  {
    if steps != [] {
      assert forall step :: step in Init(steps) ==> step in steps;
      assert Last(steps) in steps;
      NobodyEnters(s, Init(steps));
      var before := Run(s, Init(steps));
      match Last(steps)
      case CountIn(t) => assert InsideThreads(Apply(before, CountIn(t))) == InsideThreads(before);
      case LookAtFlag(t) => assert InsideThreads(Apply(before, LookAtFlag(t))) <= InsideThreads(before);
      case CountOut(t) => assert InsideThreads(Apply(before, CountOut(t))) <= InsideThreads(before);
      case MakeMutexes =>
      case ClearFlag =>
      case Poll =>
      case DeleteQueueMutex =>
      case DeleteStateMutex =>
    }
  }

  /** The wait can always end: if the registered threads go on by themselves, the next poll succeeds. */
  lemma {:induction false} WaitCanEnd(s: State) returns (steps: seq<Step>)
    requires Invariant(s) && s.main == Waiting && !s.active
    ensures EnabledAll(s, steps) && Run(s, steps).main == Drained
    ensures |steps| <= 2 * |s.threads| + 1
    decreases |s.threads|
  {
    hide Invariant, Apply, Enabled, Run, EnabledAll;
    var registered := s.threads.Keys;
    if registered == {} {
      steps := [Poll];
      PollSucceeds(s);
    } else {
      EmptyOrNot(registered);
      var t :| t in registered;
      var first := ThreadLeaves(s, t);
      RemoveOne(s.threads, t);
      RunKeeps(s, first);
      var rest := WaitCanEnd(Run(s, first));
      steps := first + rest;
      RunAppend(s, first, rest);
    }
  }

  lemma EmptyOrNot(threads: set<int>)
    ensures threads == {} || exists t :: t in threads
  {
    if forall t :: t !in threads {
      assert threads == {};
    }
  }

  lemma PollSucceeds(s: State)
    requires Invariant(s) && s.main == Waiting && s.threads.Keys == {}
    ensures EnabledAll(s, [Poll]) && Run(s, [Poll]).main == Drained
  {
    RunOne(s, Poll);
  }

  /** A registered thread needs nobody else to leave. */
  lemma ThreadLeaves(s: State, t: int) returns (steps: seq<Step>)
    requires t in s.threads && !s.active
    ensures EnabledAll(s, steps) && |steps| <= 2
    ensures Run(s, steps) == s.(entrants := s.entrants - 1, threads := s.threads - {t})
  {
    if s.threads[t].Checking? {
      steps := [LookAtFlag(t), CountOut(t)];
      RunTwo(s, LookAtFlag(t), CountOut(t));
      assert s.threads[t := Refused] - {t} == s.threads - {t};
    } else {
      steps := [CountOut(t)];
      RunOne(s, CountOut(t));
    }
  }

  lemma RunOne(s: State, a: Step)
    ensures Run(s, [a]) == Apply(s, a)
    ensures EnabledAll(s, [a]) <==> Enabled(s, a)
  {
  }

  lemma RunTwo(s: State, a: Step, b: Step)
    ensures Run(s, [a, b]) == Apply(Apply(s, a), b)
    ensures EnabledAll(s, [a, b]) <==> Enabled(s, a) && Enabled(Apply(s, a), b)
  {
    RunOne(s, a);
    assert Init([a, b]) == [a];
  }

  lemma {:induction false} RunAppend(s: State, a: seq<Step>, b: seq<Step>)
    requires EnabledAll(s, a)
    ensures Run(s, a + b) == Run(Run(s, a), b)
    ensures EnabledAll(s, a + b) <==> EnabledAll(Run(s, a), b)
  {
    hide Apply, Enabled;
    if b == [] {
      assert a + b == a;
    } else {
      assert Init(a + b) == a + Init(b);
      RunAppend(s, a, Init(b));
    }
  }

  // ---------- who enters ----------

  predicate About(step: Step, t: int) {
    step == CountIn(t) || step == LookAtFlag(t) || step == CountOut(t)
  }

  /** The extension has been activated, and no teardown has begun since. */
  predicate UpSince(steps: seq<Step>) {
    exists i :: 0 <= i < |steps| && steps[i] == Activate && ClearFlag !in steps[i..]
  }

  lemma UpSinceSnoc(steps: seq<Step>, last: Step)
    ensures UpSince(steps + [last]) <==> last == Activate || (UpSince(steps) && last != ClearFlag)
  {
    var all, n := steps + [last], |steps|;
    if last == Activate {
      assert all[n] == Activate && all[n..] == [Activate];
    } else if UpSince(steps) && last != ClearFlag {
      var i :| 0 <= i < n && steps[i] == Activate && ClearFlag !in steps[i..];
      assert all[i] == Activate && all[i..] == steps[i..] + [last];
    }
    if UpSince(all) && last != Activate {
      var i :| 0 <= i < |all| && all[i] == Activate && ClearFlag !in all[i..];
      assert i < n && all[i..] == steps[i..] + [last];
      assert steps[i] == Activate && ClearFlag !in steps[i..] && last in all[i..];
    }
  }

  lemma {:induction false} ActiveIff(steps: seq<Step>)
    requires EnabledAll(START, steps)
    ensures Run(START, steps).active <==> UpSince(steps)
  {
    hide UpSince, Enabled;
    if steps == [] {
      NeverUp();
    } else {
      ActiveIff(Init(steps));
      UpSinceSnoc(Init(steps), Last(steps));
      assert steps == Init(steps) + [Last(steps)];
    }
  }

  lemma NeverUp()
    ensures !UpSince([])
  {
  }

  /**
   Over any run: a thread that looks at the flag enters if and only if its look falls between an activation and
   the next clearing of the flag.
   */
  lemma LookDecides(steps: seq<Step>, t: int)
    requires EnabledAll(START, steps + [LookAtFlag(t)])
    ensures t in InsideThreads(Run(START, steps + [LookAtFlag(t)])) <==> UpSince(steps)
  {
    hide UpSince;
    InitLast(steps, LookAtFlag(t));
    ActiveIff(steps);
  }

  /** Threads do not disturb each other's place. */
  lemma {:induction false} OthersLeaveAlone(s: State, steps: seq<Step>, t: int)
    requires EnabledAll(s, steps) && forall step :: step in steps ==> !About(step, t)
    ensures t in Run(s, steps).threads <==> t in s.threads
    ensures t in s.threads ==> Run(s, steps).threads[t] == s.threads[t]
  {
    if steps != [] {
      assert forall step :: step in Init(steps) ==> step in steps;
      assert Last(steps) in steps;
      OthersLeaveAlone(s, Init(steps), t);
    }
  }

  lemma {:induction false} StaysUp(s: State, steps: seq<Step>)
    requires EnabledAll(s, steps) && ClearFlag !in steps && s.main == Up && s.active
    ensures Run(s, steps).main == Up && Run(s, steps).active
  {
    if steps != [] {
      assert forall step :: step in Init(steps) ==> step in steps;
      assert Last(steps) in steps;
      StaysUp(s, Init(steps));
    }
  }

  /**
   While the extension is up, any thread can count itself in and, whatever other threads do meanwhile, its look
   at the flag lets it enter.
   */
  lemma EntersWhileUp(s: State, t: int, between: seq<Step>)
    requires Invariant(s) && s.main == Up && t !in s.threads
    requires EnabledAll(Apply(s, CountIn(t)), between)
    requires forall step :: step in between ==> !About(step, t) && step != ClearFlag
    ensures var waiting := Run(Apply(s, CountIn(t)), between);
            && Enabled(s, CountIn(t)) && Enabled(waiting, LookAtFlag(t))
            && t in InsideThreads(Apply(waiting, LookAtFlag(t)))
  {
    var registered := Apply(s, CountIn(t));
    OthersLeaveAlone(registered, between, t);
    StaysUp(registered, between);
  }

  /** And it stays inside until it counts itself out. */
  lemma {:induction false} StaysInside(s: State, steps: seq<Step>, t: int)
    requires t in InsideThreads(s) && EnabledAll(s, steps) && CountOut(t) !in steps
    ensures t in InsideThreads(Run(s, steps))
  {
    if steps != [] {
      assert forall step :: step in Init(steps) ==> step in steps;
      assert Last(steps) in steps;
      StaysInside(s, Init(steps), t);
    }
  }
}
