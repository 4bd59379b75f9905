/**
 The bounded queue between the network threads and the engine's update. Between two flushes the accepted
 events are the first ones offered, and each handle that lost one is noted once, in the order of the losses.
 */
module EventQueue {
  import opened Bytes
  import opened ParserModel

  datatype Event = Event(handle: int, report: Action)

  /** What one side of the double buffer holds. */
  datatype Buffer = Buffer(events: seq<Event>, overflow: seq<int>)

  /** One push under the queue's lock, while the extension is active. */
  function PushTo(capacity: nat, b: Buffer, event: Event): (Buffer, bool) {
    if |b.events| >= capacity then
      (if event.handle in b.overflow then b else b.(overflow := b.overflow + [event.handle]), false)
    else (b.(events := b.events + [event]), true)
  }

  // ---------- a whole window between two flushes ----------

  /** The distinct handles of some events, in order of first appearance. */
  function Handles(events: seq<Event>): seq<int> {
    if events == [] then []
    else if Last(events).handle in Handles(Init(events)) then Handles(Init(events))
    else Handles(Init(events)) + [Last(events).handle]
  }

  lemma {:induction false} HandlesExact(events: seq<Event>)
    ensures Distinct(Handles(events))
    ensures forall h :: h in Handles(events) <==> exists i :: 0 <= i < |events| && events[i].handle == h
  {
    if events != [] {
      HandlesExact(Init(events));
      forall i | 0 <= i < |events|
        ensures events[i].handle in Handles(events)
      {
        if i < |events| - 1 {
          assert Init(events)[i] == events[i];
        }
      }
      forall h | h in Handles(events)
        ensures exists i :: 0 <= i < |events| && events[i].handle == h
      {
        if h in Handles(Init(events)) {
          var i :| 0 <= i < |Init(events)| && Init(events)[i].handle == h;
          assert events[i].handle == h;
        } else {
          assert events[|events| - 1].handle == h;
        }
      }
    }
  }

  /** Later losses only add notes behind the earlier ones: the notes stand in the order of the first losses. */
  lemma {:induction false} HandlesGrow(a: seq<Event>, b: seq<Event>)
    ensures Handles(a) <= Handles(a + b)
  {
    if b == [] {
      assert a + b == a;
    } else {
      HandlesGrow(a, Init(b));
      assert Init(a + b) == a + Init(b);
    }
  }

  function AcceptedOf(capacity: nat, window: seq<Event>): seq<Event> {
    window[..if |window| < capacity then |window| else capacity]
  }

  function LostOf(capacity: nat, window: seq<Event>): seq<Event> {
    window[if |window| < capacity then |window| else capacity..]
  }

  /** What the queue holds after a window of pushes. */
  function WindowResult(capacity: nat, window: seq<Event>): Buffer {
    Buffer(AcceptedOf(capacity, window), Handles(LostOf(capacity, window)))
  }

  /** Each push keeps the queue at the result of its window, and is accepted exactly while there is room. */
  lemma PushExtendsWindow(capacity: nat, window: seq<Event>, event: Event)
    ensures PushTo(capacity, WindowResult(capacity, window), event)
         == (WindowResult(capacity, window + [event]), |window| < capacity)
  {
    var longer := window + [event];
    if |window| < capacity {
      assert AcceptedOf(capacity, longer) == AcceptedOf(capacity, window) + [event];
      assert LostOf(capacity, longer) == [] && LostOf(capacity, window) == [];
    } else {
      assert AcceptedOf(capacity, longer) == AcceptedOf(capacity, window);
      assert LostOf(capacity, longer) == LostOf(capacity, window) + [event];
      InitLast(LostOf(capacity, window), event);
    }
  }

  /** An overflow note means the queue is full, is made once, and names exactly the handles that lost an event. */
  lemma OverflowExact(capacity: nat, window: seq<Event>)
    ensures var b := WindowResult(capacity, window);
            && b.events <= window && |b.events| == (if |window| < capacity then |window| else capacity)
            && (b.overflow != [] ==> |b.events| == capacity)
            && Distinct(b.overflow)
            && forall h :: h in b.overflow <==> exists i :: capacity <= i < |window| && window[i].handle == h
  {
    var lost := LostOf(capacity, window);
    HandlesExact(lost);
    forall i | capacity <= i < |window|
      ensures window[i].handle in Handles(lost)
    {
      assert lost[i - capacity] == window[i];
    }
    forall h | h in Handles(lost)
      ensures exists i :: capacity <= i < |window| && window[i].handle == h
    {
      var i :| 0 <= i < |lost| && lost[i].handle == h;
      assert window[capacity + i].handle == h;
    }
  }

  // ---------- the queue object ----------

  class SSEEventQueue {
    const capacity: nat
    var events: seq<Event>
    var eventsSwap: seq<Event>
    var overflowHandles: seq<int>
    var overflowSwap: seq<int>
    ghost var window: seq<Event>  // every push since the last swap

    ghost predicate Valid()
      reads this
    {
      Buffer(events, overflowHandles) == WindowResult(capacity, window)
    }

    constructor (capacity: nat)
      ensures Valid() && this.capacity == capacity && window == [] && events == [] && overflowHandles == []
      ensures eventsSwap == [] && overflowSwap == []
    {
      this.capacity := capacity;
      events, eventsSwap, overflowHandles, overflowSwap, window := [], [], [], [], [];
    }

    method Push(event: Event, active: bool) returns (accepted: bool)
      requires Valid()
      modifies this`events, this`overflowHandles, this`window
      ensures Valid()
      ensures window == if active then old(window) + [event] else old(window)
      ensures accepted == (active && |old(window)| < capacity)
    {
      if !active {
        return false;
      }
      PushExtendsWindow(capacity, window, event);
      window := window + [event];
      if |events| >= capacity {
        var noted := HasOverflowHandle(event.handle);
        if !noted {
          overflowHandles := overflowHandles + [event.handle];
        }
        return false;
      }
      events := events + [event];
      return true;
    }

    method HasOverflowHandle(handle: int) returns (found: bool)
      ensures found == (handle in overflowHandles)
    {
      for i := 0 to |overflowHandles|
        invariant handle !in overflowHandles[..i]
      {
        if overflowHandles[i] == handle {
          return true;
        }
        assert overflowHandles[..i + 1] == overflowHandles[..i] + [overflowHandles[i]];
      }
      assert overflowHandles[..|overflowHandles|] == overflowHandles;
      return false;
    }

    /** A flush takes the whole window and leaves an empty queue for the next one. */
    method Swap()
      requires Valid() && eventsSwap == [] && overflowSwap == []
      modifies this
      ensures Valid() && window == [] && events == [] && overflowHandles == []
      ensures Buffer(eventsSwap, overflowSwap) == WindowResult(capacity, old(window))
    {
      events, eventsSwap := eventsSwap, events;
      overflowHandles, overflowSwap := overflowSwap, overflowHandles;
      window := [];
    }

    /** The flush is over; its buffers are kept for the next one. */
    method Clear()
      requires Valid()
      modifies this`eventsSwap, this`overflowSwap
      ensures Valid() && eventsSwap == [] && overflowSwap == []
    {
      eventsSwap := [];
      overflowSwap := [];
    }
  }
}
