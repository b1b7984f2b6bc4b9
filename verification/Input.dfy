/** The GUI event queue: a ring written by interrupt handlers and emptied by
    one dispatcher task, with a counting semaphore between them. */
module Input {
  import opened Machine

  const GUI_INPUT_EVENT_BUFFER_SIZE := 128
  const SIZE_MAX := 0xFFFF_FFFF

  datatype EventType = MouseMove | ButtonDown | ButtonUp | KeyDown | KeyUp

  datatype Event = Event(kind: EventType, x: int, y: int, detail: int)

  /** gui_input_next_index */
  function NextIndex(index: nat): nat {
    (index + 1) % GUI_INPUT_EVENT_BUFFER_SIZE
  }

  function PreviousIndex(index: nat): nat {
    (index + GUI_INPUT_EVENT_BUFFER_SIZE - 1) % GUI_INPUT_EVENT_BUFFER_SIZE
  }

  /** The waiting events of a ring, oldest first. */
  function Waiting(ring: seq<Event>, read: nat, write: nat): seq<Event>
    requires read < |ring| && write < |ring|
  {
    if read <= write then ring[read..write] else ring[read..] + ring[..write]
  }

  datatype Outcome = Dropped | Replaced | Added

  lemma LastWaiting(ring: seq<Event>, read: nat, write: nat)
    requires |ring| == GUI_INPUT_EVENT_BUFFER_SIZE && read < |ring| && write < |ring|
    ensures |Waiting(ring, read, write)| < GUI_INPUT_EVENT_BUFFER_SIZE
    ensures Waiting(ring, read, write) == [] <==> read == write
    ensures |Waiting(ring, read, write)| == GUI_INPUT_EVENT_BUFFER_SIZE - 1 <==> NextIndex(write) == read
    ensures read != write ==> Waiting(ring, read, write)[|Waiting(ring, read, write)| - 1] == ring[PreviousIndex(write)]
  {
    hide NextIndex, PreviousIndex;
    Neighbours(write);
    if write == 0 && read != 0 {
      assert ring[read..] + ring[..0] == ring[read..];
    }
  }

  lemma Neighbours(i: nat)
    requires i < GUI_INPUT_EVENT_BUFFER_SIZE
    ensures NextIndex(i) == if i == GUI_INPUT_EVENT_BUFFER_SIZE - 1 then 0 else i + 1
    ensures PreviousIndex(i) == if i == 0 then GUI_INPUT_EVENT_BUFFER_SIZE - 1 else i - 1
  {
  }

  lemma ReplaceLast(ring: seq<Event>, read: nat, write: nat, e: Event)
    requires |ring| == GUI_INPUT_EVENT_BUFFER_SIZE && read < |ring| && write < |ring| && read != write
    ensures
      var queue := Waiting(ring, read, write);
      queue != [] && Waiting(ring[PreviousIndex(write) := e], read, write) == queue[..|queue| - 1] + [e]
  {
    if write == 0 {
      var n := |ring| - 1;
      assert PreviousIndex(write) == n;
      assert ring[n := e][read..] == ring[read..n] + [e];
    } else {
      assert PreviousIndex(write) == write - 1;
    }
  }

  lemma AddLast(ring: seq<Event>, read: nat, write: nat, e: Event)
    requires |ring| == GUI_INPUT_EVENT_BUFFER_SIZE && read < |ring| && write < |ring| && NextIndex(write) != read
    ensures Waiting(ring[write := e], read, NextIndex(write)) == Waiting(ring, read, write) + [e]
  {
    if write == |ring| - 1 {
      assert NextIndex(write) == 0;
    } else {
      assert NextIndex(write) == write + 1;
    }
  }

  lemma DropFirst(ring: seq<Event>, read: nat, write: nat)
    requires |ring| == GUI_INPUT_EVENT_BUFFER_SIZE && read < |ring| && write < |ring| && read != write
    ensures Waiting(ring, read, write) == [ring[read]] + Waiting(ring, NextIndex(read), write)
  {
    if read == |ring| - 1 {
      assert NextIndex(read) == 0;
    } else {
      assert NextIndex(read) == read + 1;
    }
  }

  class Ring {
    const events: array<Event>
    var readIndex: nat
    var writeIndex: nat
    var droppedEvents: u32

    predicate Valid()
      reads this
    {
      events.Length == GUI_INPUT_EVENT_BUFFER_SIZE && readIndex < events.Length && writeIndex < events.Length
    }

    constructor ()
      ensures Valid() && Queue() == [] && fresh(events)
    {
      events := new Event[GUI_INPUT_EVENT_BUFFER_SIZE](_ => Event(MouseMove, 0, 0, 0));
      readIndex, writeIndex, droppedEvents := 0, 0, 0;
    }

    function Queue(): (q: seq<Event>)
      requires Valid()
      reads this, events
    {
      Waiting(events[..], readIndex, writeIndex)
    }

    /** gui_input_push, up to the release of the lock. */
    method Push(e: Event) returns (r: Outcome)
      requires Valid()
      modifies this`writeIndex, this`droppedEvents, events
      ensures Valid()
      ensures r == Replaced <==> e.kind == MouseMove && old(Queue()) != [] && old(Queue()[|Queue()| - 1].kind) == MouseMove
      ensures r == Dropped <==> r != Replaced && |old(Queue())| == 127
      ensures r == Replaced ==> old(Queue()) != [] && Queue() == old(Queue()[..|Queue()| - 1]) + [e]
      ensures r == Added ==> Queue() == old(Queue()) + [e]
      ensures r == Dropped ==> Queue() == old(Queue())
      ensures droppedEvents == if r == Dropped then (old(droppedEvents) + 1) % 0x1_0000_0000 else old(droppedEvents)
    {
      hide Waiting;
      LastWaiting(events[..], readIndex, writeIndex);
      ghost var ring := events[..];
      if e.kind == MouseMove && readIndex != writeIndex {
        var previousIndex := PreviousIndex(writeIndex);
        if events[previousIndex].kind == MouseMove {
          ReplaceLast(ring, readIndex, writeIndex, e);
          events[previousIndex] := e;
          assert events[..] == ring[previousIndex := e];
          return Replaced;
        }
      }
      var next := NextIndex(writeIndex);
      if next == readIndex {
        droppedEvents := (droppedEvents + 1) % 0x1_0000_0000;
        return Dropped;
      }
      AddLast(ring, readIndex, writeIndex, e);
      events[writeIndex] := e;
      assert events[..] == ring[writeIndex := e];
      writeIndex := next;
      return Added;
    }

    /** gui_input_pop */
    method Pop() returns (ok: bool, e: Event)
      requires Valid()
      modifies this`readIndex
      ensures Valid() && ok == (old(Queue()) != [])
      ensures ok ==> old(Queue()) == [e] + Queue()
      ensures !ok ==> Queue() == old(Queue())
    {
      hide Waiting;
      LastWaiting(events[..], readIndex, writeIndex);
      if readIndex == writeIndex {
        return false, Event(MouseMove, 0, 0, 0);
      }
      DropFirst(events[..], readIndex, writeIndex);
      e := events[readIndex];
      readIndex := NextIndex(readIndex);
      ok := true;
    }
  }

  /* ---------- what becomes of accepted events ---------- */

  /** The events whose mark is set, in order. */
  function Kept(xs: seq<Event>, marks: seq<bool>): seq<Event>
    requires |xs| == |marks|
  {
    if xs == [] then []
    else Kept(xs[..|xs| - 1], marks[..|marks| - 1]) + if marks[|marks| - 1] then [xs[|xs| - 1]] else []
  }

  /** Only a move that is directly followed by another move is left out. */
  predicate OnlyMovesSkipped(xs: seq<Event>, marks: seq<bool>) {
    && |xs| == |marks|
    && forall i :: 0 <= i < |xs| && !marks[i] ==> i + 1 < |xs| && xs[i].kind == MouseMove && xs[i + 1].kind == MouseMove
  }

  predicate Steady(e: Event) {
    e.kind != MouseMove
  }

  function SteadyOnes(xs: seq<Event>): seq<Event> {
    if xs == [] then [] else SteadyOnes(xs[..|xs| - 1]) + if Steady(xs[|xs| - 1]) then [xs[|xs| - 1]] else []
  }

  lemma SteadyAppend(xs: seq<Event>, e: Event)
    ensures SteadyOnes(xs + [e]) == SteadyOnes(xs) + if Steady(e) then [e] else []
  {
    assert (xs + [e])[..|xs|] == xs;
  }

  /** Button and key events are neither lost nor reordered. */
  lemma {:induction false} SteadyKept(xs: seq<Event>, marks: seq<bool>)
    requires |xs| == |marks| && forall i :: 0 <= i < |xs| && !marks[i] ==> xs[i].kind == MouseMove
    ensures SteadyOnes(Kept(xs, marks)) == SteadyOnes(xs)
  {
    if xs != [] {
      var n := |xs| - 1;
      SteadyKept(xs[..n], marks[..n]);
      if marks[n] {
        SteadyAppend(Kept(xs[..n], marks[..n]), xs[n]);
      } else {
        assert Kept(xs, marks) == Kept(xs[..n], marks[..n]);
      }
    }
  }

  lemma KeptAppend(xs: seq<Event>, marks: seq<bool>, e: Event)
    requires |xs| == |marks|
    ensures Kept(xs + [e], marks + [true]) == Kept(xs, marks) + [e]
  {
    assert (xs + [e])[..|xs|] == xs && (marks + [true])[..|marks|] == marks;
  }

  /** The last accepted event, if it is still waiting, is the one replaced. */
  lemma KeptReplace(xs: seq<Event>, marks: seq<bool>, e: Event)
    requires |xs| == |marks| > 0 && marks[|marks| - 1]
    ensures Kept(xs + [e], marks[|marks| - 1 := false] + [true]) == Kept(xs[..|xs| - 1], marks[..|marks| - 1]) + [e]
  {
    var n := |xs| - 1;
    var m := marks[n := false];
    KeptAppend(xs, m, e);
    assert m[..n] == marks[..n];
    assert Kept(xs, m) == Kept(xs[..n], m[..n]) + [];
  }

  /* ---------- which events are accepted ---------- */

  /** One call of publish: how many events were waiting, and its answer. */
  datatype Attempt = Attempt(e: Event, waiting: nat, taken: bool)

  function Accepted(log: seq<Attempt>): seq<Event> {
    if log == [] then []
    else Accepted(log[..|log| - 1]) + if log[|log| - 1].taken then [log[|log| - 1].e] else []
  }

  /** Events are refused only behind 127 waiting ones. */
  predicate RefusedWhenFull(log: seq<Attempt>) {
    forall i :: 0 <= i < |log| && !log[i].taken ==> log[i].waiting == 127
  }

  lemma AcceptedAppend(log: seq<Attempt>, a: Attempt)
    ensures Accepted(log + [a]) == Accepted(log) + if a.taken then [a.e] else []
  {
    assert (log + [a])[..|log|] == log;
  }

  /** An event published while fewer than 127 wait is accepted. */
  lemma {:induction false} RoomMeansAccepted(log: seq<Attempt>, i: nat)
    requires RefusedWhenFull(log) && i < |log| && log[i].waiting < 127
    ensures log[i].e in Accepted(log)
  {
    var n := |log| - 1;
    if i < n {
      RoomMeansAccepted(log[..n], i);
    }
  }

  /* ---------- the protocol ---------- */

  /** What a processor can do between two other processors' actions. */
  datatype Step = Publish(e: Event) | Signal | Wait | Take

  /** The events that the steps publish, in order. */
  function Published(steps: seq<Step>): seq<Event> {
    if steps == [] then []
    else Published(steps[..|steps| - 1]) + if steps[|steps| - 1].Publish? then [steps[|steps| - 1].e] else []
  }

  function EventsOf(log: seq<Attempt>): seq<Event> {
    seq(|log|, i requires 0 <= i < |log| => log[i].e)
  }

  lemma OneMoreEvent(log: seq<Attempt>, a: Attempt)
    ensures EventsOf(log + [a]) == EventsOf(log) + [a.e]
  {
  }

  lemma NothingLogged(log: seq<Attempt>)
    ensures EventsOf(log[|log|..]) == []
  {
  }

  lemma RefusedMeansFull(log: seq<Attempt>)
    requires RefusedWhenFull(log)
    ensures forall i :: 0 <= i < |log| && !log[i].taken ==> log[i].waiting == 127
  {
  }

  class System {
    const ring: Ring
    var permits: nat
    var unsignalled: nat             // publishers between their insert and their signal
    var holding: bool                // the dispatcher has a permit and has not popped
    ghost var log: seq<Attempt>      // every publish so far
    ghost var accepted: seq<Event>   // pushes that returned true
    ghost var marks: seq<bool>
    ghost var delivered: seq<Event>  // what the dispatcher popped

    ghost predicate Valid()
      reads this, ring, ring.events
    {
      && ring.Valid()
      && |ring.Queue()| == permits + unsignalled + (if holding then 1 else 0)
      && OnlyMovesSkipped(accepted, marks)
      && Kept(accepted, marks) == delivered + ring.Queue()
      && accepted == Accepted(log) && RefusedWhenFull(log)
    }

    constructor ()
      ensures Valid() && fresh(ring) && fresh(ring.events) && accepted == [] && delivered == [] && log == []
    {
      ring := new Ring();
      permits, unsignalled, holding := 0, 0, false;
      log, accepted, marks, delivered := [], [], [], [];
    }

    /** A publisher's critical section. */
    method PublishStep(e: Event) returns (r: Outcome)
      requires Valid()
      modifies this`unsignalled, this`log, this`accepted, this`marks, ring, ring.events
      ensures Valid()
      ensures r == Replaced <==> e.kind == MouseMove && old(ring.Queue()) != [] && old(ring.Queue()[|ring.Queue()| - 1].kind) == MouseMove
      ensures r == Dropped <==> r != Replaced && |old(ring.Queue())| == 127
      ensures r == Replaced ==> old(ring.Queue()) != [] && ring.Queue() == old(ring.Queue()[..|ring.Queue()| - 1]) + [e]
      ensures r == Added ==> ring.Queue() == old(ring.Queue()) + [e]
      ensures r == Dropped ==> ring.Queue() == old(ring.Queue())
      ensures log == old(log) + [Attempt(e, |old(ring.Queue())|, r != Dropped)]
      ensures accepted == if r == Dropped then old(accepted) else old(accepted) + [e]
      ensures unsignalled == old(unsignalled) + if r == Added then 1 else 0
    {
      hide Waiting, Kept, OnlyMovesSkipped, Accepted;
      ghost var queue := ring.Queue();
      LastWaiting(ring.events[..], ring.readIndex, ring.writeIndex);
      r := ring.Push(e);
      AcceptedAppend(log, Attempt(e, |queue|, r != Dropped));
      log := log + [Attempt(e, |queue|, r != Dropped)];
      match r {
        case Dropped =>
        case Added =>
          AddedKeeps(accepted, marks, delivered, queue, e);
          accepted, marks, unsignalled := accepted + [e], marks + [true], unsignalled + 1;
        case Replaced =>
          ReplacedKeeps(accepted, marks, delivered, queue, e);
          accepted, marks := accepted + [e], marks[|marks| - 1 := false] + [true];
      }
    }

    /** The signal that follows an insert. The count never reaches the value at
        which semaphore_signal gives up. */
    method SignalStep() returns (ok: bool)
      requires Valid() && unsignalled > 0
      modifies this`permits, this`unsignalled
      ensures Valid() && ok && permits == old(permits) + 1 && unsignalled == old(unsignalled) - 1
    {
      hide Waiting, Kept;
      LastWaiting(ring.events[..], ring.readIndex, ring.writeIndex);
      ok := permits != SIZE_MAX;
      if ok {
        permits := permits + 1;
      }
      unsignalled := unsignalled - 1;
    }

    /** The dispatcher asks for a permit; without one it stays blocked. */
    method WaitStep() returns (ok: bool)
      requires Valid() && !holding
      modifies this`permits, this`holding
      ensures Valid() && ok == (old(permits) > 0) && holding == ok && permits == old(permits) - if ok then 1 else 0
    {
      hide Waiting, Kept;
      ok := permits != 0;
      if ok {
        permits, holding := permits - 1, true;
      }
    }

    /** The pop after a wait: the queue is never empty then. */
    method TakeStep() returns (ok: bool, e: Event)
      requires Valid() && holding
      modifies this`holding, this`delivered, ring
      ensures Valid() && ok && old(ring.Queue()) == [e] + ring.Queue() && delivered == old(delivered) + [e] && !holding
    {
      hide Waiting, Kept;
      ok, e := ring.Pop();
      delivered, holding := delivered + [e], false;
    }

    /** Any interleaving of publishers and the dispatcher; a step that is not
        possible in the state it meets does not happen. What is delivered, then
        what waits, is what was accepted, without the moves that were overtaken. */
    method Run(steps: seq<Step>) returns (taken: nat)
      requires Valid()
      modifies this, ring, ring.events
      ensures Valid()
      ensures taken == |delivered| - |old(delivered)| && old(delivered) <= delivered
      ensures exists m: seq<bool> :: OnlyMovesSkipped(accepted, m) && Kept(accepted, m) == delivered + ring.Queue()
      ensures SteadyOnes(accepted) == SteadyOnes(delivered + ring.Queue())
      ensures old(log) <= log && EventsOf(log[|old(log)|..]) == Published(steps)
      ensures accepted == Accepted(log) && forall i :: 0 <= i < |log| && !log[i].taken ==> log[i].waiting == 127
    {
      hide Waiting, Kept, OnlyMovesSkipped, SteadyOnes, Accepted, EventsOf, RefusedWhenFull;
      taken := 0;
      NothingLogged(log);
      for i := 0 to |steps|
        invariant Valid() && taken == |delivered| - |old(delivered)| && old(delivered) <= delivered
        invariant old(log) <= log && EventsOf(log[|old(log)|..]) == Published(steps[..i])
      {
        assert steps[..i + 1][..i] == steps[..i];
        ghost var since := log[|old(log)|..];
        match steps[i] {
          case Publish(e) =>
            ghost var waiting := |ring.Queue()|;
            var r := PublishStep(e);
            OneMoreEvent(since, Attempt(e, waiting, r != Dropped));
            assert log[|old(log)|..] == since + [Attempt(e, waiting, r != Dropped)];
          case Signal =>
            if unsignalled > 0 {
              var ok := SignalStep();
            }
          case Wait =>
            if !holding {
              var ok := WaitStep();
            }
          case Take =>
            if holding {
              var ok, e := TakeStep();
              taken := taken + 1;
            }
        }
      }
      assert steps[..|steps|] == steps;
      RefusedMeansFull(log);
      SkippedAreMoves(accepted, marks);
      SteadyKept(accepted, marks);
    }
  }

  lemma SkippedAreMoves(xs: seq<Event>, marks: seq<bool>)
    requires OnlyMovesSkipped(xs, marks)
    ensures |xs| == |marks| && forall i :: 0 <= i < |xs| && !marks[i] ==> xs[i].kind == MouseMove
  {
  }

  lemma AddedKeeps(xs: seq<Event>, marks: seq<bool>, delivered: seq<Event>, queue: seq<Event>, e: Event)
    requires OnlyMovesSkipped(xs, marks) && Kept(xs, marks) == delivered + queue
    ensures OnlyMovesSkipped(xs + [e], marks + [true]) && Kept(xs + [e], marks + [true]) == delivered + (queue + [e])
  {
    hide Kept;
    KeptAppend(xs, marks, e);
  }

  lemma ReplacedKeeps(xs: seq<Event>, marks: seq<bool>, delivered: seq<Event>, queue: seq<Event>, e: Event)
    requires OnlyMovesSkipped(xs, marks) && Kept(xs, marks) == delivered + queue
    requires e.kind == MouseMove && queue != [] && queue[|queue| - 1].kind == MouseMove
    ensures |marks| > 0
    ensures
      var m := marks[|marks| - 1 := false] + [true];
      OnlyMovesSkipped(xs + [e], m) && Kept(xs + [e], m) == delivered + (queue[..|queue| - 1] + [e])
  {
    hide Kept;
    LastKept(xs, marks, delivered, queue);
    KeptReplace(xs, marks, e);
  }

  lemma LastKept(xs: seq<Event>, marks: seq<bool>, delivered: seq<Event>, queue: seq<Event>)
    requires OnlyMovesSkipped(xs, marks) && Kept(xs, marks) == delivered + queue && queue != []
    ensures |xs| > 0 && marks[|marks| - 1] && xs[|xs| - 1] == queue[|queue| - 1]
    ensures Kept(xs[..|xs| - 1], marks[..|marks| - 1]) == delivered + queue[..|queue| - 1]
  {
    hide Kept;
    KeptLast(xs, marks);
    SplitLast(Kept(xs[..|xs| - 1], marks[..|marks| - 1]), xs[|xs| - 1], delivered, queue);
  }

  lemma KeptLast(xs: seq<Event>, marks: seq<bool>)
    requires OnlyMovesSkipped(xs, marks) && Kept(xs, marks) != []
    ensures |xs| > 0 && marks[|marks| - 1]
    ensures Kept(xs, marks) == Kept(xs[..|xs| - 1], marks[..|marks| - 1]) + [xs[|xs| - 1]]
  {
  }

  lemma SplitLast<T>(init: seq<T>, last: T, xs: seq<T>, ys: seq<T>)
    requires init + [last] == xs + ys && ys != []
    ensures init == xs + ys[..|ys| - 1] && last == ys[|ys| - 1]
  {
    assert init == (init + [last])[..|init|] && last == (init + [last])[|init|];
    assert (xs + ys)[..|xs| + |ys| - 1] == xs + ys[..|ys| - 1];
  }
}
