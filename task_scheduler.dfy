/** The timing wheel of the task scheduler (`TimeWheel` in
    task-scheduler/main.cpp).

    The wheel is a fixed array of `WHEEL_SIZE` slots, each holding the tasks
    due when the cursor reaches it. Adding a task with delay `d` appends it
    to slot `(current + d) % WHEEL_SIZE`; one tick of the run loop fires the
    current slot in insertion order, clears it and advances the cursor.
    Tasks are opaque identifiers: calling them is reported as firing them. */
module TaskScheduler {

  /** `WHEEL_SIZE`: the number of slots, one per millisecond of delay. */
  const WHEEL_SIZE: nat := 1000

  /** A scheduled callback, known only by its identifier. */
  type TaskId = int

  /** The wheel as a value: the task list of each slot and the cursor. */
  datatype Wheel = Wheel(slots: seq<seq<TaskId>>, current: nat)

  predicate WellFormed(w: Wheel)
  {
    |w.slots| == WHEEL_SIZE && w.current < WHEEL_SIZE
  }

  /** A wheel with every slot empty and the cursor at slot 0. */
  function Empty(): (w: Wheel)
    ensures WellFormed(w)
    ensures forall j :: 0 <= j < WHEEL_SIZE ==> w.slots[j] == []
  {
    Wheel(seq(WHEEL_SIZE, _ => []), 0)
  }

  /** The slot a task added with `delay` at cursor `current` lands in. */
  function SlotFor(current: nat, delay: nat): (s: nat)
    ensures s < WHEEL_SIZE
  {
    (current + delay) % WHEEL_SIZE
  }

  /** The number of ticks, starting at cursor `current`, before the tick
      that fires slot `j`. */
  function Distance(current: nat, j: nat): nat
    requires current < WHEEL_SIZE && j < WHEEL_SIZE
  {
    if current <= j then j - current else j + WHEEL_SIZE - current
  }

  /** `add_task`: `task` appended to the end of its slot. */
  function Scheduled(w: Wheel, delay: nat, task: TaskId): (w': Wheel)
    requires WellFormed(w)
    ensures WellFormed(w') && w'.current == w.current
  {
    var s := SlotFor(w.current, delay);
    w.(slots := w.slots[s := w.slots[s] + [task]])
  }

  /** The tasks one tick fires: the current slot, in insertion order. */
  function Due(w: Wheel): seq<TaskId>
    requires WellFormed(w)
  {
    w.slots[w.current]
  }

  /** The wheel after one tick: the current slot cleared, the cursor
      advanced modulo `WHEEL_SIZE`. */
  function Advanced(w: Wheel): (w': Wheel)
    requires WellFormed(w)
    ensures WellFormed(w')
  {
    Wheel(w.slots[w.current := []], (w.current + 1) % WHEEL_SIZE)
  }

  /** The wheel after `n` ticks. */
  function AfterTicks(w: Wheel, n: nat): (w': Wheel)
    requires WellFormed(w)
    ensures WellFormed(w')
  {
    if n == 0 then w else Advanced(AfterTicks(w, n - 1))
  }

  /** The batches of tasks fired by `n` ticks, one batch per tick. */
  function Fired(w: Wheel, n: nat): (b: seq<seq<TaskId>>)
    requires WellFormed(w)
    ensures |b| == n
  {
    if n == 0 then [] else Fired(w, n - 1) + [Due(AfterTicks(w, n - 1))]
  }

  /** Counting ticks from the cursor reaches each slot exactly once per pass. */
  lemma DistanceOfSlot(current: nat, n: nat, j: nat)
    requires current < WHEEL_SIZE && n < WHEEL_SIZE && j < WHEEL_SIZE
    ensures (current + n) % WHEEL_SIZE == j <==> Distance(current, j) == n
  {
  }

  /** The wheel after `n <= WHEEL_SIZE` ticks: every slot passed is left
      empty, every other slot untouched, and the cursor has moved `n` slots. */
  lemma {:induction false} PassState(w: Wheel, n: nat)
    requires WellFormed(w) && n <= WHEEL_SIZE
    ensures AfterTicks(w, n).current == (w.current + n) % WHEEL_SIZE
    ensures forall j :: 0 <= j < WHEEL_SIZE ==>
      AfterTicks(w, n).slots[j] == if Distance(w.current, j) < n then [] else w.slots[j]
  {
    if n > 0 {
      PassState(w, n - 1);
      var a := AfterTicks(w, n - 1);
      var k := (w.current + n - 1) % WHEEL_SIZE;
      assert a.current == k;
      assert AfterTicks(w, n).current == (w.current + n) % WHEEL_SIZE by {
        CursorStep(w.current, n - 1);
      }
      forall j | 0 <= j < WHEEL_SIZE
        ensures AfterTicks(w, n).slots[j] == if Distance(w.current, j) < n then [] else w.slots[j]
      {
        DistanceOfSlot(w.current, n - 1, j);
      }
    }
  }

  /** Advancing the cursor `n + 1` slots is advancing it `n` slots and then one. */
  lemma CursorStep(current: nat, n: nat)
    requires current < WHEEL_SIZE && n < WHEEL_SIZE
    ensures ((current + n) % WHEEL_SIZE + 1) % WHEEL_SIZE == (current + n + 1) % WHEEL_SIZE
  {
  }

  /** One pass of the wheel: within `n <= WHEEL_SIZE` ticks, tick `i` fires
      exactly the slot `i` positions past the starting cursor, as it was at
      the start. */
  lemma {:induction false} OnePass(w: Wheel, n: nat)
    requires WellFormed(w) && n <= WHEEL_SIZE
    ensures forall i :: 0 <= i < n ==>
      Fired(w, n)[i] == w.slots[(w.current + i) % WHEEL_SIZE]
  {
    if n > 0 {
      OnePass(w, n - 1);
      PassState(w, n - 1);
      var k := (w.current + n - 1) % WHEEL_SIZE;
      DistanceOfSlot(w.current, n - 1, k);
      assert Due(AfterTicks(w, n - 1)) == w.slots[k];
    }
  }

  /** Exact firing time: a task not yet on the wheel, added with delay
      `d < WHEEL_SIZE`, fires in the `(d+1)`-th following tick and in no
      other of the next `WHEEL_SIZE` ticks, and it fires once there. */
  lemma FiresOnceAtDelay(w: Wheel, d: nat, t: TaskId)
    requires WellFormed(w) && d < WHEEL_SIZE
    requires forall j :: 0 <= j < WHEEL_SIZE ==> t !in w.slots[j]
    ensures forall i :: 0 <= i < WHEEL_SIZE ==>
      (t in Fired(Scheduled(w, d, t), WHEEL_SIZE)[i] <==> i == d)
    ensures multiset(Fired(Scheduled(w, d, t), WHEEL_SIZE)[d])[t] == 1
  {
    var w' := Scheduled(w, d, t);
    var s := SlotFor(w.current, d);
    OnePass(w', WHEEL_SIZE);
    forall i | 0 <= i < WHEEL_SIZE
      ensures t in Fired(w', WHEEL_SIZE)[i] <==> i == d
    {
      var k := (w.current + i) % WHEEL_SIZE;
      DistanceOfSlot(w.current, i, k);
      DistanceOfSlot(w.current, d, k);
      assert Fired(w', WHEEL_SIZE)[i] == w'.slots[k];
    }
    assert Fired(w', WHEEL_SIZE)[d] == w.slots[s] + [t];
    assert multiset(w.slots[s])[t] == 0;
  }

  /** Delays that differ by a multiple of `WHEEL_SIZE` land in the same slot:
      a delay of `d + k * WHEEL_SIZE` fires as if it were `d`. */
  lemma AliasedDelays(w: Wheel, d: nat, k: nat, t: TaskId)
    requires WellFormed(w)
    ensures SlotFor(w.current, d + k * WHEEL_SIZE) == SlotFor(w.current, d)
    ensures Scheduled(w, d + k * WHEEL_SIZE, t) == Scheduled(w, d, t)
  {
  }

  /** A request to `add_task`: a delay and the task. */
  datatype Request = Request(delay: nat, task: TaskId)

  /** The requests `reqs`, made in order at one cursor position. */
  function ScheduledAll(w: Wheel, reqs: seq<Request>): (w': Wheel)
    requires WellFormed(w)
    ensures WellFormed(w') && w'.current == w.current
  {
    if reqs == [] then w
    else
      var last := reqs[|reqs| - 1];
      Scheduled(ScheduledAll(w, reqs[..|reqs| - 1]), last.delay, last.task)
  }

  /** The tasks of `reqs`, in request order, that land in slot `j`. */
  function RoutedTo(reqs: seq<Request>, current: nat, j: nat): seq<TaskId>
  {
    if reqs == [] then []
    else
      var last := reqs[|reqs| - 1];
      RoutedTo(reqs[..|reqs| - 1], current, j)
        + if SlotFor(current, last.delay) == j then [last.task] else []
  }

  /** Insertion order: after a series of adds, each slot holds the tasks it
      held before followed by the tasks routed to it, in the order they were
      added. */
  lemma {:induction false} ScheduledAllSlots(w: Wheel, reqs: seq<Request>)
    requires WellFormed(w)
    ensures forall j :: 0 <= j < WHEEL_SIZE ==>
      ScheduledAll(w, reqs).slots[j] == w.slots[j] + RoutedTo(reqs, w.current, j)
  {
    if reqs != [] {
      var init := reqs[..|reqs| - 1];
      ScheduledAllSlots(w, init);
      forall j | 0 <= j < WHEEL_SIZE
        ensures ScheduledAll(w, reqs).slots[j] == w.slots[j] + RoutedTo(reqs, w.current, j)
      {
        var last := reqs[|reqs| - 1];
        if SlotFor(w.current, last.delay) == j {
          assert ScheduledAll(w, reqs).slots[j]
              == (w.slots[j] + RoutedTo(init, w.current, j)) + [last.task];
        }
      }
    }
  }

  /** Tasks added to the same slot fire in the order they were added: in one
      pass, the tick `i` positions past the cursor fires the slot's earlier
      tasks followed by the requests routed there, in request order. */
  lemma PassFiresInInsertionOrder(w: Wheel, reqs: seq<Request>)
    requires WellFormed(w)
    ensures forall i :: 0 <= i < WHEEL_SIZE ==>
      Fired(ScheduledAll(w, reqs), WHEEL_SIZE)[i]
        == w.slots[(w.current + i) % WHEEL_SIZE]
           + RoutedTo(reqs, w.current, (w.current + i) % WHEEL_SIZE)
  {
    ScheduledAllSlots(w, reqs);
    OnePass(ScheduledAll(w, reqs), WHEEL_SIZE);
  }

  /** Delays 0, 999 and 1000 on a new wheel: the first tick fires the
      delay-0 task and then the delay-1000 task, which aliases to the same
      slot; the last tick of the pass fires the delay-999 task. */
  lemma OutOfRangeDelayFiresEarly()
    ensures Fired(ScheduledAll(Empty(), [Request(0, 1), Request(999, 2), Request(1000, 3)]), WHEEL_SIZE)[0]
         == [1, 3]
    ensures Fired(ScheduledAll(Empty(), [Request(0, 1), Request(999, 2), Request(1000, 3)]), WHEEL_SIZE)[999]
         == [2]
  {
    var reqs := [Request(0, 1), Request(999, 2), Request(1000, 3)];
    var r1, r2 := reqs[..1], reqs[..2];
    assert r2[..1] == r1 && r1[..0] == [];
    assert SlotFor(0, 0) == 0 && SlotFor(0, 999) == 999 && SlotFor(0, 1000) == 0;
    assert RoutedTo(r1, 0, 0) == [1] && RoutedTo(r1, 0, 999) == [];
    assert RoutedTo(r2, 0, 0) == [1] && RoutedTo(r2, 0, 999) == [2];
    assert RoutedTo(reqs, 0, 0) == [1, 3] && RoutedTo(reqs, 0, 999) == [2];
    FiringTick(Empty(), reqs, 0);
    FiringTick(Empty(), reqs, 999);
  }

  /** `PassFiresInInsertionOrder` for one tick. */
  lemma FiringTick(w: Wheel, reqs: seq<Request>, i: nat)
    requires WellFormed(w) && w.current == 0 && i < WHEEL_SIZE
    ensures Fired(ScheduledAll(w, reqs), WHEEL_SIZE)[i] == w.slots[i] + RoutedTo(reqs, 0, i)
  {
    PassFiresInInsertionOrder(w, reqs);
  }

  /** `TimeWheel`: the slot vectors `_wheel` and the cursor `_current_slot`. */
  class TimeWheel {
    const wheel: array<seq<TaskId>>
    var currentSlot: nat

    ghost predicate Valid()
      reads this
    {
      wheel.Length == WHEEL_SIZE && currentSlot < WHEEL_SIZE
    }

    /** The wheel's current value. */
    ghost function State(): (w: Wheel)
      reads this, wheel
      requires Valid()
      ensures WellFormed(w)
    {
      Wheel(wheel[..], currentSlot)
    }

    /** `WHEEL_SIZE` empty slots and the cursor at 0. */
    constructor ()
      ensures Valid() && fresh(wheel)
      ensures State() == Empty()
    {
      wheel := new seq<TaskId>[WHEEL_SIZE](_ => []);
      currentSlot := 0;
      new;
      assert wheel[..] == Empty().slots;
    }

    /** `add_task`: appends `task` to slot `(currentSlot + delay) % WHEEL_SIZE`;
        every other slot and the cursor are unchanged. */
    method AddTask(delay: nat, task: TaskId)
      requires Valid()
      modifies wheel
      ensures Valid()
      ensures State() == Scheduled(old(State()), delay, task)
    {
      var slot := (currentSlot + delay) % WHEEL_SIZE;
      wheel[slot] := wheel[slot] + [task];
    }

    /** One iteration of the `run` loop: fires the tasks of the current slot
        in insertion order, clears the slot and advances the cursor. */
    method Tick() returns (fired: seq<TaskId>)
      requires Valid()
      modifies this, wheel
      ensures Valid()
      ensures fired == Due(old(State()))
      ensures State() == Advanced(old(State()))
    {
      var tasks := wheel[currentSlot];
      fired := [];
      for i := 0 to |tasks|
        invariant fired == tasks[..i]
      {
        fired := fired + [tasks[i]];
      }
      wheel[currentSlot] := [];
      currentSlot := (currentSlot + 1) % WHEEL_SIZE;
    }
  }
}
