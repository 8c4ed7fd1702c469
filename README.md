# Low-latency building blocks: ring buffer, timing wheel, log buffer

This project models three in-memory data structures from a collection of
low-latency C++ examples. It proves what each one promises about its state
and its results.

- **RingBuffer** (`MessageProcessing`, message_processing.dfy). This is the
  single-producer/single-consumer circular queue that carries `Message`
  records from the producer thread to the consumer thread. It has `Size`
  slots, a write cursor and a read cursor. The buffer is empty when the
  cursors are equal. It is full when advancing the write cursor would reach
  the read cursor, so one slot always stays unused. The class keeps the
  array and both cursors. A ghost `Contents` holds the queue they represent.
  `Push` and `Pop` are proved to append to that queue and to remove its head.
  `Run` replays a series of calls on the abstract queue. `RunIsFifo` proves
  that the popped items followed by the held ones are exactly the accepted
  pushes, in order. `Replay` proves that the class behaves as `Run` does.
- **TimeWheel** (`TaskScheduler`, task_scheduler.dfy). This is the timing
  wheel: 1000 slots of task lists and a cursor. `AddTask` appends a task to
  slot `(current + delay) % 1000`. `Tick` is one iteration of the run loop.
  It fires the current slot in insertion order, clears the slot and advances
  the cursor. Tasks are opaque identifiers. The value type `Wheel` and the
  functions `Scheduled`, `Advanced`, `AfterTicks` and `Fired` describe the
  wheel's behaviour. The lemmas prove three things about them: the exact
  firing tick, firing at most once per pass, and insertion order. They also
  prove that out-of-range delays alias to an earlier slot.
- **LogBuffer** (`LoggingSystem`, logging_system.dfy). This is a bounded
  append-only byte buffer. `Write` copies a message and a newline at the
  write position, unless that would reach the end of the buffer. `Flush`
  hands out the bytes written so far and rewinds the position. A ghost
  `entries` list holds the messages written since the last flush. The buffer
  prefix always equals those messages, each followed by a newline.
  `LinesOfFramed` proves that this framing loses nothing for messages that
  contain no newline.

`Size` must be positive: the model accepts any `size >= 1`, and with one
slot every push is rejected.

## Model

| member | source | states |
|---|---|---|
| `MessageProcessing.Held` | message-processing-system/main.cpp:13-29 | the items between the read and the write cursor number `w - r` (or `Size - r + w` after wrap-around), always fewer than `Size`, and the first of them is the slot at the read cursor |
| `MessageProcessing.FullWhenCapacityReached` | message-processing-system/main.cpp:14-16 | the full test `(w + 1) % Size == r` holds exactly when `Size - 1` items are held |
| `MessageProcessing.HeldAfterPush` | message-processing-system/main.cpp:18-19 | when the buffer is not full, storing at the write cursor and advancing it appends the item to the held queue |
| `MessageProcessing.HeldAfterPop` | message-processing-system/main.cpp:28-29 | when the buffer is not empty, advancing the read cursor drops the oldest held item |
| `MessageProcessing.RingBuffer.constructor` | message-processing-system/main.cpp:33-35 | a new buffer has both cursors at 0 and holds nothing |
| `MessageProcessing.RingBuffer.Push` | message-processing-system/main.cpp:12-21 | a push succeeds exactly when fewer than `Size - 1` items are held. On success it writes only the slot at the old write cursor, moves the write cursor to `(w + 1) % Size`, keeps the read cursor and appends the item to the queue. On failure nothing changes |
| `MessageProcessing.RingBuffer.Pop` | message-processing-system/main.cpp:23-31 | a pop succeeds exactly when the queue is not empty. On success it returns the slot at the read cursor, which is the queue's head, moves the read cursor to `(r + 1) % Size`, keeps the write cursor and array, and removes the head. On failure it leaves `item` and the state unchanged |
| `MessageProcessing.RunIsFifo` | message-processing-system/main.cpp:12-31 | after any series of pushes and pops on a new buffer, the popped items followed by the held ones equal the accepted pushes in order (nothing lost, duplicated or reordered), and the held count never exceeds the capacity |
| `MessageProcessing.PushesFillToCapacity` | message-processing-system/main.cpp:13-17 | pushing into a new buffer that nobody pops accepts exactly the first `Size - 1` items and rejects every later one |
| `MessageProcessing.Replay` | message-processing-system/main.cpp:12-31 | any series of calls on a new `RingBuffer` returns from its pops, and leaves held, exactly what `Run` does with capacity `Size - 1` |
| `TaskScheduler.Empty` | task-scheduler/main.cpp:40-42 | the initial wheel has `WHEEL_SIZE` empty slots and the cursor at 0 |
| `TaskScheduler.SlotFor` | task-scheduler/main.cpp:15 | the slot chosen for any delay lies within the wheel |
| `TaskScheduler.Scheduled` | task-scheduler/main.cpp:13-17 | adding a task keeps the wheel's shape and does not move the cursor |
| `TaskScheduler.Advanced` | task-scheduler/main.cpp:29-30 | a tick leaves the cursor below `WHEEL_SIZE` |
| `TaskScheduler.PassState` | task-scheduler/main.cpp:24-30 | after `n <= WHEEL_SIZE` ticks, every slot passed is empty (no task fires twice on wrap-around), every other slot is untouched, and the cursor is `n` slots on, modulo `WHEEL_SIZE` |
| `TaskScheduler.OnePass` | task-scheduler/main.cpp:24-30 | within one pass of `n <= WHEEL_SIZE` ticks, tick `i` fires the slot `i` positions past the starting cursor, as that slot was at the start |
| `TaskScheduler.FiresOnceAtDelay` | task-scheduler/main.cpp:15-30 | a new task added with delay `d < WHEEL_SIZE` fires in tick `d + 1` and in no other tick of the pass, and exactly once in that tick |
| `TaskScheduler.AliasedDelays` | task-scheduler/main.cpp:15 | delays that differ by a multiple of `WHEEL_SIZE` land in the same slot and give the same wheel |
| `TaskScheduler.ScheduledAllSlots` | task-scheduler/main.cpp:13-17 | after a series of adds, each slot holds its earlier tasks followed by the tasks routed to it, in the order they were added |
| `TaskScheduler.PassFiresInInsertionOrder` | task-scheduler/main.cpp:16-30 | after a series of adds, each tick of the next pass fires its slot's earlier tasks and then the added tasks routed there, in the order they were added |
| `TaskScheduler.OutOfRangeDelayFiresEarly` | task-scheduler/main.cpp:15 | with delays 0, 999 and 1000 on a new wheel, the delay-1000 task fires in the first tick, after the delay-0 task, and the delay-999 task fires in the last tick of the pass |
| `TaskScheduler.TimeWheel.constructor` | task-scheduler/main.cpp:11 | a new wheel is `Empty()` |
| `TaskScheduler.TimeWheel.AddTask` | task-scheduler/main.cpp:13-17 | `add_task` appends the task to slot `(current + delay) % WHEEL_SIZE`. No other slot changes and the cursor does not move |
| `TaskScheduler.TimeWheel.Tick` | task-scheduler/main.cpp:24-30 | one loop iteration fires the current slot's tasks in insertion order, empties that slot only and advances the cursor modulo `WHEEL_SIZE` |
| `LoggingSystem.FramedHasLength` | logging-system/main.cpp:26-34 | each message written takes its length plus one newline byte |
| `LoggingSystem.LinesOfFramed` | logging-system/main.cpp:32-34 | the bytes of newline-free messages, each followed by a newline, split back into exactly those messages, in order |
| `LoggingSystem.LogBuffer.constructor` | logging-system/main.cpp:13-16 | a new buffer has `BUFFER_SIZE` bytes, its position is 0 and it holds no entries |
| `LoggingSystem.LogBuffer.Write` | logging-system/main.cpp:23-36 | a write fails, changing nothing, exactly when `pos + len + 1 >= BUFFER_SIZE`. On success it puts `msg[..len]` at `pos` and a newline after it, keeps the bytes before `pos` and after the newline, and sets the position to `pos + len + 1`. The position stays below `BUFFER_SIZE`, and the prefix stays equal to the framed messages |
| `LoggingSystem.LogBuffer.Flush` | logging-system/main.cpp:45-51 | a flush emits exactly `buffer[0, pos)`, which is the messages written since the last flush, each followed by a newline. It then resets the position to 0. With nothing written it emits nothing and changes nothing |

## Left out

- Atomics and memory orderings on the cursors and the write position are
  plain fields. Only single-threaded behaviour is modelled. The release and
  acquire visibility between the producer and the consumer cannot be stated
  in this model.
- Threads, core pinning (`set_thread_affinity`), `_mm_pause`, `sleep_for`
  and `yield` are timing and scheduling, not behaviour.
- The `producer`, `consumer`, `logger` and `flusher` loops and every `main`
  are left out. They read clocks, compute floating-point prices and print.
  `Replay` stands in for an interleaving of the producer's and consumer's
  calls.
- `Message` (`price`, `timestamp`) is the generic element type `T` of the
  ring buffer. Its floating-point field plays no part in the buffer's logic.
- `MessageProcessing.RingBuffer.constructor`: does not state that the slots
  start zero-initialised (`{0}`). Dafny gives a new array arbitrary values of
  `T`, and no read ever sees an unwritten slot.
- `TimeWheel::run` as an endless loop, the `_running` flag and `stop()` are
  left out. `Tick` models one loop iteration. Calling a task's callback is
  reported as firing its identifier, so a callback that throws is out of
  scope.
- Negative `delay_ms` in `add_task` is left out. The delay is a natural
  number, because the `int` to `size_t` conversion of a negative delay is
  implementation arithmetic.
- Adding tasks from another thread while `run` ticks, as `main` does, is
  unsynchronised in the source. Only sequential interleavings of `AddTask`
  and `Tick` are modelled.
- The `_flushing` exchange guard in `LogBuffer::flush` is left out. It only
  prevents concurrent flushes, and sequentially it is always clear on entry.
- The `std::cout` output of `flush` is the returned `emitted` sequence.
- `LoggingSystem.LogBuffer.Write`: does not model `size_t` wrap-around of
  `pos + len + 1`. `len` is bounded by the length of a real message
  (`len <= |msg|`), which `memcpy` requires.
- The echo server and the TCP server are socket and `epoll` plumbing with
  no logic of their own. They are not part of this model.
