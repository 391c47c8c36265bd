# In-process event bus: a Dafny model of its dispatch core

This project models the sequential core of a Go publish/subscribe bus. Events go to
registered handlers. An event without a topic goes on one shared queue, which a pool
of workers drains in no promised order. An event that names a topic goes on that
topic's own FIFO queue. One dedicated worker serves each topic queue.

The model covers five parts:

- **Events** (`events.dfy`): events, handlers and the log of handler calls. It holds the
  consumer loop that every worker runs: take events in order, call the handlers in
  registration order, and stop at the first nil sentinel. `Deliver` specifies that loop,
  and `Consume` implements it as a loop proved against `Deliver`.
- **Counters** (`counter.dfy`): uint32 wrap-around increment and decrement, and the
  `counter` type.
- **Topics** (`topic.dfy`): a topic worker. It has a bounded queue, a `Handle` that
  enqueues, a worker run, and a shutdown that puts the sentinel behind everything already
  queued.
- **Registry** (`registry.dfy`): the `[]*topic` slice. It is an array with an explicit
  length, and the array's length is the capacity. It supports linear-scan lookup,
  lookup-or-create, and appending with capacity doubling. `bus.go` and `controller.go`
  contain identical copies of `addTopic` and `doubleCapacity`. Their copies of `topic`
  are identical except for the buffer argument: `bus.go` passes `bus.topicBuffer` to
  `newTopic`, and `controller.go` relies on the constant 100. All three are modelled once,
  by `Registry.TopicTable`. Its `LookupOrCreate` takes the buffer as a parameter, and the
  bus and the controller share it.
- **EventBus** (`bus.dfy`) and **Controllers** (`controller.dfy`): two owners of a
  registry and a pool. The bus has the `initialized` and `shuttingDown` latches and
  configuration setters, and its pool workers do not consult `ListensTo`. The controller
  has no latches and fixed sizes, and its pool workers do consult `ListensTo`.
  Client methods at the end of each file restate the repository's tests as contracts.

Concurrency is modelled by explicit steps. A worker's run is a method call over what is
on its queue. "Send and wait for the acknowledgement" is that call completing. A send
that would block forever, or block on a full queue, is ruled out by a precondition.

The model follows the code on these points, although the comments on the error constants
(errors.go:12-17) suggest that `Emit` reports errors:

- `Emit` reports no errors. The error constants in `errors.go` are not referenced.
- `Emit` does not consult `initialized`.
- `Shutdown` resets `initialized` and `Initialize` resets `shuttingDown`, so a bus can be
  re-armed (`EventBus.ReArm`).
- The bus's pool workers call every handler without asking `ListensTo`.

## Model

| member | source | states |
|---|---|---|
| Events.FirstSentinel | topic.go:35-39 | the position where a worker stops: no sentinel comes before it, and there is a sentinel at that position unless it is the queue's length, which happens exactly when the queue holds no sentinel |
| Events.ListeningIndices | topic.go:40-44 | the handlers a filtering worker calls: every index is a listening handler, the indices strictly increase, and every listening handler is included |
| Events.UnfilteredInvocations | bus.go:119-121 | a worker that does not ask ListensTo calls each handler exactly once, in registration order |
| Events.FilteredInvocations | controller.go:66-70 | a worker that asks ListensTo calls exactly the listening handlers, in registration order |
| Events.DeliverAppend | topic.go:35-45 | delivering a queue is delivering its parts one after the other (FIFO) |
| Events.DeliverAt | topic.go:35-45 | the calls for the k-th event come after those for every earlier event and before those for every later one |
| Events.DeliverSnoc | topic.go:35-45 | one more event at the back of a queue adds its calls after all earlier ones |
| Events.SendKeepsBacklog | topic.go:30-45 | the calls delivered so far, followed by the delivery of what is still queued, equal the delivery of everything sent; sending one more event keeps that relation |
| Events.SingleHandlerSeesQueueOrder | bus_test.go:110-134 | a handler that is called on every event observes the events exactly in queue order |
| Events.SentinelBehindPending | topic.go:49-52 | a sentinel pushed behind a sentinel-free queue is reached after every queued event, and nothing after it is consumed |
| Events.Dispatch | topic.go:40-44 | the calls made for one event are Invocations: the handlers in registration order, each called when it listens or when the worker does not filter |
| Events.Consume | topic.go:34-47 | the worker loop: its calls are Deliver of the events before the first sentinel; it reports closed exactly when there is a sentinel; what is left is the part after that sentinel |
| Counters.WrappingIncrement | counter.go:15-17 | adds 1, and wraps from 2^32-1 to 0 |
| Counters.WrappingDecrement | counter.go:19-21 | adding ^uint32(0) subtracts 1, and wraps from 0 to 2^32-1 |
| Counters.IncrementDecrementCancel | counter.go:15-21 | decrement after increment, and increment after decrement, restore the value |
| Counters.Counter.constructor | counter.go:9-13 | a new counter holds 0 |
| Counters.Counter.Increment | counter.go:15-17 | the stored value becomes its wrapping increment |
| Counters.Counter.Decrement | counter.go:19-21 | the stored value becomes its wrapping decrement |
| Counters.Counter.Is | counter.go:23-25 | true exactly when the stored value equals v; changes nothing |
| Counters.IncrementThenDecrement | counter.go:15-21 | increment then decrement leaves a counter's value as it was |
| Topics.Topic.constructor | topic.go:16-28 | the topic records its name, its queue is empty, and its worker is running |
| Topics.Topic.Handle | topic.go:30-32 | the event is appended at the back, earlier entries are untouched, and the queue stays within its buffer |
| Topics.Topic.Worker | topic.go:34-47 | events are taken in FIFO order and each is given to the listening handlers; the worker stops at the first sentinel and delivers nothing after it; a stopped worker takes nothing |
| Topics.Topic.Shutdown | topic.go:49-52 | every event queued before the call is delivered, in order, before the worker reports closed; the queue ends empty |
| Registry.CapacityAfterCovers | bus.go:157-171 | however many topics are added, the capacity stays at least the length |
| Registry.CapacityKeptWhileRoom | bus.go:157-162 | the capacity does not change while the new entries fit |
| Registry.CapacityDoublesOnce | controller.go:105-119 | overflowing a capacity C by at most C entries gives capacity exactly 2C |
| Registry.CapacityAfterStep | bus.go:157-162 | each addition grows the capacity reached by the earlier ones |
| Registry.UniqueNamesIdentify | bus.go:146-155 | with unique names, a name identifies one topic |
| Registry.TopicTable.constructor | bus.go:70 | make([]*topic, 0, capacity): empty, with exactly that capacity |
| Registry.TopicTable.Find | bus.go:147-151 | returns the first topic with the name, or null exactly when no topic has it |
| Registry.TopicTable.DoubleCapacity | bus.go:164-171 | contents and length are unchanged, and the capacity is exactly twice the old one |
| Registry.TopicTable.Append | bus.go:161 | the topic goes last on the slice and earlier entries keep their places; when there is room the slice grows in place, and from capacity 0 Go allocates room for one |
| Registry.TopicTable.Add | bus.go:157-162 | the length grows by one, every prior entry keeps its index, the new topic is last, and the capacity doubles exactly when the slice was full |
| Registry.TopicTable.LookupOrCreate | bus.go:146-155 | an existing topic with the name is returned and the table is unchanged; otherwise exactly one new, empty topic with that name is appended; names stay unique |
| EventBus.Bus.constructor | bus.go:25-35 | topicsCapacity 10, topicBuffer 100, pool size as given, both latches clear, zero workers, no topics, and no pool channel yet |
| EventBus.Bus.IsInitialized | bus.go:106-108 | reads the initialized latch: true from a successful Initialize until the end of the next graceful shutdown |
| EventBus.Bus.IsShuttingDown | bus.go:110-112 | reads the shuttingDown latch: true from the first Shutdown until the next successful Initialize |
| EventBus.Bus.ConcurrentPoolSize | bus.go:40-44 | overwrites the pool size only while not initialized |
| EventBus.Bus.TopicsCapacity | bus.go:50-54 | overwrites the topic capacity only while not initialized |
| EventBus.Bus.TopicBuffer | bus.go:60-64 | overwrites the buffer size only while not initialized |
| EventBus.Bus.Initialize | bus.go:67-78 | acts only on the first call with the latch clear: stores the handlers, creates an empty topic table with capacity topicsCapacity, creates the pool channel, raises the worker count by the pool size modulo 2^32, and clears shuttingDown; a later call changes nothing |
| EventBus.Bus.Arm | bus.go:67-76 | on the first Initialize: the latch is set, shuttingDown is cleared, the handlers are stored, the topic slice is empty with capacity topicsCapacity, and the pool channel is empty with capacity topicBuffer |
| EventBus.Bus.StartWorkers | bus.go:72-75 | the worker count rises by the number of workers started, modulo 2^32 |
| EventBus.Bus.Emit | bus.go:81-90 | nil events and events sent while shutting down change nothing; a topic event is appended to the one topic of that name, which is created if absent; any other event is appended to the pool queue; nothing else changes |
| EventBus.Bus.Worker | bus.go:114-124 | runs only when a worker was started; calls every handler, in registration order, on each event in queue order, stopping at the first sentinel |
| EventBus.Bus.WorkerUp | bus.go:126-128 | the worker count rises by one modulo 2^32 |
| EventBus.Bus.WorkerDown | bus.go:130-132 | the worker count falls by one modulo 2^32 |
| EventBus.Bus.RunTopic | topic.go:34-47 | one of the bus's topics runs its worker with the bus's handlers: a running worker delivers its whole queue to the listening handlers and keeps running; the bus stays valid |
| EventBus.Bus.Shutdown | bus.go:94-98 | the drain runs only when shuttingDown goes from clear to set; a repeated call changes nothing |
| EventBus.Bus.GracefulShutdown | bus.go:134-144 | afterwards the worker count is 0; when the worker count was positive, everything queued on the pool has been delivered, and with no workers it stays queued; every topic has delivered its queue and stopped; initialized is clear |
| EventBus.Bus.DrainPool | bus.go:135-139 | counts the workers down to 0, one per sentinel taken; the pool's workers are linearised into one Worker run per sentinel, so in the model the pending pool events are delivered when the worker count was positive |
| EventBus.Bus.ShutdownTopics | bus.go:140-142 | shuts every topic down in table order; each delivers its queue and stops |
| EventBus.Started | bus.go:25-78 | NewBus then Initialize: the defaults, the requested number of pool workers, no topics, and an empty pool channel of capacity 100 |
| EventBus.LateSettingIgnored | bus.go:37-44 | a pool size set before Initialize is the one used; one set afterwards is ignored |
| EventBus.ReArm | bus.go:67-144 | Shutdown clears initialized, an Emit during shutdown is dropped, and a second Initialize re-arms the bus |
| EventBus.OrderedOnOneTopic | bus_test.go:110-134 | for any number of events emitted on one topic, and whenever the topic's worker catches up in between, the handler receives all of them, in emission order, by the time Shutdown returns |
| EventBus.EmitNumbered | bus_test.go:110-134 | after events 0 to n-1 are emitted on one topic, the calls the worker has made, followed by the delivery of what is still queued, are the delivery of all n events in order |
| EventBus.TopicCatchUp | topic.go:30-47 | when asked to, or when the topic's queue is full, the worker takes the queue, so the next send has room; delivered calls plus what is queued are unchanged |
| EventBus.OpenTopic | bus.go:81-87 | the first event on a new topic creates that topic, named after the event, with the configured buffer; the event waits on its queue |
| EventBus.EmitNext | bus.go:81-87 | emitting event k on the topic extends the delivered-plus-queued calls to events 0 to k |
| EventBus.ConcurrentAllHandled | bus_test.go:136-163 | with four pool workers, for any number of topic-less events, and whenever the workers catch up in between, every event is handled exactly once (the calls as a multiset) by the time Shutdown returns |
| EventBus.EmitPlains | bus_test.go:136-163 | after the topic-less events are emitted, the pool's calls so far, followed by the delivery of what is still queued, are the delivery of all of them |
| EventBus.EmitPlainNext | bus.go:81-124 | a pool worker catches up when asked to or when the pool queue is full, then one topic-less event is emitted; the pool's delivered-plus-queued calls grow by that event |
| EventBus.SendPlain | bus.go:81-90 | emitting one topic-less event on a pool queue with room extends the pool's delivered-plus-queued calls by that event, and creates no topic |
| EventBus.PoolCatchUp | bus.go:114-124 | when asked to, or when the pool queue is full, a pool worker takes the queue, so the next send has room; delivered calls plus what is queued are unchanged |
| EventBus.HandlersInRegistrationOrder | bus_test.go:85-108 | all handlers handle an event, in the order they were given to Initialize |
| Controllers.Controller.constructor | controller.go:18-33 | an empty topic table of capacity 10, an empty pool queue, and a worker count equal to the pool size |
| Controllers.Controller.Handle | controller.go:35-46 | handle(nil) changes nothing; a topic event goes to the one topic of that name, which is created if absent; any other event is appended to the pool queue |
| Controllers.Controller.Len | controller.go:48-50 | the number of topics |
| Controllers.Controller.Cap | controller.go:52-54 | the slice's capacity, never below its length |
| Controllers.Controller.Empty | controller.go:56-58 | true exactly when there are no topics |
| Controllers.Controller.Worker | controller.go:60-73 | runs only when a worker was started; calls only the listening handlers, in registration order, on each event in queue order, stopping at the first sentinel |
| Controllers.Controller.WorkerUp | controller.go:75-77 | the worker count rises by one modulo 2^32 |
| Controllers.Controller.WorkerDown | controller.go:79-81 | the worker count falls by one modulo 2^32 |
| Controllers.Controller.Shutdown | controller.go:83-92 | counts the workers down to 0; when the worker count was positive the pending pool events are delivered, and with no workers they stay queued; then every topic is shut down, each delivering its queue |
| Controllers.Controller.ShutdownTopics | controller.go:89-91 | shuts every topic down in table order |
| Controllers.NewControllerIsEmpty | controller_test.go:69-74 | a new controller is empty, with length 0 and capacity 10 |
| Controllers.HandleThenNil | controller_test.go:9-24 | after handle(evt) and handle(nil) there is exactly one topic, named after evt's topic |
| Controllers.CapacityDoubles | controller_test.go:39-67 | the first topic keeps capacity 10, and 11 distinct topics give length 11 and capacity exactly 20 |

## Left out

- Goroutines, channel blocking and the `closed` handshake are not modelled as synchronisation. Each worker's run is an explicit call. "Send a sentinel and wait for closed" is that call completing.
- Which pool worker takes which event is not modelled. A single call of the pool's `Worker` stands for whichever worker answers. Parallel, unordered handling in the pool is therefore not represented.
- `sync/atomic` is not modelled. Latches and counts are plain fields, and compare-and-swap is a guarded assignment.
- `runtime.GOMAXPROCS(0)` is an environment call. It is the constructor parameter `gomaxprocs`.
- `log.Println` and `log.Printf` in the worker loops produce output only, so they are left out.
- `errors.go`, `event.go`, `handler.go` and `error_handler.go` hold only declarations. Events are the `Event` datatype. A handler is an id plus its `ListensTo` decision. A `Handle` call is an entry in a log. The error a `Handle` returns is ignored by every worker in the source, and the model ignores it too.
- A topic reads its owner's handler slice through a pointer each time it processes an event. The model passes the owner's current handlers to `Worker` and `Shutdown`.
- `newTopic` in `topic.go` takes no buffer size and uses the constant 100. `bus.go` passes `bus.topicBuffer`. The model gives the topic constructor a buffer parameter: the controller passes 100 and the bus passes its configured value.
- `controller_test.go` calls `newController` with four arguments. The model follows the two-argument `newController` in `controller.go`.
- EventBus.Bus.Worker and Controllers.Controller.Worker: they require a positive worker count. With a pool size of 0 no goroutine is started, so events on the pool queue are never handled, and the model keeps them queued.
- EventBus.OrderedOnOneTopic and EventBus.ConcurrentAllHandled: a worker that catches up takes the whole queue. A goroutine that takes part of the queue and runs concurrently with the sender is a finer interleaving than the model expresses.
- EventBus.Bus.Emit: a send that would block is ruled out by a precondition. This covers a full queue and the nil pool channel before `Initialize`. An unbuffered channel hands each event straight to a running worker; the model cannot express that. So a new topic needs a positive buffer, and with a topic buffer of 0 the pool channel (bus.go:71) is unbuffered too, so the model admits no topic-less `Emit` at all.
- Controllers.Controller.Handle: a send on a full queue is ruled out by a precondition, as for the bus.
- Topics.Topic.Handle: a send on a full queue is ruled out by a precondition.
- Topics.Topic.Shutdown: requires a running worker and a queue without sentinels. A stopped worker never answers, so the source waits forever for `closed`. A sentinel already on the queue makes the worker stop early and leave the later events undelivered. Neither happens through `Emit` or `handle`, which never queue nil.
- Controllers.Controller.Shutdown: requires every topic worker to be running. The controller has no latch, so a second shutdown would wait forever.
- EventBus.Bus.Initialize: requires non-negative configured sizes when it acts. Go's `make` panics on a negative size.
- Registry.TopicTable.Append: models Go's `append` only in the two cases `addTopic` reaches. Either there is room, or the capacity is 0 and Go allocates room for one. Go's general growth rule is not modelled.
- The `idx` field of `topic` is never used, so it is left out.
- `counter.go`'s `counter` type is not used by the bus or the controller, which call `atomic.AddUint32` directly. Both share the model's wrap-around functions.
