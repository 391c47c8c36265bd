/** The bus facade: configuration, the initialized/shuttingDown latches, routing of
    emitted events to the shared pool queue or to a topic, and the graceful shutdown. */
module EventBus {
  import opened Events
  import opened Topics
  import opened Registry
  import opened Counters

  const DefaultTopicsCapacity: int := 10
  const DefaultTopicBuffer: int := 100

  class Bus {
    var concurrentPoolSize: int
    var topicsCapacity: int
    var topicBuffer: int
    /** The two latches; the uint32 values 1 and 0 are true and false. */
    var initialized: bool
    var shuttingDown: bool
    /** The number of live pool workers, a uint32. */
    var workers: Uint32
    var handlers: seq<Handler>
    var topics: TopicTable
    /** The shared pool channel: whether it has been made, its capacity, and what is on it. */
    var poolOpen: bool
    var poolBuffer: nat
    var poolQueue: seq<Event>
    /** The Handle calls the pool workers have made, in order. */
    var poolLog: seq<Invocation>

    ghost function TopicSet(): set<Topic>
      reads this, topics
    {
      set t | t in topics.Topics
    }

    /** Emit never puts the nil event on a queue, topic names are unique, and until
        shutdown begins every topic worker is still running. */
    ghost predicate Valid()
      reads this, topics, topics.slots, TopicSet()
    {
      && topics.Valid()
      && UniqueNames(topics.Topics)
      && (forall t :: t in topics.Topics ==> t.Valid() && Nil !in t.queue)
      && (!shuttingDown ==> forall t :: t in topics.Topics ==> !t.stopped)
      && Nil !in poolQueue
      && (poolOpen ==> |poolQueue| <= poolBuffer)
      && (!poolOpen ==> poolQueue == [])
      && (workers > 0 ==> poolOpen)
    }

    /** isInitialized: the latch that Initialize sets and the end of a shutdown clears. */
    function IsInitialized(): (b: bool)
      reads this
      ensures b <==> initialized
    {
      initialized
    }

    /** isShuttingDown: the latch that Shutdown sets and Initialize clears. */
    function IsShuttingDown(): (b: bool)
      reads this
      ensures b <==> shuttingDown
    {
      shuttingDown
    }

    /** NewBus. `gomaxprocs` stands for runtime.GOMAXPROCS(0). The topic slice and the
        pool channel are still nil: a slice of length and capacity 0, a channel not made. */
    constructor (gomaxprocs: int)
      ensures Valid() && fresh(topics) && fresh(topics.slots)
      ensures concurrentPoolSize == gomaxprocs
      ensures topicsCapacity == DefaultTopicsCapacity && topicBuffer == DefaultTopicBuffer
      ensures !initialized && !shuttingDown && workers == 0
      ensures handlers == [] && topics.Topics == [] && topics.slots.Length == 0
      ensures !poolOpen && poolQueue == [] && poolLog == []
    {
      concurrentPoolSize := gomaxprocs;
      topicsCapacity := DefaultTopicsCapacity;
      topicBuffer := DefaultTopicBuffer;
      initialized, shuttingDown := false, false;
      workers := 0;
      handlers := [];
      topics := new TopicTable(0);
      poolOpen, poolBuffer, poolQueue := false, 0, [];
      poolLog := [];
    }

    method ConcurrentPoolSize(n: int)
      requires Valid()
      modifies this`concurrentPoolSize
      ensures Valid()
      ensures concurrentPoolSize == if old(initialized) then old(concurrentPoolSize) else n
    {
      if !IsInitialized() {
        concurrentPoolSize := n;
      }
    }

    method TopicsCapacity(n: int)
      requires Valid()
      modifies this`topicsCapacity
      ensures Valid()
      ensures topicsCapacity == if old(initialized) then old(topicsCapacity) else n
    {
      if !IsInitialized() {
        topicsCapacity := n;
      }
    }

    method TopicBuffer(n: int)
      requires Valid()
      modifies this`topicBuffer
      ensures Valid()
      ensures topicBuffer == if old(initialized) then old(topicBuffer) else n
    {
      if !IsInitialized() {
        topicBuffer := n;
      }
    }

    /** Initialize: acts only when the initialized latch moves from false to true. Go's
        make panics on a negative size, so the configured sizes must not be negative then.
        Starting a pool worker is raising the worker count; the workers' runs are Worker. */
    method Initialize(hdls: seq<Handler>)
      requires Valid()
      requires !initialized ==> topicsCapacity >= 0 && topicBuffer >= 0
      modifies this`initialized, this`shuttingDown, this`handlers, this`topics
      modifies this`poolOpen, this`poolBuffer, this`poolQueue, this`workers
      ensures Valid()
      ensures old(initialized) ==> unchanged(this)
      ensures !old(initialized) ==>
                && initialized && !shuttingDown && handlers == hdls
                && fresh(topics) && fresh(topics.slots)
                && topics.Topics == [] && topics.slots.Length == topicsCapacity
                && poolOpen && poolBuffer == topicBuffer && poolQueue == []
                && workers == (old(workers) + Max0(concurrentPoolSize)) % Modulus
                && poolLog == old(poolLog)
                && concurrentPoolSize == old(concurrentPoolSize)
                && topicsCapacity == old(topicsCapacity) && topicBuffer == old(topicBuffer)
    {
      if initialized {
        return;
      }
      Arm(hdls);
      StartWorkers(concurrentPoolSize);
    }

    /** The body of Initialize before the pool is started: the latch, the handlers, an
        empty topic slice, an empty pool channel, and shuttingDown cleared. */
    method Arm(hdls: seq<Handler>)
      requires Valid() && !initialized && topicsCapacity >= 0 && topicBuffer >= 0
      modifies this`initialized, this`shuttingDown, this`handlers, this`topics
      modifies this`poolOpen, this`poolBuffer, this`poolQueue
      ensures Valid()
      ensures initialized && !shuttingDown && handlers == hdls
      ensures fresh(topics) && fresh(topics.slots)
      ensures topics.Topics == [] && topics.slots.Length == topicsCapacity
      ensures poolOpen && poolBuffer == topicBuffer && poolQueue == []
    {
      initialized := true;
      handlers := hdls;
      topics := new TopicTable(topicsCapacity);
      poolOpen, poolBuffer, poolQueue := true, topicBuffer, [];
      shuttingDown := false;
    }

    /** The loop of Initialize that starts the pool: one WorkerUp per worker started. */
    method StartWorkers(n: int)
      requires Valid() && poolOpen
      modifies this`workers
      ensures Valid()
      ensures workers == (old(workers) + Max0(n)) % Modulus
    {
      var i := 0;
      while i < n
        invariant Valid()
        invariant i <= Max0(n)
        invariant workers == (old(workers) + i) % Modulus
      {
        IncrementAfterAdding(old(workers), i);
        WorkerUp();
        i := i + 1;
      }
    }

    /** Emit: a nil event, or any event while shutting down, is dropped; the initialized
        latch is not consulted. A topic event goes to the topic of that name, created on
        first sight; any other event goes on the shared pool queue. A send that would
        block (a full queue, or the pool channel not yet made) is not admitted. */
    method Emit(evt: Event)
      requires Valid()
      requires !shuttingDown && evt.Plain? ==> poolOpen && |poolQueue| < poolBuffer
      requires !shuttingDown && evt.Topical? ==>
                 && (forall t :: t in topics.Topics && t.name == evt.topic ==> |t.queue| < t.buffer)
                 && (evt.topic !in NamesOf(topics.Topics) ==> topicBuffer > 0)
      modifies this`poolQueue, topics, topics.slots, TopicSet()
      ensures Valid()
      ensures poolQueue == (if evt.Plain? && !old(shuttingDown) then old(poolQueue) + [evt] else old(poolQueue))
      ensures forall t :: t in old(topics.Topics) ==> t.log == old(t.log) && t.stopped == old(t.stopped)
      ensures forall t :: t in old(topics.Topics) ==>
                t.queue == if evt.Topical? && !old(shuttingDown) && t.name == evt.topic
                           then old(t.queue) + [evt] else old(t.queue)
      ensures !(evt.Topical? && !old(shuttingDown) && evt.topic !in NamesOf(old(topics.Topics))) ==>
                topics.Topics == old(topics.Topics) && topics.slots == old(topics.slots)
      ensures evt.Topical? && !old(shuttingDown) && evt.topic !in NamesOf(old(topics.Topics)) ==>
                && |topics.Topics| == |old(topics.Topics)| + 1
                && topics.Topics[..|old(topics.Topics)|] == old(topics.Topics)
                && var t := topics.Topics[|old(topics.Topics)|];
                   fresh(t) && t.name == evt.topic && t.buffer == old(topicBuffer)
                   && t.queue == [evt] && t.log == [] && !t.stopped
                   && topics.slots.Length == GrownCapacity(|old(topics.Topics)|, old(topics.slots.Length))
    {
      if evt != Nil && !IsShuttingDown() {
        if evt.Topical? {
          var tpc := topics.LookupOrCreate(evt.topic, topicBuffer);
          tpc.Handle(evt);
          return;
        }
        poolQueue := poolQueue + [evt];
      }
    }

    /** One pool worker's loop over what is on the shared queue: every handler, in
        registration order and without asking ListensTo, on each event in queue order,
        until the first sentinel. `closed` says that the worker met the sentinel. Only a
        started worker runs: with a pool of size 0 nothing takes events off the queue. */
    method Worker() returns (closed: bool)
      requires workers > 0
      modifies this`poolQueue, this`poolLog
      ensures closed <==> Nil in old(poolQueue)
      ensures poolLog == old(poolLog) + Deliver(handlers, old(poolQueue)[..FirstSentinel(old(poolQueue))], false)
      ensures poolQueue == if closed then old(poolQueue)[FirstSentinel(old(poolQueue)) + 1..] else []
    {
      var calls, rest, stopped := Consume(poolQueue, handlers, false);
      poolLog := poolLog + calls;
      poolQueue := rest;
      closed := stopped;
    }

    method WorkerUp()
      modifies this`workers
      ensures workers == WrappingIncrement(old(workers))
    {
      workers := WrappingIncrement(workers);
    }

    method WorkerDown()
      modifies this`workers
      ensures workers == WrappingDecrement(old(workers))
    {
      workers := WrappingDecrement(workers);
    }

    /** A run of the worker of one of the bus's topics, with the bus's handlers. While the
        bus is valid no queued event is a sentinel, so a running worker delivers the whole
        queue to the listening handlers and keeps running. */
    method RunTopic(t: Topic)
      requires Valid() && t in topics.Topics
      modifies t`queue, t`log, t`stopped
      ensures Valid() && t.stopped == old(t.stopped)
      ensures old(t.stopped) ==> t.queue == old(t.queue) && t.log == old(t.log)
      ensures !old(t.stopped) ==> t.queue == [] && t.log == old(t.log) + Deliver(handlers, old(t.queue), true)
    {
      assert FirstSentinel(t.queue) == |t.queue| && t.queue[..|t.queue|] == t.queue;
      t.Worker(handlers);
    }

    /** Shutdown: the drain runs only when the shuttingDown latch moves from false to true. */
    method Shutdown()
      requires Valid()
      modifies this`shuttingDown, this`initialized, this`workers, this`poolQueue, this`poolLog, TopicSet()
      ensures Valid() && shuttingDown
      ensures old(shuttingDown) ==>
                && initialized == old(initialized) && workers == old(workers)
                && poolQueue == old(poolQueue) && poolLog == old(poolLog)
                && forall t :: t in topics.Topics ==>
                     t.queue == old(t.queue) && t.log == old(t.log) && t.stopped == old(t.stopped)
      ensures !old(shuttingDown) ==>
                && !initialized && workers == 0
                && poolLog == old(poolLog) + (if old(workers) > 0 then Deliver(handlers, old(poolQueue), false) else [])
                && poolQueue == (if old(workers) > 0 then [] else old(poolQueue))
                && forall t :: t in topics.Topics ==>
                     t.stopped && t.queue == [] && t.log == old(t.log) + Deliver(handlers, old(t.queue), true)
    {
      if !shuttingDown {
        shuttingDown := true;
        GracefulShutdown();
      }
    }

    /** shutdown: drain the pool, then shut every topic down in table order, then
        clear the initialized latch. */
    method GracefulShutdown()
      requires Valid() && shuttingDown
      requires forall t :: t in topics.Topics ==> !t.stopped
      modifies this`initialized, this`workers, this`poolQueue, this`poolLog, TopicSet()
      ensures Valid()
      ensures !initialized && workers == 0
      ensures poolLog == old(poolLog) + (if old(workers) > 0 then Deliver(handlers, old(poolQueue), false) else [])
      ensures poolQueue == (if old(workers) > 0 then [] else old(poolQueue))
      ensures forall t :: t in topics.Topics ==>
                t.stopped && t.queue == [] && t.log == old(t.log) + Deliver(handlers, old(t.queue), true)
    {
      DrainPool();
      ShutdownTopics();
      initialized := false;
    }

    /** The drain loop: while the worker count is positive, push a sentinel on the pool
        queue, wait until a worker takes it and signals closed, and count that worker
        down. The pool's workers are linearised into one run of Worker per sentinel, so
        in the model the first run delivers everything queued before the first sentinel;
        handlers still running in other goroutines when it answers are not modelled. */
    method DrainPool()
      requires Nil !in poolQueue && (workers > 0 ==> poolOpen)
      modifies this`workers, this`poolQueue, this`poolLog
      ensures workers == 0 && Nil !in poolQueue
      ensures poolLog == old(poolLog) + (if old(workers) > 0 then Deliver(handlers, old(poolQueue), false) else [])
      ensures poolQueue == (if old(workers) > 0 then [] else old(poolQueue))
    {
      while workers > 0
        invariant workers <= old(workers)
        invariant Nil !in poolQueue
        invariant workers == old(workers) ==> poolQueue == old(poolQueue) && poolLog == old(poolLog)
        invariant workers < old(workers) ==>
                    poolQueue == [] && poolLog == old(poolLog) + Deliver(handlers, old(poolQueue), false)
        decreases workers
      {
        var pending := poolQueue;
        SentinelBehindPending(pending, []);
        assert pending + [Nil] + [] == pending + [Nil];
        poolQueue := poolQueue + [Nil];
        var closed := Worker();
        WorkerDown();
      }
    }

    /** Shut every topic down, in table order: each delivers what it holds and stops. */
    method ShutdownTopics()
      requires topics.Valid() && UniqueNames(topics.Topics)
      requires forall t :: t in topics.Topics ==> !t.stopped && Nil !in t.queue
      modifies TopicSet()
      ensures forall t :: t in topics.Topics ==>
                t.stopped && t.queue == [] && t.log == old(t.log) + Deliver(handlers, old(t.queue), true)
    {
      var i := 0;
      while i < topics.len
        invariant i <= topics.len
        invariant forall j :: 0 <= j < i ==>
                    var t := topics.Topics[j];
                    t.stopped && t.queue == [] && t.log == old(t.log) + Deliver(handlers, old(t.queue), true)
        invariant forall j :: i <= j < |topics.Topics| ==>
                    var t := topics.Topics[j];
                    t.queue == old(t.queue) && t.log == old(t.log) && !t.stopped
      {
        var tpc := topics.slots[i];
        tpc.Shutdown(handlers);
        i := i + 1;
      }
    }
  }

  /** The events Topical(0, name), ..., Topical(n - 1, name). */
  function NumberedOn(name: string, n: nat): (es: seq<Event>)
    ensures |es| == n && forall k :: 0 <= k < n ==> es[k] == Topical(k, name)
  {
    seq(n, k requires 0 <= k < n => Topical(k, name))
  }

  /** One more numbered event goes at the back. */
  lemma NumberedGrow(name: string, k: nat)
    ensures NumberedOn(name, k + 1) == NumberedOn(name, k) + [Topical(k, name)]
  {
  }

  /** Settings given before Initialize take effect and later ones are ignored: the pool
      started by Initialize has the size set before it. */
  method LateSettingIgnored(early: int, late: int) returns (size: int, workers: Uint32)
    requires 0 <= early < Modulus
    ensures size == early && workers == early
  {
    var bus := new Bus(8);
    bus.ConcurrentPoolSize(early);
    bus.Initialize([]);
    bus.ConcurrentPoolSize(late);
    size, workers := bus.concurrentPoolSize, bus.workers;
  }

  /** Shutdown clears the initialized latch, so Initialize can run again and clears the
      shuttingDown latch; an event emitted between the two is dropped. */
  method ReArm(e: Event) returns (initializedAfterShutdown: bool, dropped: bool, rearmed: bool)
    requires e.Plain?
    ensures !initializedAfterShutdown && dropped && rearmed
  {
    var bus := new Bus(2);
    bus.Initialize([]);
    bus.Shutdown();
    initializedAfterShutdown := bus.initialized;
    bus.Emit(e);
    dropped := bus.poolQueue == [];
    bus.Initialize([]);
    rearmed := bus.initialized && !bus.shuttingDown;
  }

  /** NewBus with the pool size set, then Initialize with the handlers `hs`: the defaults,
      `poolSize` pool workers, no topics and an empty pool queue. */
  method Started(hs: seq<Handler>, poolSize: nat) returns (bus: Bus)
    requires poolSize < Modulus
    ensures fresh(bus) && fresh(bus.topics) && fresh(bus.topics.slots)
    ensures bus.Valid() && bus.initialized && !bus.shuttingDown && bus.handlers == hs
    ensures bus.topicsCapacity == DefaultTopicsCapacity && bus.topicBuffer == DefaultTopicBuffer
    ensures bus.workers == poolSize && bus.topics.Topics == []
    ensures bus.topics.slots.Length == DefaultTopicsCapacity
    ensures bus.poolOpen && bus.poolBuffer == DefaultTopicBuffer && bus.poolQueue == [] && bus.poolLog == []
  {
    bus := new Bus(poolSize);
    bus.Initialize(hs);
  }

  /** Events emitted on one topic reach a handler that listens to them in emission order,
      all of them by the time Shutdown returns, however often the topic's worker has
      caught up in between: before event k it runs when k is in `schedule`, and whenever
      the queue is full, since the send would block until it had. */
  method OrderedOnOneTopic(h: Handler, name: string, n: nat, schedule: set<nat>) returns (log: seq<Invocation>)
    requires forall k :: 0 <= k < n ==> ListensTo(h, Topical(k, name))
    ensures |log| == n && forall k :: 0 <= k < n ==> log[k] == Invocation(h.id, Topical(k, name))
  {
    if n == 0 {
      return [];
    }
    var bus, t := EmitNumbered(h, name, n, schedule);
    bus.Shutdown();
    assert t in bus.topics.Topics;
    log := t.log;
    assert log == Deliver([h], NumberedOn(name, n), true);
    SingleHandlerSeesQueueOrder(h, NumberedOn(name, n), true);
  }

  /** A bus with the single handler h on which events 0 to n-1 have been emitted on one
      topic, the topic's worker catching up before event k when k is in `schedule` or the
      queue is full: what the worker has delivered, followed by what its queue still
      holds, is the delivery of all n events in emission order. */
  method EmitNumbered(h: Handler, name: string, n: nat, schedule: set<nat>) returns (bus: Bus, t: Topic)
    requires 0 < n
    ensures fresh(bus) && fresh(bus.topics) && fresh(bus.topics.slots) && fresh(t)
    ensures bus.Valid() && bus.handlers == [h] && !bus.shuttingDown
    ensures bus.topics.Topics == [t] && t.name == name && t.buffer == DefaultTopicBuffer && !t.stopped
    ensures t.log + Deliver([h], t.queue, true) == Deliver([h], NumberedOn(name, n), true)
  {
    bus, t := OpenTopic(h, name);
    var k := 1;
    while k < n
      invariant 1 <= k <= n
      invariant bus.Valid() && fresh(bus.topics) && fresh(bus.topics.slots) && fresh(t)
      invariant bus.handlers == [h] && !bus.shuttingDown
      invariant bus.topics.Topics == [t]
      invariant t.name == name && t.buffer == DefaultTopicBuffer && !t.stopped
      invariant t.log + Deliver([h], t.queue, true) == Deliver([h], NumberedOn(name, k), true)
    {
      TopicCatchUp(bus, t, h, name, k, k in schedule);
      EmitNext(bus, t, h, name, k);
      k := k + 1;
    }
  }

  /** A started bus with the single handler h on which event 0 has been emitted on a
      topic: the topic has been created and holds that event. */
  method OpenTopic(h: Handler, name: string) returns (bus: Bus, t: Topic)
    ensures fresh(bus) && fresh(bus.topics) && fresh(bus.topics.slots) && fresh(t)
    ensures bus.Valid() && bus.handlers == [h] && !bus.shuttingDown
    ensures bus.topics.Topics == [t] && t.name == name && t.buffer == DefaultTopicBuffer && !t.stopped
    ensures t.log + Deliver([h], t.queue, true) == Deliver([h], NumberedOn(name, 1), true)
  {
    bus := Started([h], 1);
    bus.Emit(Topical(0, name));
    t := bus.topics.slots[0];
    DeliverSnoc([h], [], Topical(0, name), true);
    assert [] + [Topical(0, name)] == NumberedOn(name, 1);
  }

  /** Before event k of EmitNumbered: when `catchUp` holds or the topic's queue is full,
      the topic's worker takes what the queue holds, so that the send has room. */
  method TopicCatchUp(bus: Bus, t: Topic, h: Handler, name: string, k: nat, catchUp: bool)
    requires bus.Valid() && bus.handlers == [h] && !bus.shuttingDown
    requires bus.topics.Topics == [t] && t.buffer == DefaultTopicBuffer
    requires t.log + Deliver([h], t.queue, true) == Deliver([h], NumberedOn(name, k), true)
    modifies t`queue, t`log, t`stopped
    ensures bus.Valid() && |t.queue| < t.buffer
    ensures t.log + Deliver([h], t.queue, true) == Deliver([h], NumberedOn(name, k), true)
  {
    if catchUp || |t.queue| == t.buffer {
      bus.RunTopic(t);
    }
  }

  /** One step of EmitNumbered: event k goes behind what the topic's queue holds. */
  method EmitNext(bus: Bus, t: Topic, h: Handler, name: string, k: nat)
    requires bus.Valid() && bus.handlers == [h] && !bus.shuttingDown
    requires bus.topics.Topics == [t] && t.name == name && |t.queue| < t.buffer
    requires t.log + Deliver([h], t.queue, true) == Deliver([h], NumberedOn(name, k), true)
    modifies bus`poolQueue, bus.topics, bus.topics.slots, t
    ensures bus.Valid() && bus.topics.Topics == [t] && bus.topics.slots == old(bus.topics.slots)
    ensures t.log + Deliver([h], t.queue, true) == Deliver([h], NumberedOn(name, k + 1), true)
  {
    assert NamesOf(bus.topics.Topics) == [name];
    SendKeepsBacklog([h], t.log, t.queue, NumberedOn(name, k), Topical(k, name), true);
    NumberedGrow(name, k);
    ghost var sent := t.queue + [Topical(k, name)];
    ghost var delivered := t.log;
    bus.Emit(Topical(k, name));
    assert t in old(bus.topics.Topics);
    assert t.queue == sent && t.log == delivered;
  }

  /** The events Plain(ids[0]), ..., Plain(ids[|ids| - 1]). */
  function Plains(ids: seq<nat>): (es: seq<Event>)
    ensures |es| == |ids| && forall k :: 0 <= k < |ids| ==> es[k] == Plain(ids[k])
  {
    seq(|ids|, k requires 0 <= k < |ids| => Plain(ids[k]))
  }

  /** One more event of the prefix goes at the back. */
  lemma PlainsGrow(ids: seq<nat>, k: nat)
    requires k < |ids|
    ensures Plains(ids[..k + 1]) == Plains(ids[..k]) + [Plain(ids[k])]
  {
    assert ids[..k + 1][..k] == ids[..k];
  }

  /** Events without a topic are each handled exactly once by the time Shutdown returns,
      whenever the pool's workers catch up in between (before event k when k is in
      `schedule`, and whenever the pool queue is full); the order is not promised, so the
      calls are stated as a multiset. */
  method ConcurrentAllHandled(h: Handler, ids: seq<nat>, schedule: set<nat>) returns (log: seq<Invocation>)
    ensures |log| == |ids|
    ensures multiset(log) == multiset(seq(|ids|, k requires 0 <= k < |ids| => Invocation(h.id, Plain(ids[k]))))
  {
    var bus := EmitPlains(h, ids, schedule);
    bus.Shutdown();
    log := bus.poolLog;
    assert log == Deliver([h], Plains(ids), false);
    SingleHandlerSeesQueueOrder(h, Plains(ids), false);
    assert log == seq(|ids|, k requires 0 <= k < |ids| => Invocation(h.id, Plain(ids[k])));
  }

  /** A bus with the single handler h and four pool workers on which the topic-less
      events for `ids` have been emitted, a pool worker catching up before event k when k
      is in `schedule` or the pool queue is full: what the pool has delivered, followed by
      what its queue still holds, is the delivery of all the events in emission order. */
  method EmitPlains(h: Handler, ids: seq<nat>, schedule: set<nat>) returns (bus: Bus)
    ensures fresh(bus) && fresh(bus.topics) && fresh(bus.topics.slots)
    ensures bus.Valid() && bus.handlers == [h] && !bus.shuttingDown && bus.workers == 4
    ensures bus.topics.Topics == []
    ensures bus.poolLog + Deliver([h], bus.poolQueue, false) == Deliver([h], Plains(ids), false)
  {
    bus := Started([h], 4);
    var k := 0;
    assert Plains(ids[..0]) == [];
    while k < |ids|
      invariant k <= |ids|
      invariant fresh(bus.topics) && fresh(bus.topics.slots) && PoolReady(bus, h) && bus.workers == 4
      invariant bus.poolLog + Deliver([h], bus.poolQueue, false) == Deliver([h], Plains(ids[..k]), false)
    {
      EmitPlainNext(bus, h, ids, k, k in schedule);
      k := k + 1;
    }
    assert ids[..k] == ids;
  }

  /** A started bus with the single handler h, no topics, and running pool workers. */
  ghost predicate PoolReady(bus: Bus, h: Handler)
    reads bus, bus.topics, bus.topics.slots, bus.TopicSet()
  {
    && bus.Valid() && bus.handlers == [h] && !bus.shuttingDown && bus.topics.Topics == []
    && bus.poolOpen && bus.poolBuffer > 0 && bus.workers > 0
  }

  /** One step of ConcurrentAllHandled: a pool worker catches up when `catchUp` holds or
      the pool queue is full, then event k goes behind what the pool queue holds. */
  method EmitPlainNext(bus: Bus, h: Handler, ids: seq<nat>, k: nat, catchUp: bool)
    requires k < |ids| && PoolReady(bus, h)
    requires bus.poolLog + Deliver([h], bus.poolQueue, false) == Deliver([h], Plains(ids[..k]), false)
    modifies bus`poolQueue, bus`poolLog, bus.topics, bus.topics.slots
    ensures PoolReady(bus, h) && bus.topics.slots == old(bus.topics.slots)
    ensures bus.poolLog + Deliver([h], bus.poolQueue, false) == Deliver([h], Plains(ids[..k + 1]), false)
  {
    PoolCatchUp(bus, catchUp);
    SendPlain(bus, h, ids, k);
  }

  /** Event k goes behind what the pool queue holds. */
  method SendPlain(bus: Bus, h: Handler, ids: seq<nat>, k: nat)
    requires k < |ids|
    requires bus.Valid() && bus.handlers == [h] && !bus.shuttingDown && bus.topics.Topics == []
    requires bus.poolOpen && |bus.poolQueue| < bus.poolBuffer
    requires bus.poolLog + Deliver([h], bus.poolQueue, false) == Deliver([h], Plains(ids[..k]), false)
    modifies bus`poolQueue, bus.topics, bus.topics.slots
    ensures bus.Valid() && bus.topics.Topics == [] && bus.topics.slots == old(bus.topics.slots)
    ensures bus.poolLog + Deliver([h], bus.poolQueue, false) == Deliver([h], Plains(ids[..k + 1]), false)
  {
    SendKeepsBacklog([h], bus.poolLog, bus.poolQueue, Plains(ids[..k]), Plain(ids[k]), false);
    PlainsGrow(ids, k);
    bus.Emit(Plain(ids[k]));
  }

  /** Before the next send: when `catchUp` holds or the pool queue is full, a pool worker
      takes everything on the queue, and its calls join the log. */
  method PoolCatchUp(bus: Bus, catchUp: bool)
    requires bus.Valid() && bus.poolOpen && bus.poolBuffer > 0 && bus.workers > 0
    modifies bus`poolQueue, bus`poolLog
    ensures bus.Valid() && |bus.poolQueue| < bus.poolBuffer
    ensures bus.poolLog + Deliver(bus.handlers, bus.poolQueue, false)
         == old(bus.poolLog) + Deliver(bus.handlers, old(bus.poolQueue), false)
  {
    if catchUp || |bus.poolQueue| == bus.poolBuffer {
      assert FirstSentinel(bus.poolQueue) == |bus.poolQueue|;
      assert bus.poolQueue[..|bus.poolQueue|] == bus.poolQueue;
      var closed := bus.Worker();
    }
  }


  /** Every handler handles an event, in the order the handlers were given to Initialize. */
  method HandlersInRegistrationOrder(hs: seq<Handler>, id: nat) returns (log: seq<Invocation>)
    ensures |log| == |hs| && forall k :: 0 <= k < |hs| ==> log[k] == Invocation(hs[k].id, Plain(id))
  {
    var bus := Started(hs, 1);
    bus.Emit(Plain(id));
    bus.Shutdown();
    log := bus.poolLog;
    assert [Plain(id)][..0] == [];
    UnfilteredInvocations(hs, Plain(id));
  }
}
