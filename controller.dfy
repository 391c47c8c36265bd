/** The controller: the same routing, pool and topic registry as the bus, without the
    latches, with ListensTo consulted by its pool workers, and with fixed sizes. */
module Controllers {
  import opened Events
  import opened Topics
  import opened Registry
  import opened Counters

  /** The starting capacity of the controller's topic slice. */
  const TopicsCapacity: nat := 10

  class Controller {
    const handlers: seq<Handler>
    var topics: TopicTable
    /** The shared pool channel (capacity TopicBuffer) and what is on it. */
    var poolQueue: seq<Event>
    var poolLog: seq<Invocation>
    var workers: Uint32

    ghost function TopicSet(): set<Topic>
      reads this, topics
    {
      set t | t in topics.Topics
    }

    /** handle never puts the nil event on a queue and topic names are unique. */
    ghost predicate Valid()
      reads this, topics, topics.slots, TopicSet()
    {
      && topics.Valid()
      && UniqueNames(topics.Topics)
      && (forall t :: t in topics.Topics ==> t.Valid() && Nil !in t.queue)
      && Nil !in poolQueue
      && |poolQueue| <= TopicBuffer
    }

    /** newController: an empty topic slice of capacity 10, an empty pool queue, and one
        worker counted up per pool worker started. */
    constructor (concurrentPoolSize: int, handlers: seq<Handler>)
      ensures Valid() && fresh(topics) && fresh(topics.slots)
      ensures topics.Topics == [] && topics.slots.Length == TopicsCapacity
      ensures this.handlers == handlers && poolQueue == [] && poolLog == []
      ensures workers == Max0(concurrentPoolSize) % Modulus
    {
      this.handlers := handlers;
      topics := new TopicTable(TopicsCapacity);
      poolQueue, poolLog := [], [];
      workers := 0;
      new;
      var i := 0;
      while i < concurrentPoolSize
        modifies this`workers
        invariant i <= Max0(concurrentPoolSize)
        invariant workers == i % Modulus
      {
        IncrementAfterAdding(0, i);
        WorkerUp();
        i := i + 1;
      }
    }

    /** handle: the nil event is ignored; a topic event goes to the topic of that name,
        created on first sight; any other event goes on the pool queue. A send on a full
        queue would block and is not admitted. */
    method Handle(evt: Event)
      requires Valid()
      requires evt.Plain? ==> |poolQueue| < TopicBuffer
      requires evt.Topical? ==> forall t :: t in topics.Topics && t.name == evt.topic ==> |t.queue| < t.buffer
      modifies this`poolQueue, topics, topics.slots, TopicSet()
      ensures Valid()
      ensures poolQueue == (if evt.Plain? then old(poolQueue) + [evt] else old(poolQueue))
      ensures forall t :: t in old(topics.Topics) ==>
                && t.log == old(t.log) && t.stopped == old(t.stopped)
                && t.queue == if evt.Topical? && t.name == evt.topic then old(t.queue) + [evt] else old(t.queue)
      ensures !(evt.Topical? && evt.topic !in NamesOf(old(topics.Topics))) ==>
                topics.Topics == old(topics.Topics) && topics.slots == old(topics.slots)
      ensures evt.Topical? && evt.topic !in NamesOf(old(topics.Topics)) ==>
                && |topics.Topics| == |old(topics.Topics)| + 1
                && topics.Topics[..|old(topics.Topics)|] == old(topics.Topics)
                && var t := topics.Topics[|old(topics.Topics)|];
                   fresh(t) && t.name == evt.topic && t.buffer == TopicBuffer
                   && t.queue == [evt] && t.log == [] && !t.stopped
                   && topics.slots.Length == GrownCapacity(|old(topics.Topics)|, old(topics.slots.Length))
    {
      if evt == Nil {
        return;
      }
      if evt.Topical? {
        var tpc := topics.LookupOrCreate(evt.topic, TopicBuffer);
        assert forall t :: t in old(topics.Topics) && t.name == evt.topic ==> t == tpc by {
          UniqueNamesIdentify(topics.Topics, tpc);
        }
        tpc.Handle(evt);
        return;
      }
      poolQueue := poolQueue + [evt];
    }

    /** len: the number of topics. */
    function Len(): (n: nat)
      requires Valid()
      reads this, topics, topics.slots, TopicSet()
      ensures n == |topics.Topics|
    {
      topics.Len()
    }

    /** cap: the capacity of the topic slice, never below its length. */
    function Cap(): (c: nat)
      requires Valid()
      reads this, topics, topics.slots, TopicSet()
      ensures c == topics.slots.Length && |topics.Topics| <= c
    {
      topics.Cap()
    }

    /** empty: true exactly when there is no topic. */
    function Empty(): (e: bool)
      requires Valid()
      reads this, topics, topics.slots, TopicSet()
      ensures e <==> topics.Topics == []
    {
      topics.Len() <= 0
    }

    /** One pool worker's loop over what is on the shared queue: on each event in queue
        order, the handlers that listen to it, in registration order, until the first
        sentinel. `closed` says that the worker met the sentinel. Only a started worker
        runs: a controller made with pool size 0 never takes events off its pool queue. */
    method Worker() returns (closed: bool)
      requires workers > 0
      modifies this`poolQueue, this`poolLog
      ensures closed <==> Nil in old(poolQueue)
      ensures poolLog == old(poolLog) + Deliver(handlers, old(poolQueue)[..FirstSentinel(old(poolQueue))], true)
      ensures poolQueue == if closed then old(poolQueue)[FirstSentinel(old(poolQueue)) + 1..] else []
    {
      var calls, rest, stopped := Consume(poolQueue, handlers, true);
      poolLog := poolLog + calls;
      poolQueue := rest;
      closed := stopped;
    }

    method WorkerUp()
      modifies this`workers
      ensures workers == WrappingIncrement(old(workers))
    {
      workers := WrappingIncrement(workers);
    }

    method WorkerDown()
      modifies this`workers
      ensures workers == WrappingDecrement(old(workers))
    {
      workers := WrappingDecrement(workers);
    }

    /** shutdown: while the worker count is positive, push a sentinel on the pool queue,
        wait until a worker takes it, and count that worker down; then shut every topic
        down in table order. There is no latch: a second call would wait forever on topic
        workers that have already stopped, so every topic must still be running. */
    method Shutdown()
      requires Valid()
      requires forall t :: t in topics.Topics ==> !t.stopped
      modifies this`workers, this`poolQueue, this`poolLog, TopicSet()
      ensures Valid() && workers == 0
      ensures poolLog == old(poolLog) + (if old(workers) > 0 then Deliver(handlers, old(poolQueue), true) else [])
      ensures poolQueue == (if old(workers) > 0 then [] else old(poolQueue))
      ensures forall t :: t in topics.Topics ==>
                t.stopped && t.queue == [] && t.log == old(t.log) + Deliver(handlers, old(t.queue), true)
    {
      while workers > 0
        modifies this`workers, this`poolQueue, this`poolLog
        invariant workers <= old(workers)
        invariant Nil !in poolQueue && |poolQueue| <= TopicBuffer
        invariant workers == old(workers) ==> poolQueue == old(poolQueue) && poolLog == old(poolLog)
        invariant workers < old(workers) ==>
                    poolQueue == [] && poolLog == old(poolLog) + Deliver(handlers, old(poolQueue), true)
        decreases workers
      {
        var pending := poolQueue;
        SentinelBehindPending(pending, []);
        assert pending + [Nil] + [] == pending + [Nil];
        poolQueue := poolQueue + [Nil];
        var closed := Worker();
        WorkerDown();
      }
      ShutdownTopics();
    }

    /** The second half of shutdown: every topic delivers what it holds and stops. */
    method ShutdownTopics()
      requires topics.Valid() && UniqueNames(topics.Topics)
      requires forall t :: t in topics.Topics ==> !t.stopped && Nil !in t.queue
      modifies TopicSet()
      ensures forall t :: t in topics.Topics ==>
                t.stopped && t.queue == [] && t.log == old(t.log) + Deliver(handlers, old(t.queue), true)
    {
      var i := 0;
      while i < topics.len
        invariant i <= topics.len
        invariant forall j :: 0 <= j < i ==>
                    var t := topics.Topics[j];
                    t.stopped && t.queue == [] && t.log == old(t.log) + Deliver(handlers, old(t.queue), true)
        invariant forall j :: i <= j < |topics.Topics| ==>
                    var t := topics.Topics[j];
                    t.queue == old(t.queue) && t.log == old(t.log) && !t.stopped
      {
        var tpc := topics.slots[i];
        tpc.Shutdown(handlers);
        i := i + 1;
      }
    }
  }

  /** A new controller has no topics and the default capacity. */
  method NewControllerIsEmpty() returns (len: nat, cap: nat, empty: bool)
    ensures len == 0 && cap == TopicsCapacity && empty
  {
    var ctrl := new Controller(0, []);
    len, cap, empty := ctrl.Len(), ctrl.Cap(), ctrl.Empty();
  }

  /** Handling a topic event and then the nil event leaves exactly one topic, named
      after the event's topic. */
  method HandleThenNil(evt: Event) returns (len: nat, first: string)
    requires evt.Topical?
    ensures len == 1 && first == evt.topic
  {
    var ctrl := new Controller(0, []);
    ctrl.Handle(evt);
    ctrl.Handle(Nil);
    len := ctrl.Len();
    first := ctrl.topics.slots[0].name;
  }

  /** Topics with pairwise different names, one event each, added to a fresh controller:
      the first keeps the capacity at 10, and ten more make the length 11 and the
      capacity exactly 20. */
  method CapacityDoubles(names: seq<string>) returns (capAfterFirst: nat, len: nat, cap: nat)
    requires |names| == TopicsCapacity + 1
    requires forall i, j :: 0 <= i < j < |names| ==> names[i] != names[j]
    ensures capAfterFirst == TopicsCapacity
    ensures len == TopicsCapacity + 1 && cap == 2 * TopicsCapacity
  {
    var ctrl := new Controller(0, []);
    capAfterFirst := 0;
    var i := 0;
    while i < |names|
      invariant i <= |names|
      invariant ctrl.Valid() && fresh(ctrl.topics) && fresh(ctrl.topics.slots)
      invariant NamesOf(ctrl.topics.Topics) == names[..i]
      invariant ctrl.topics.slots.Length == CapacityAfter(TopicsCapacity, 0, i)
      invariant forall t :: t in ctrl.topics.Topics ==> fresh(t)
      invariant i >= 1 ==> capAfterFirst == TopicsCapacity
    {
      assert names[i] !in names[..i];
      forall t | t in ctrl.topics.Topics
        ensures t.name != names[i]
      {
        NameOfMember(ctrl.topics.Topics, t);
      }
      CapacityAfterStep(TopicsCapacity, 0, i);
      ctrl.Handle(Topical(i, names[i]));
      assert names[..i + 1] == names[..i] + [names[i]];
      if i == 0 {
        capAfterFirst := ctrl.Cap();
      }
      i := i + 1;
    }
    CapacityDoublesOnce(TopicsCapacity, 0, TopicsCapacity + 1);
    len, cap := ctrl.Len(), ctrl.Cap();
  }
}
