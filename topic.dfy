/** A topic worker: one named, bounded FIFO queue consumed by one dedicated worker. */
module Topics {
  import opened Events

  /** The buffer size of a topic's queue when none is configured. */
  const TopicBuffer: nat := 100

  class Topic {
    const name: string
    /** The capacity of the queue's channel. */
    const buffer: nat
    /** Events sent to the topic and not yet taken by its worker. */
    var queue: seq<Event>
    /** The Handle calls the topic's worker has made, in order. */
    var log: seq<Invocation>
    /** Whether the worker has taken the sentinel and signalled closed. */
    var stopped: bool

    ghost predicate Valid()
      reads this
    {
      |queue| <= buffer
    }

    /** newTopic: the topic keeps its name, starts with an empty queue, and its worker is running. */
    constructor (name: string, buffer: nat)
      ensures Valid()
      ensures this.name == name && this.buffer == buffer
      ensures queue == [] && log == [] && !stopped
    {
      this.name := name;
      this.buffer := buffer;
      queue := [];
      log := [];
      stopped := false;
    }

    /** Sending on a full channel blocks; the model admits a send only while there is room. */
    method Handle(evt: Event)
      requires Valid()
      requires |queue| < buffer
      modifies this`queue
      ensures Valid()
      ensures queue == old(queue) + [evt]
    {
      queue := queue + [evt];
    }

    /** The topic's worker, run over what is on its queue: it takes events in FIFO
        order, calls the handlers that listen to each (the owner's handler list, read
        through a pointer when the event is processed), and stops for good at the
        first sentinel. A stopped worker takes nothing more. */
    method Worker(hs: seq<Handler>)
      modifies this`queue, this`log, this`stopped
      ensures old(Valid()) ==> Valid()
      ensures old(stopped) ==> queue == old(queue) && log == old(log) && stopped
      ensures !old(stopped) ==>
                && stopped == (Nil in old(queue))
                && log == old(log) + Deliver(hs, old(queue)[..FirstSentinel(old(queue))], true)
                && queue == (if stopped then old(queue)[FirstSentinel(old(queue)) + 1..] else [])
    {
      if stopped {
        return;
      }
      var calls, rest, closed := Consume(queue, hs, true);
      log := log + calls;
      queue := rest;
      stopped := closed;
    }

    /** shutdown: push the sentinel behind everything already queued and wait until the
        worker signals closed. A worker that has already stopped would never answer,
        and a queue that already holds a sentinel would stop it early, so neither is
        admitted. Every event queued before the call is delivered before the worker stops. */
    method Shutdown(hs: seq<Handler>)
      requires !stopped && Nil !in queue
      modifies this`queue, this`log, this`stopped
      ensures Valid()
      ensures stopped && queue == []
      ensures log == old(log) + Deliver(hs, old(queue), true)
    {
      SentinelBehindPending(queue, []);
      assert queue + [Nil] + [] == queue + [Nil];
      queue := queue + [Nil];
      Worker(hs);
    }
  }
}
