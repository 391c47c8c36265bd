/** Events, handlers and the consumer loop shared by every queue of the bus:
    the dispatch pool's workers and each topic's worker. */
module Events {

  /** An event as the bus sees it. `Nil` is the nil event, which callers may
      pass to Emit and which the bus itself pushes as the stop sentinel;
      `Topical` events implement the Topic interface and are routed by name. */
  datatype Event = Nil | Plain(id: nat) | Topical(id: nat, topic: string)

  /** A handler: an abstract identity plus its ListensTo decision. What its
      Handle method does is arbitrary; the model records that it was called. */
  datatype Handler = Handler(id: nat, listens: Event -> bool)

  predicate ListensTo(h: Handler, e: Event) {
    h.listens(e)
  }

  /** One call of a handler's Handle method on an event. */
  datatype Invocation = Invocation(handler: nat, event: Event)

  /** The Handle calls a worker makes for one event, in handler order.
      When `filtered` holds, the worker first asks ListensTo and skips
      the handlers that decline. */
  function Invocations(hs: seq<Handler>, e: Event, filtered: bool): seq<Invocation>
  {
    if hs == [] then []
    else
      var h := hs[|hs| - 1];
      Invocations(hs[..|hs| - 1], e, filtered)
        + (if !filtered || ListensTo(h, e) then [Invocation(h.id, e)] else [])
  }

  /** The Handle calls a worker makes for a run of events, event by event in queue order. */
  function Deliver(hs: seq<Handler>, es: seq<Event>, filtered: bool): seq<Invocation>
  {
    if es == [] then []
    else Deliver(hs, es[..|es| - 1], filtered) + Invocations(hs, es[|es| - 1], filtered)
  }

  /** The position of the first stop sentinel in a queue, or its length when there is none. */
  function FirstSentinel(q: seq<Event>): (k: nat)
    ensures k <= |q|
    ensures Nil !in q[..k]
    ensures k < |q| ==> q[k] == Nil
    ensures k == |q| <==> Nil !in q
  {
    if q == [] then 0
    else if q[0] == Nil then 0
    else
      assert q[1..][..FirstSentinel(q[1..])] == q[1..1 + FirstSentinel(q[1..])];
      1 + FirstSentinel(q[1..])
  }

  /** The indices of the handlers that listen to `e`, in registration order. */
  function ListeningIndices(hs: seq<Handler>, e: Event): (ks: seq<nat>)
    ensures forall j :: 0 <= j < |ks| ==> ks[j] < |hs| && ListensTo(hs[ks[j]], e)
    ensures forall i, j :: 0 <= i < j < |ks| ==> ks[i] < ks[j]
    ensures forall k :: 0 <= k < |hs| && ListensTo(hs[k], e) ==> k in ks
  {
    if hs == [] then []
    else
      var ks := ListeningIndices(hs[..|hs| - 1], e);
      if ListensTo(hs[|hs| - 1], e) then ks + [|hs| - 1] else ks
  }

  /** A worker that does not consult ListensTo calls every handler once, in registration order. */
  lemma {:induction false} UnfilteredInvocations(hs: seq<Handler>, e: Event)
    ensures |Invocations(hs, e, false)| == |hs|
    ensures forall k :: 0 <= k < |hs| ==> Invocations(hs, e, false)[k] == Invocation(hs[k].id, e)
  {
    if hs != [] {
      UnfilteredInvocations(hs[..|hs| - 1], e);
    }
  }

  /** A worker that consults ListensTo calls exactly the listening handlers, in registration order. */
  lemma {:induction false} FilteredInvocations(hs: seq<Handler>, e: Event)
    ensures |Invocations(hs, e, true)| == |ListeningIndices(hs, e)|
    ensures forall j :: 0 <= j < |ListeningIndices(hs, e)| ==>
              Invocations(hs, e, true)[j] == Invocation(hs[ListeningIndices(hs, e)[j]].id, e)
  {
    if hs != [] {
      var front, last := hs[..|hs| - 1], hs[|hs| - 1];
      FilteredInvocations(front, e);
      var ks := ListeningIndices(front, e);
      assert ListeningIndices(hs, e) == if ListensTo(last, e) then ks + [|hs| - 1] else ks;
      assert Invocations(hs, e, true)
          == Invocations(front, e, true) + if ListensTo(last, e) then [Invocation(last.id, e)] else [];
      forall j | 0 <= j < |ks|
        ensures hs[ks[j]] == front[ks[j]]
      {
      }
    }
  }

  /** Delivery of consecutive runs of a queue is the delivery of each run, one after the other. */
  lemma {:induction false} DeliverAppend(hs: seq<Handler>, a: seq<Event>, b: seq<Event>, filtered: bool)
    ensures Deliver(hs, a + b, filtered) == Deliver(hs, a, filtered) + Deliver(hs, b, filtered)
  {
    if b == [] {
      assert a + b == a;
    } else {
      var b', last := b[..|b| - 1], b[|b| - 1];
      DeliverAppend(hs, a, b', filtered);
      assert (a + b)[..|a + b| - 1] == a + b';
      assert (a + b)[|a + b| - 1] == last;
      calc {
        Deliver(hs, a + b, filtered);
        Deliver(hs, a + b', filtered) + Invocations(hs, last, filtered);
        Deliver(hs, a, filtered) + Deliver(hs, b', filtered) + Invocations(hs, last, filtered);
        Deliver(hs, a, filtered) + Deliver(hs, b, filtered);
      }
    }
  }

  /** FIFO: the Handle calls for the event at position k of a queue come after those
      for every earlier event and before those for every later one. */
  lemma DeliverAt(hs: seq<Handler>, es: seq<Event>, k: nat, filtered: bool)
    requires k < |es|
    ensures Deliver(hs, es, filtered)
         == Deliver(hs, es[..k], filtered) + Invocations(hs, es[k], filtered) + Deliver(hs, es[k + 1..], filtered)
  {
    assert es == es[..k] + [es[k]] + es[k + 1..];
    DeliverAppend(hs, es[..k] + [es[k]], es[k + 1..], filtered);
    DeliverAppend(hs, es[..k], [es[k]], filtered);
    assert Deliver(hs, [es[k]], filtered) == Invocations(hs, es[k], filtered);
  }

  /** Delivering one more event appends its calls to those for the events before it. */
  lemma DeliverSnoc(hs: seq<Handler>, q: seq<Event>, e: Event, filtered: bool)
    ensures Deliver(hs, q + [e], filtered) == Deliver(hs, q, filtered) + Invocations(hs, e, filtered)
  {
    assert (q + [e])[..|q|] == q;
  }

  /** Delivered calls followed by the delivery of what is still queued stay the delivery
      of everything sent when one more event is sent: it goes behind the queue. */
  lemma {:induction false} SendKeepsBacklog(hs: seq<Handler>, log: seq<Invocation>, queue: seq<Event>, sent: seq<Event>, e: Event, filtered: bool)
    requires log + Deliver(hs, queue, filtered) == Deliver(hs, sent, filtered)
    ensures log + Deliver(hs, queue + [e], filtered) == Deliver(hs, sent + [e], filtered)
  {
    DeliverSnoc(hs, queue, e, filtered);
    DeliverSnoc(hs, sent, e, filtered);
  }

  /** With one handler that is called on every event (because the worker does not ask
      ListensTo, or because the handler listens to them all), the handler observes the
      events exactly in queue order: the ordered-topic guarantee. */
  lemma {:induction false} SingleHandlerSeesQueueOrder(h: Handler, es: seq<Event>, filtered: bool)
    requires filtered ==> forall k :: 0 <= k < |es| ==> ListensTo(h, es[k])
    ensures |Deliver([h], es, filtered)| == |es|
    ensures forall k :: 0 <= k < |es| ==> Deliver([h], es, filtered)[k] == Invocation(h.id, es[k])
  {
    if es != [] {
      var front := es[..|es| - 1];
      assert forall k :: 0 <= k < |front| ==> front[k] == es[k];
      SingleHandlerSeesQueueOrder(h, front, filtered);
      assert [h][..0] == [];
      assert Invocations([h], es[|es| - 1], filtered) == [Invocation(h.id, es[|es| - 1])];
    }
  }

  /** A sentinel pushed behind a queue without sentinels is reached only after every
      queued event, and nothing pushed after it is consumed. */
  lemma SentinelBehindPending(q: seq<Event>, later: seq<Event>)
    requires Nil !in q
    ensures FirstSentinel(q + [Nil] + later) == |q|
    ensures (q + [Nil] + later)[..|q|] == q
    ensures (q + [Nil] + later)[|q| + 1..] == later
  {
    var r := q + [Nil] + later;
    assert r[..|q|] == q;
    assert r[|q|] == Nil;
  }

  /** The handling of one event: the handlers in registration order, each called when it
      listens to the event or when the worker does not filter. */
  method Dispatch(hs: seq<Handler>, evt: Event, filtered: bool) returns (calls: seq<Invocation>)
    ensures calls == Invocations(hs, evt, filtered)
  {
    var j := 0;
    calls := [];
    while j < |hs|
      invariant j <= |hs|
      invariant calls == Invocations(hs[..j], evt, filtered)
    {
      var h := hs[j];
      if !filtered || ListensTo(h, evt) {
        calls := calls + [Invocation(h.id, evt)];
      }
      assert hs[..j + 1][..j] == hs[..j];
      j := j + 1;
    }
    assert hs[..|hs|] == hs;
  }

  /** One worker's loop over the events available on its queue: take events in order,
      stop at the first sentinel, and call the handlers on every event before it.
      `stopped` says whether the worker met the sentinel (and so signals closed);
      `rest` is what is left on the queue. */
  method Consume(q: seq<Event>, hs: seq<Handler>, filtered: bool)
    returns (log: seq<Invocation>, rest: seq<Event>, stopped: bool)
    ensures stopped <==> Nil in q
    ensures log == Deliver(hs, q[..FirstSentinel(q)], filtered)
    ensures rest == if stopped then q[FirstSentinel(q) + 1..] else []
  {
    var i := 0;
    log := [];
    while i < |q|
      invariant i <= |q|
      invariant Nil !in q[..i]
      invariant log == Deliver(hs, q[..i], filtered)
    {
      var evt := q[i];
      if evt == Nil {
        assert FirstSentinel(q) == i;
        rest := q[i + 1..];
        stopped := true;
        return;
      }
      var calls := Dispatch(hs, evt, filtered);
      assert q[..i + 1][..i] == q[..i];
      log := log + calls;
      i := i + 1;
    }
    assert q[..i] == q;
    rest, stopped := [], false;
  }
}
