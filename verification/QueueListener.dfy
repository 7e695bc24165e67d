/**
 The listener's loop over its ring buffer: each case of the select statement as a method that is
 proved to be one event of module ListenerModel.
 */
module QueueListener {
  import opened Options
  import opened ConnRing
  import opened ListenerModel

  class Listener {
    const settings: Settings
    const queue: Ring<Conn>
    var concurrency: int
    var err: Option<string>
    var quit: bool
    var stopped: bool
    ghost var model: State  // the state of the whole system this listener is part of

    ghost predicate Valid()
      reads this, queue, queue.connections
    {
      && queue.Valid() && queue.connections.Length == MaxQueueSize(settings)
      && concurrency == model.concurrency && err == model.err
      && quit == model.quit && stopped == model.stopped
      && (!stopped ==> queue.contents == model.queue)
      && Inv(settings, model)
    }

    constructor (settings: Settings)
      ensures Valid() && fresh(queue) && fresh(queue.connections)
      ensures this.settings == settings && model == Initial()
    {
      this.settings := settings;
      concurrency, err, quit, stopped := 0, None, false, false;
      queue := new Ring(MaxQueueSize(settings));
      model := Initial();
      new;
      assert Ids([]) == {};
    }

    // What the loop is ready to send: the newest connection while there is room, and the permanent
    // error once the queue is empty.
    method Offers() returns (nextConn: Option<Conn>, error: Option<string>)
      requires Valid() && !stopped
      ensures nextConn.Some? <==> Enabled(settings, model, Accept)
      ensures nextConn.Some? ==> nextConn.value == model.queue[|model.queue| - 1]
      ensures error.Some? <==> Enabled(settings, model, DeliverError)
      ensures error.Some? ==> error == model.err
    {
      nextConn, error := None, None;
      if queue.size > 0 && concurrency < MaxConcurrency(settings) {
        nextConn := queue.Peek();
      }
      if err.Some? && queue.size == 0 {
        error := err;
      }
    }

    // A connection arrives; returns the one that is closed to make room. Connections are numbered
    // by arrival.
    method OnReceive(id: nat, now: int) returns (drop: Option<Conn>)
      requires Valid() && Enabled(settings, model, Receive(now)) && id == model.arrived
      modifies this, queue, queue.connections
      ensures Valid() && model == Apply(settings, old(model), Receive(now))
      ensures drop == if |old(model).queue| == MaxQueueSize(settings) then Some(old(model).queue[0]) else None
    {
      StepKeepsInv(settings, model, Receive(now));
      var deadline := if settings.queueTimeout > 0 then now + settings.queueTimeout else 0;
      drop := queue.Enqueue(Conn(id, deadline));
      model := Apply(settings, model, Receive(now));
    }

    method OnExternalError(error: string)
      requires Valid() && Enabled(settings, model, ExternalError(error))
      modifies this
      ensures Valid() && model == Apply(settings, old(model), ExternalError(error))
    {
      StepKeepsInv(settings, model, ExternalError(error));
      err := Some(error);
      model := Apply(settings, model, ExternalError(error));
    }

    // Accept has taken the offered connection.
    method OnAccept() returns (c: Option<Conn>)
      requires Valid() && Enabled(settings, model, Accept)
      modifies this, queue, queue.connections
      ensures Valid() && model == Apply(settings, old(model), Accept)
      ensures c == Some(old(model).queue[|old(model).queue| - 1])
    {
      StepKeepsInv(settings, model, Accept);
      c := queue.Dequeue();
      concurrency := concurrency + 1;
      model := Apply(settings, model, Accept);
    }

    // Accept has taken the permanent error, so the listener closes.
    method OnDeliverError() returns (error: Option<string>)
      requires Valid() && Enabled(settings, model, DeliverError)
      modifies this
      ensures Valid() && model == Apply(settings, old(model), DeliverError)
      ensures error == old(model).err
    {
      StepKeepsInv(settings, model, DeliverError);
      error := err;
      err := None;
      quit := true;
      model := Apply(settings, model, DeliverError);
    }

    // A token came back; which connection it belongs to is not known to the loop.
    method OnRelease(ghost id: nat)
      requires Valid() && Enabled(settings, model, Release(id))
      modifies this
      ensures Valid() && model == Apply(settings, old(model), Release(id))
    {
      StepKeepsInv(settings, model, Release(id));
      concurrency := concurrency - 1;
      model := Apply(settings, model, Release(id));
    }

    // Closes the connections whose deadline has passed, oldest first.
    method OnTimeout(now: int) returns (closed: seq<Conn>)
      requires Valid() && Enabled(settings, model, Timeout(now))
      modifies this, queue, queue.connections
      ensures Valid() && model == Apply(settings, old(model), Timeout(now))
      ensures closed == old(model).queue[..Expired(old(model).queue, now)]
    {
      StepKeepsInv(settings, model, Timeout(now));
      closed := Sweep(queue, now);
      model := Apply(settings, model, Timeout(now));
    }

    // Closes everything that waits and ends the loop.
    method OnQuit() returns (closed: seq<Conn>)
      requires Valid() && Enabled(settings, model, Stop)
      modifies this
      ensures Valid() && model == Apply(settings, old(model), Stop)
      ensures closed == old(model).queue
    {
      StepKeepsInv(settings, model, Stop);
      closed := queue.RangeOver();
      stopped := true;
      model := Apply(settings, model, Stop);
    }

    // Closing again has no effect.
    method CloseListener()
      requires Valid()
      modifies this
      ensures Valid() && model == Apply(settings, old(model), Close)
      ensures old(quit) ==> model == old(model)
    {
      StepKeepsInv(settings, model, Close);
      if !quit {
        quit := true;
      }
      model := Apply(settings, model, Close);
    }
  }

  // Takes off and closes expired connections at the old end.
  method Sweep(queue: Ring<Conn>, now: int) returns (closed: seq<Conn>)
    requires queue.Valid()
    modifies queue, queue.connections
    ensures queue.Valid()
    ensures closed == old(queue.contents)[..Expired(old(queue.contents), now)]
    ensures queue.contents == old(queue.contents)[Expired(old(queue.contents), now)..]
  {
    closed := [];
    while true
      invariant queue.Valid()
      invariant old(queue.contents) == closed + queue.contents
      invariant Expired(old(queue.contents), now) == |closed| + Expired(queue.contents, now)
      decreases queue.size
    {
      if queue.size == 0 {
        break;
      }
      var oldest := queue.PeekOldest();
      if oldest.value.deadline >= now {
        break;
      }
      ExpiredStep(queue.contents, now);
      var drop := queue.DequeueOldest();
      closed := closed + [drop.value];
    }
    assert (closed + queue.contents)[..|closed|] == closed;
    assert (closed + queue.contents)[|closed|..] == queue.contents;
  }

  lemma ExpiredStep(queue: seq<Conn>, now: int)
    requires queue != [] && queue[0].deadline < now
    ensures Expired(queue, now) == 1 + Expired(queue[1..], now)
    ensures queue == [queue[0]] + queue[1..]
  {
  }
}
