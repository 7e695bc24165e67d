/**
 The queue listener as a state machine: one event per case of its select loop, and events for
 what the outside does with accepted connections. Goroutines are the choice of the next event.
 */
module ListenerModel {
  import opened Options

  // ---------- Sizes ----------

  datatype Settings = Settings(maxConcurrency: int, maxQueueSize: int, memoryLimitBytes: int,
                               connectionBytes: int, queueTimeout: int)

  const DEFAULT_MEMORY_LIMIT_BYTES := 150_000_000
  const DEFAULT_CONNECTION_BYTES := 50_000
  const MAX_CALCULATED_QUEUE_SIZE := 50_000

  function MemoryLimit(o: Settings): int {
    if o.memoryLimitBytes <= 0 then DEFAULT_MEMORY_LIMIT_BYTES else o.memoryLimitBytes
  }

  function ConnectionBytes(o: Settings): int {
    if o.connectionBytes <= 0 then DEFAULT_CONNECTION_BYTES else o.connectionBytes
  }

  function MaxConcurrency(o: Settings): (n: int)
    ensures n >= 1
    ensures o.maxConcurrency <= 0 && n > 1 ==> n * ConnectionBytes(o) <= MemoryLimit(o)
  {
    if o.maxConcurrency > 0 then o.maxConcurrency
    else
      var n := MemoryLimit(o) / ConnectionBytes(o);
      if n <= 0 then 1 else n
  }

  function MaxQueueSize(o: Settings): (n: int)
    ensures n >= 1
    ensures o.maxQueueSize <= 0 ==> n <= MAX_CALCULATED_QUEUE_SIZE
  {
    if o.maxQueueSize > 0 then o.maxQueueSize
    else if 10 * MaxConcurrency(o) > MAX_CALCULATED_QUEUE_SIZE then MAX_CALCULATED_QUEUE_SIZE
    else 10 * MaxConcurrency(o)
  }

  // ---------- States and events ----------

  // A connection is numbered by its arrival.
  datatype Conn = Conn(id: nat, deadline: int)

  datatype State = State(
    concurrency: int,         // the loop's counter
    queue: seq<Conn>,         // from oldest to newest
    err: Option<string>,      // a permanent error that is not yet delivered
    quit: bool,
    stopped: bool,            // the loop has returned
    externalDone: bool,       // nothing more arrives
    arrived: nat,
    clock: int,               // the time of the latest arrival
    out: set<nat>,            // handed out, token not yet returned
    closed: set<nat>,         // handed out and closed after quit, without returning a token
    released: set<nat>,       // handed out and closed, token returned
    dropped: set<nat>)        // closed without having been handed out

  datatype Event =
    | Receive(now: int)
    | ExternalError(error: string)
    | Accept
    | DeliverError
    | Release(id: nat)
    | CloseAfterQuit(id: nat)
    | Timeout(now: int)
    | Close
    | Stop

  function Initial(): State {
    State(0, [], None, false, false, false, 0, 0, {}, {}, {}, {})
  }

  // The loop offers the newest connection while there is room, and the error once the queue is
  // drained. A connection is closed only once.
  predicate Enabled(o: Settings, s: State, e: Event) {
    match e
    case Receive(now) => !s.stopped && !s.externalDone && s.clock <= now
    case ExternalError(_) => !s.stopped && !s.externalDone
    case Accept => !s.stopped && s.queue != [] && s.concurrency < MaxConcurrency(o)
    case DeliverError => !s.stopped && s.err.Some? && s.queue == []
    case Release(id) => !s.stopped && id in s.out && id !in s.closed
    case CloseAfterQuit(id) => s.quit && id in s.out && id !in s.closed
    case Timeout(now) => !s.stopped && o.queueTimeout > 0
    case Close => true
    case Stop => s.quit && !s.stopped
  }

  function Ids(queue: seq<Conn>): set<nat> {
    set i | 0 <= i < |queue| :: queue[i].id
  }

  // How many connections at the old end have passed their deadline.
  function Expired(queue: seq<Conn>, now: int): (n: nat)
    ensures n <= |queue|
  {
    if queue != [] && queue[0].deadline < now then 1 + Expired(queue[1..], now) else 0
  }

  function Deadline(o: Settings, now: int): int {
    if o.queueTimeout > 0 then now + o.queueTimeout else 0
  }

  function Apply(o: Settings, s: State, e: Event): State
    requires Enabled(o, s, e)
  {
    match e
    case Receive(now) =>
      var c := Conn(s.arrived, Deadline(o, now));
      var s := s.(arrived := s.arrived + 1, clock := now);
      if |s.queue| == MaxQueueSize(o) then
        s.(queue := s.queue[1..] + [c], dropped := s.dropped + {s.queue[0].id})
      else s.(queue := s.queue + [c])
    case ExternalError(error) => s.(err := Some(error), externalDone := true)
    case Accept =>
      var n := |s.queue| - 1;
      s.(queue := s.queue[..n], concurrency := s.concurrency + 1, out := s.out + {s.queue[n].id})
    case DeliverError => s.(err := None, quit := true)
    case Release(id) => s.(concurrency := s.concurrency - 1, out := s.out - {id}, released := s.released + {id})
    case CloseAfterQuit(id) => s.(closed := s.closed + {id})
    case Timeout(now) =>
      var n := Expired(s.queue, now);
      s.(queue := s.queue[n..], dropped := s.dropped + Ids(s.queue[..n]))
    case Close => s.(quit := true)
    case Stop => s.(stopped := true, queue := [], dropped := s.dropped + Ids(s.queue))
  }

  // ---------- The invariant ----------

  // Arrival order is queue order, and so is deadline order.
  ghost predicate InOrder(o: Settings, s: State) {
    && (forall i, j :: 0 <= i < j < |s.queue| ==> s.queue[i].id < s.queue[j].id)
    && (forall i :: 0 <= i < |s.queue| ==> s.queue[i].id < s.arrived)
    && (forall i, j :: 0 <= i < j < |s.queue| ==> s.queue[i].deadline <= s.queue[j].deadline)
    && (forall i :: 0 <= i < |s.queue| ==> s.queue[i].deadline <= Deadline(o, s.clock))
  }

  // Every connection that arrived is in exactly one place.
  ghost predicate Partition(s: State) {
    && Ids(s.queue) !! s.out && Ids(s.queue) !! s.released && Ids(s.queue) !! s.dropped
    && s.out !! s.released && s.out !! s.dropped && s.released !! s.dropped
    && (forall id: nat :: id < s.arrived <==> id in Ids(s.queue) || id in s.out || id in s.released || id in s.dropped)
  }

  ghost predicate Counted(o: Settings, s: State) {
    && s.concurrency == |s.out| <= MaxConcurrency(o)
    && |s.queue| <= MaxQueueSize(o)
    && s.closed <= s.out && (s.closed != {} ==> s.quit)
    && (s.err.Some? ==> s.externalDone)
    && (s.stopped ==> s.quit && s.queue == [])
  }

  ghost predicate Inv(o: Settings, s: State) {
    InOrder(o, s) && Partition(s) && Counted(o, s)
  }

  lemma IdsAppend(queue: seq<Conn>, c: Conn)
    ensures Ids(queue + [c]) == Ids(queue) + {c.id}
  {
    assert forall i :: 0 <= i < |queue| ==> (queue + [c])[i] == queue[i];
    assert (queue + [c])[|queue|] == c;
  }

  lemma IdsSplit(queue: seq<Conn>, n: nat)
    requires n <= |queue|
    ensures Ids(queue) == Ids(queue[..n]) + Ids(queue[n..])
    ensures (forall i, j :: 0 <= i < j < |queue| ==> queue[i].id < queue[j].id) ==> Ids(queue[..n]) !! Ids(queue[n..])
  {
    forall id | id in Ids(queue) ensures id in Ids(queue[..n]) + Ids(queue[n..]) {
      var i: nat :| i < |queue| && queue[i].id == id;
      if i < n { assert queue[..n][i].id == id; } else { assert queue[n..][i - n].id == id; }
    }
  }

  // Appending the latest arrival keeps a queue in order, and so does taking from either end.
  lemma AppendKeepsOrder(o: Settings, s: State, t: State)
    requires InOrder(o, s) && s.clock <= t.clock && t.arrived == s.arrived + 1
    requires t.queue == s.queue + [Conn(s.arrived, Deadline(o, t.clock))]
    ensures InOrder(o, t)
  {
  }

  lemma SliceKeepsOrder(o: Settings, s: State, t: State, lo: nat, hi: nat)
    requires InOrder(o, s) && lo <= hi <= |s.queue|
    requires t == s.(queue := s.queue[lo..hi])
    ensures InOrder(o, t)
  {
  }

  lemma ReceiveKeepsOrder(o: Settings, s: State, now: int)
    requires Inv(o, s) && Enabled(o, s, Receive(now))
    ensures InOrder(o, Apply(o, s, Receive(now)))
  {
    var t := Apply(o, s, Receive(now));
    if |s.queue| == MaxQueueSize(o) {
      var u := s.(queue := s.queue[1..]);
      SliceKeepsOrder(o, s, u, 1, |s.queue|);
      AppendKeepsOrder(o, u, t);
    } else {
      AppendKeepsOrder(o, s, t);
    }
  }

  lemma ReceiveKeepsPartition(o: Settings, s: State, now: int)
    requires Inv(o, s) && Enabled(o, s, Receive(now))
    ensures Partition(Apply(o, s, Receive(now)))
  {
    var c := Conn(s.arrived, Deadline(o, now));
    if |s.queue| == MaxQueueSize(o) {
      IdsSplit(s.queue, 1);
      IdsAppend(s.queue[1..], c);
      assert Ids(s.queue[..1]) == {s.queue[0].id};
    } else {
      IdsAppend(s.queue, c);
    }
  }

  lemma AcceptKeepsPartition(o: Settings, s: State)
    requires Inv(o, s) && Enabled(o, s, Accept)
    ensures Partition(Apply(o, s, Accept))
    ensures s.queue[|s.queue| - 1].id !in s.out
  {
    var n := |s.queue| - 1;
    IdsSplit(s.queue, n);
    assert Ids(s.queue[n..]) == {s.queue[n].id};
  }

  lemma ReceiveKeepsInv(o: Settings, s: State, now: int)
    requires Inv(o, s) && Enabled(o, s, Receive(now))
    ensures Inv(o, Apply(o, s, Receive(now)))
  {
    ReceiveKeepsOrder(o, s, now);
    ReceiveKeepsPartition(o, s, now);
  }

  lemma AcceptKeepsInv(o: Settings, s: State)
    requires Inv(o, s) && Enabled(o, s, Accept)
    ensures Inv(o, Apply(o, s, Accept))
  {
    AcceptKeepsPartition(o, s);
  }

  lemma TimeoutKeepsInv(o: Settings, s: State, now: int)
    requires Inv(o, s) && Enabled(o, s, Timeout(now))
    ensures Inv(o, Apply(o, s, Timeout(now)))
  {
    IdsSplit(s.queue, Expired(s.queue, now));
  }

  // Every event keeps the invariant.
  lemma StepKeepsInv(o: Settings, s: State, e: Event)
    requires Inv(o, s) && Enabled(o, s, e)
    ensures Inv(o, Apply(o, s, e))
  {
    match e
    case Receive(now) => ReceiveKeepsInv(o, s, now);
    case Accept => AcceptKeepsInv(o, s);
    case Timeout(now) => TimeoutKeepsInv(o, s, now);
    case Stop => IdsSplit(s.queue, 0);
    case _ =>
  }

  // ---------- Runs ----------

  // The state after a sequence of events, or None when one of them was not enabled.
  function Run(o: Settings, es: seq<Event>): Option<State> {
    if es == [] then Some(Initial())
    else
      var before, e := Run(o, es[..|es| - 1]), es[|es| - 1];
      if before.Some? && Enabled(o, before.value, e) then Some(Apply(o, before.value, e)) else None
  }

  // In every reachable state the concurrency is within its limit and counts the connections that
  // are handed out and not released, and every arrived connection has exactly one fate.
  lemma {:induction false} RunsKeepInv(o: Settings, es: seq<Event>)
    requires Run(o, es).Some?
    ensures Inv(o, Run(o, es).value)
  {
    if es != [] {
      RunsKeepInv(o, es[..|es| - 1]);
      StepKeepsInv(o, Run(o, es[..|es| - 1]).value, es[|es| - 1]);
    }
  }

  function Accepts(es: seq<Event>): nat {
    if es == [] then 0 else Accepts(es[..|es| - 1]) + if es[|es| - 1] == Accept then 1 else 0
  }

  function Releases(es: seq<Event>): nat {
    if es == [] then 0 else Releases(es[..|es| - 1]) + if es[|es| - 1].Release? then 1 else 0
  }

  // The counter is the number of connections returned by Accept less the tokens returned.
  lemma {:induction false} ConcurrencyIsConserved(o: Settings, es: seq<Event>)
    requires Run(o, es).Some?
    ensures Run(o, es).value.concurrency == Accepts(es) - Releases(es)
    ensures 0 <= Accepts(es) - Releases(es) <= MaxConcurrency(o)
  {
    RunsKeepInv(o, es);
    if es != [] { ConcurrencyIsConserved(o, es[..|es| - 1]); }
  }

  lemma NewestFirst(o: Settings, s: State, i: nat)
    requires Inv(o, s) && Enabled(o, s, Accept) && i < |s.queue|
    ensures
      var t := Apply(o, s, Accept);
      |t.out| == |s.out| + 1 && forall id :: id in t.out && id !in s.out ==> s.queue[i].id <= id
  {
    AcceptKeepsPartition(o, s);
    var newest := s.queue[|s.queue| - 1].id;
    assert s.queue[i].id <= newest;
    assert Apply(o, s, Accept).out == s.out + {newest};
  }

  // Accept hands out the connection that arrived last among those waiting.
  lemma NewestIsHandedOut(o: Settings, es: seq<Event>, i: nat)
    requires Run(o, es).Some? && Enabled(o, Run(o, es).value, Accept)
    requires i < |Run(o, es).value.queue|
    ensures
      var s := Run(o, es).value;
      var t := Apply(o, s, Accept);
      |t.out| == |s.out| + 1 && forall id :: id in t.out && id !in s.out ==> s.queue[i].id <= id
  {
    RunsKeepInv(o, es);
    NewestFirst(o, Run(o, es).value, i);
  }

  // A permanent error is delivered only after every connection that ever arrives has been handed
  // out or dropped.
  lemma ErrorComesLast(o: Settings, es: seq<Event>, id: nat)
    requires Run(o, es).Some? && Enabled(o, Run(o, es).value, DeliverError)
    requires id < Run(o, es).value.arrived
    ensures var s := Run(o, es).value; id in s.out || id in s.released || id in s.dropped
    ensures forall now :: !Enabled(o, Run(o, es).value, Receive(now))
  {
    RunsKeepInv(o, es);
    assert Ids([]) == {};
  }

  // A fate is final: nothing returns to the queue, and released and dropped connections stay so.
  lemma FateIsFinal(o: Settings, s: State, e: Event)
    requires Inv(o, s) && Enabled(o, s, e)
    ensures var t := Apply(o, s, e);
            && s.released <= t.released && s.dropped <= t.dropped && s.out <= t.out + t.released
            && (forall id :: id in Ids(t.queue) && id < s.arrived ==> id in Ids(s.queue))
  {
    var t := Apply(o, s, e);
    match e
    case Receive(now) =>
      var c := Conn(s.arrived, Deadline(o, now));
      if |s.queue| == MaxQueueSize(o) {
        IdsSplit(s.queue, 1);
        IdsAppend(s.queue[1..], c);
      } else {
        IdsAppend(s.queue, c);
      }
    case Accept => IdsSplit(s.queue, |s.queue| - 1);
    case Timeout(now) => IdsSplit(s.queue, Expired(s.queue, now));
    case _ =>
  }

  // ---------- The timeout sweep ----------

  lemma {:induction false} ExpiredIsPrefix(queue: seq<Conn>, now: int)
    requires forall i, j :: 0 <= i < j < |queue| ==> queue[i].deadline <= queue[j].deadline
    ensures forall i :: 0 <= i < |queue| ==> (i < Expired(queue, now) <==> queue[i].deadline < now)
  {
    if queue != [] {
      ExpiredIsPrefix(queue[1..], now);
      assert forall i :: 0 < i < |queue| ==> queue[i] == queue[1..][i - 1];
    }
  }

  // The sweep closes exactly the waiting connections whose deadline has passed.
  lemma SweepIsExact(o: Settings, es: seq<Event>, now: int, i: nat)
    requires Run(o, es).Some? && Enabled(o, Run(o, es).value, Timeout(now))
    requires i < |Run(o, es).value.queue|
    ensures
      var s := Run(o, es).value;
      var t := Apply(o, s, Timeout(now));
      && (s.queue[i].deadline < now <==> s.queue[i].id in t.dropped)
      && (s.queue[i].deadline >= now <==> s.queue[i] in t.queue)
      && forall j :: 0 <= j < |t.queue| ==> t.queue[j].deadline >= now
  {
    RunsKeepInv(o, es);
    var s := Run(o, es).value;
    ExpiredIsPrefix(s.queue, now);
    var n := Expired(s.queue, now);
    IdsSplit(s.queue, n);
    if i < n {
      assert s.queue[..n][i] == s.queue[i];
    } else {
      assert s.queue[n..][i - n] == s.queue[i];
    }
    assert s.queue[i].id in Ids(s.queue);
  }
}
