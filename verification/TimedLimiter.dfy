/**
 The rate that many interleaved callers of the limiter can reach, when they share a clock that does
 not run backwards and the key does not expire before its entries have left the window. The bounds
 are exact.
 */
module TimedLimiter {
  import opened Options
  import opened SlidingWindow
  import opened InterleavedLimiter

  // The state together with the clock, the times ever added, and whether the key ever expired.
  datatype Timed = Timed(state: State, clock: int, added: set<int>, expired: bool)

  datatype Tick = Tick(event: Event, at: int)

  function Origin(n: nat): Timed {
    Timed(Initial(n), 0, {}, false)
  }

  predicate Timely(l: Limits, t: Timed, k: Tick) {
    && Enabled(t.state, k.event) && t.clock <= k.at
    && (k.event.Begin? ==> k.event.now == k.at)
    && (k.event.KeyExpired? ==> forall h :: h in t.state.scores ==> h + l.window <= k.at)
  }

  // The time an event adds to the set.
  function Adds(s: State, e: Event): set<int>
    requires Enabled(s, e)
  {
    if e.Add? || (e.FailAfterEffect? && s.callers[e.i].Passed?) then {s.callers[e.i].now} else {}
  }

  function Next(l: Limits, t: Timed, k: Tick): Timed
    requires Timely(l, t, k)
  {
    Timed(Apply(l, t.state, k.event), k.at, t.added + Adds(t.state, k.event), t.expired || k.event.KeyExpired?)
  }

  function TimedRun(l: Limits, n: nat, ticks: seq<Tick>): Option<Timed> {
    if ticks == [] then Some(Origin(n))
    else
      var before, k := TimedRun(l, n, ticks[..|ticks| - 1]), ticks[|ticks| - 1];
      if before.Some? && Timely(l, before.value, k) then Some(Next(l, before.value, k)) else None
  }

  function Events(ticks: seq<Tick>): (es: seq<Event>)
    ensures |es| == |ticks|
  {
    if ticks == [] then [] else Events(ticks[..|ticks| - 1]) + [ticks[|ticks| - 1].event]
  }

  // A timed run is a run.
  lemma {:induction false} TimedRunIsRun(l: Limits, n: nat, ticks: seq<Tick>)
    requires TimedRun(l, n, ticks).Some?
    ensures InterleavedLimiter.Run(l, n, Events(ticks)) == Some(TimedRun(l, n, ticks).value.state)
  {
    if ticks != [] {
      var m := |ticks| - 1;
      TimedRunIsRun(l, n, ticks[..m]);
      assert Events(ticks)[..m] == Events(ticks[..m]);
    }
  }

  // ---------- The rate ----------

  // Callers that may still add a time before the limit.
  function Late(limit: int): Caller -> bool {
    (c: Caller) => !c.Idle? && !c.Added? && c.now < limit
  }

  // Nothing added in the interval has been removed, and no caller can remove it.
  ghost predicate Intact(l: Limits, t: Timed, from: int) {
    && (forall h :: h in t.added && from <= h < from + l.window ==> h in t.state.scores)
    && forall i :: 0 <= i < |t.state.callers| && !t.state.callers[i].Idle? ==> t.state.callers[i].now < from + l.window
  }

  function Excess(n: nat, expired: bool): int {
    2 * (n - 1) + if expired then 1 else 0
  }

  // The interval is over, and what was and may still be added in it is bounded.
  ghost predicate Over(l: Limits, n: nat, t: Timed, from: int) {
    && from + l.window <= t.clock
    && |Between(t.added, from, from + l.window)| + Tally(t.state.callers, Late(from + l.window))
       <= l.maxHits + Excess(n, t.expired)
  }

  ghost predicate RateInv(l: Limits, n: nat, t: Timed, from: int) {
    Bounded(l, n, t.state) && (Intact(l, t, from) || Over(l, n, t, from))
  }

  // One more time adds at most one to an interval, and none if it lies outside.
  lemma BetweenAdded(hits: set<int>, h: int, from: int, to: int)
    ensures |Between(hits + {h}, from, to)| <= |Between(hits, from, to)| + if from <= h < to then 1 else 0
  {
    if from <= h < to {
      assert Between(hits + {h}, from, to) == Between(hits, from, to) + {h};
    } else {
      assert Between(hits + {h}, from, to) == Between(hits, from, to);
    }
  }

  lemma TallyMissesOne(callers: seq<Caller>, i: nat, kind: Caller -> bool, other: Caller)
    requires i < |callers| && !kind(callers[i]) && kind(other)
    ensures Tally(callers, kind) <= |callers| - 1
  {
    TallyUpdate(callers, i, other, kind);
    TallyAtMostAll(callers[i := other], kind);
  }

  lemma IntactBetween(l: Limits, t: Timed, from: int)
    requires Intact(l, t, from)
    ensures |Between(t.added, from, from + l.window)| <= |t.state.scores|
  {
    SubsetSize(Between(t.added, from, from + l.window), t.state.scores);
  }

  // The interval ends with a caller that starts after it, or with the key.
  lemma IntervalEnds(l: Limits, n: nat, t: Timed, k: Tick, from: int)
    requires n >= 1 && Bounded(l, n, t.state) && Intact(l, t, from) && Timely(l, t, k)
    requires from + l.window <= k.at && (k.event.Begin? || k.event.KeyExpired?)
    ensures Over(l, n, Next(l, t, k), from)
  {
    var u, late := Next(l, t, k), Late(from + l.window);
    assert u.added == t.added;
    IntactBetween(l, t, from);
    if k.event.Begin? {
      assert u.state.callers[k.event.i] == Started(k.at);
      TallyMissesOne(u.state.callers, k.event.i, late, Started(from + l.window - 1));
    } else {
      TallyAtMostAll(u.state.callers, late);
    }
  }

  // What a step leaves of a stored time within the interval.
  lemma StaysStored(l: Limits, t: Timed, k: Tick, from: int, h: int)
    requires Intact(l, t, from) && Timely(l, t, k) && h in t.state.scores && from <= h
    requires k.event.KeyExpired? ==> k.at < from + l.window
    ensures h in Next(l, t, k).state.scores
  {
    if k.event.Clear? || k.event.FailAfterEffect? {
      assert t.state.callers[k.event.i].now < from + l.window;
    }
  }

  lemma StaysYoung(l: Limits, t: Timed, k: Tick, from: int, i: nat)
    requires Intact(l, t, from) && Timely(l, t, k) && i < |t.state.callers|
    requires k.event.Begin? ==> k.at < from + l.window
    ensures
      var c := Next(l, t, k).state.callers[i];
      !c.Idle? ==> c.now < from + l.window
  {
  }

  lemma IntactStep(l: Limits, n: nat, t: Timed, k: Tick, from: int)
    requires n >= 1 && Bounded(l, n, t.state) && Intact(l, t, from) && Timely(l, t, k)
    ensures var u := Next(l, t, k); Intact(l, u, from) || Over(l, n, u, from)
  {
    if (k.event.Begin? || k.event.KeyExpired?) && from + l.window <= k.at {
      IntervalEnds(l, n, t, k, from);
    } else {
      var u := Next(l, t, k);
      forall h | h in u.added && from <= h < from + l.window ensures h in u.state.scores {
        if h in t.added { StaysStored(l, t, k, from, h); }
      }
      forall i: nat | i < |u.state.callers| && !u.state.callers[i].Idle?
        ensures u.state.callers[i].now < from + l.window
      {
        StaysYoung(l, t, k, from, i);
      }
    }
  }

  // An event changes at most the caller it is of.
  lemma OneCallerMoves(l: Limits, s: State, e: Event)
    requires Enabled(s, e) && !e.KeyExpired?
    ensures Apply(l, s, e).callers == s.callers[e.i := Apply(l, s, e).callers[e.i]]
  {
  }

  // Once a caller has added its time it is no longer late.
  lemma LateAfter(l: Limits, s: State, e: Event, limit: int)
    requires Enabled(s, e) && !e.KeyExpired? && (e.Begin? ==> limit <= e.now)
    ensures
      var before, after := Late(limit)(s.callers[e.i]), Late(limit)(Apply(l, s, e).callers[e.i]);
      && (after ==> before)
      && (Adds(s, e) != {} ==> !after && (before <==> s.callers[e.i].now < limit))
  {
  }

  lemma OverStep(l: Limits, n: nat, t: Timed, k: Tick, from: int)
    requires Over(l, n, t, from) && Timely(l, t, k)
    ensures Over(l, n, Next(l, t, k), from)
  {
    var u, e := Next(l, t, k), k.event;
    if e.KeyExpired? {
      assert u.added == t.added;
    } else {
      OneCallerMoves(l, t.state, e);
      TallyUpdate(t.state.callers, e.i, u.state.callers[e.i], Late(from + l.window));
      LateAfter(l, t.state, e, from + l.window);
      if Adds(t.state, e) != {} {
        BetweenAdded(t.added, t.state.callers[e.i].now, from, from + l.window);
      } else {
        assert u.added == t.added;
      }
    }
  }

  // However n callers interleave, every half-open interval as long as the window holds at most
  // maxHits + 2 * (n - 1) added times, and one more if the key expired in the run.
  lemma {:induction false} RateBound(l: Limits, n: nat, ticks: seq<Tick>, from: int)
    requires n >= 1 && l.maxHits >= 0 && TimedRun(l, n, ticks).Some?
    ensures RateInv(l, n, TimedRun(l, n, ticks).value, from)
    ensures
      var t := TimedRun(l, n, ticks).value;
      |Between(t.added, from, from + l.window)| <= l.maxHits + Excess(n, t.expired)
  {
    if ticks == [] {
      TallyNone(n, HasRoom);
      assert Between({}, from, from + l.window) == {};
    } else {
      var t, k := TimedRun(l, n, ticks[..|ticks| - 1]).value, ticks[|ticks| - 1];
      RateBound(l, n, ticks[..|ticks| - 1], from);
      StepKeepsBound(l, n, t.state, k.event);
      if Intact(l, t, from) { IntactStep(l, n, t, k, from); } else { OverStep(l, n, t, k, from); }
    }
    InvBounds(l, n, TimedRun(l, n, ticks).value, from);
  }

  lemma InvBounds(l: Limits, n: nat, t: Timed, from: int)
    requires n >= 1 && RateInv(l, n, t, from)
    ensures |Between(t.added, from, from + l.window)| <= l.maxHits + Excess(n, t.expired)
  {
    if Intact(l, t, from) { IntactBetween(l, t, from); }
  }

  // ---------- The bounds are reached ----------

  function UpTo(k: nat): set<int> {
    if k == 0 then {} else UpTo(k - 1) + {k}
  }

  lemma {:induction false} UpToIs(k: nat)
    ensures |UpTo(k)| == k && forall x :: x in UpTo(k) <==> 1 <= x <= k
  {
    if k > 0 { UpToIs(k - 1); }
  }

  // A set of states that holds the first one and, with a state, all that can follow it.
  ghost predicate Closed(l: Limits, n: nat, reach: Timed -> bool) {
    && reach(Origin(n))
    && (forall t, k :: reach(t) && Timely(l, t, k) ==> reach(Next(l, t, k)))
  }

  // The first i of m callers are at one stage of a call, the others of them at another.
  ghost predicate Stage(cs: seq<Caller>, n: nat, m: nat, i: nat, done: nat -> Caller, todo: nat -> Caller) {
    && |cs| == n && m <= n
    && (forall j :: 0 <= j < m ==> cs[j] == if j < i then done(j) else todo(j))
  }

  function AtRest(): nat -> Caller { (j: nat) => Idle }

  // Calls that started one after the other.
  function ClearedFrom(base: int): nat -> Caller { (j: nat) => Cleared(base + j) }

  function PassedFrom(base: int): nat -> Caller { (j: nat) => Passed(base + j) }

  function AddedFrom(base: int): nat -> Caller { (j: nat) => Added(base + j) }

  lemma NothingRemoved(l: Limits, k: nat, now: int)
    requires now - l.window < 1
    ensures Removed(l, UpTo(k), now) == UpTo(k)
  {
    UpToIs(k);
  }

  // A caller that starts and clears within the first window.
  lemma Clears(l: Limits, n: nat, reach: Timed -> bool, t: Timed, i: nat, k: nat, now: int)
    requires Closed(l, n, reach) && reach(t) && i < |t.state.callers| && t.state.callers[i].Idle?
    requires t.state.scores == UpTo(k) && t.clock <= now < l.window
    ensures reach(t.(clock := now, state := State(UpTo(k), t.state.callers[i := Cleared(now)])))
  {
    NothingRemoved(l, k, now);
    var t1 := Next(l, t, Tick(Begin(i, now), now));
    var t2 := Next(l, t1, Tick(Clear(i), now));
    assert t2.state.callers == t.state.callers[i := Cleared(now)];
    assert t2.added == t.added;
  }

  lemma Counts(l: Limits, n: nat, reach: Timed -> bool, t: Timed, i: nat)
    requires Closed(l, n, reach) && reach(t) && i < |t.state.callers| && t.state.callers[i].Cleared?
    requires |t.state.scores| < l.maxHits
    ensures reach(t.(state := t.state.(callers := t.state.callers[i := Passed(t.state.callers[i].now)])))
  {
    var t1 := Next(l, t, Tick(Count(i), t.clock));
    assert t1.added == t.added;
  }

  lemma AddsOne(l: Limits, n: nat, reach: Timed -> bool, t: Timed, i: nat)
    requires Closed(l, n, reach) && reach(t) && i < |t.state.callers| && t.state.callers[i].Passed?
    ensures
      var now := t.state.callers[i].now;
      reach(t.(state := State(t.state.scores + {now}, t.state.callers[i := Added(now)]), added := t.added + {now}))
  {
    var t1 := Next(l, t, Tick(Add(i), t.clock));
  }

  lemma Keeps(l: Limits, n: nat, reach: Timed -> bool, t: Timed, i: nat)
    requires Closed(l, n, reach) && reach(t) && i < |t.state.callers| && t.state.callers[i].Added?
    ensures reach(t.(state := t.state.(callers := t.state.callers[i := Idle])))
  {
    var t1 := Next(l, t, Tick(Keep(i), t.clock));
    assert t1.added == t.added;
  }

  // One caller alone adds the times up to k.
  lemma {:induction false} FillAlone(l: Limits, n: nat, reach: Timed -> bool, k: nat)
    requires Closed(l, n, reach) && n >= 1 && k < l.maxHits && k < l.window
    ensures reach(Timed(Initial(n).(scores := UpTo(k)), k, UpTo(k), false))
  {
    if k > 0 {
      FillAlone(l, n, reach, k - 1);
      UpToIs(k - 1);
      var cs := Initial(n).callers;
      var t0 := Timed(State(UpTo(k - 1), cs), k - 1, UpTo(k - 1), false);
      Clears(l, n, reach, t0, 0, k - 1, k);
      var t1 := Timed(State(UpTo(k - 1), cs[0 := Cleared(k)]), k, UpTo(k - 1), false);
      Counts(l, n, reach, t1, 0);
      var t2 := Timed(State(UpTo(k - 1), cs[0 := Cleared(k)][0 := Passed(k)]), k, UpTo(k - 1), false);
      AddsOne(l, n, reach, t2, 0);
      var t3 := Timed(State(UpTo(k), t2.state.callers[0 := Added(k)]), k, UpTo(k), false);
      Keeps(l, n, reach, t3, 0);
      assert t3.state.callers[0 := Idle] == cs;
    }
  }

  // The window is long enough for so many calls after the first, each at its own time.
  ghost predicate Roomy(l: Limits, n: nat, calls: nat) {
    n >= 1 && l.maxHits >= 1 && l.window > l.maxHits + calls
  }

  // With room for one more, all callers see it,
  lemma {:induction false} AllPass(l: Limits, n: nat, reach: Timed -> bool, i: nat) returns (t: Timed)
    requires Closed(l, n, reach) && Roomy(l, n, n) && i <= n
    ensures reach(t) && t.added == t.state.scores == UpTo(l.maxHits - 1) && t.clock < l.maxHits + i && !t.expired
    ensures Stage(t.state.callers, n, n, i, PassedFrom(l.maxHits), AtRest())
  {
    UpToIs(l.maxHits - 1);
    if i == 0 {
      FillAlone(l, n, reach, l.maxHits - 1);
      t := Timed(Initial(n).(scores := UpTo(l.maxHits - 1)), l.maxHits - 1, UpTo(l.maxHits - 1), false);
    } else {
      var t0 := AllPass(l, n, reach, i - 1);
      var now := l.maxHits + i - 1;
      Clears(l, n, reach, t0, i - 1, l.maxHits - 1, now);
      var t1 := t0.(clock := now, state := State(t0.state.scores, t0.state.callers[i - 1 := Cleared(now)]));
      Counts(l, n, reach, t1, i - 1);
      t := t1.(state := t1.state.(callers := t1.state.callers[i - 1 := Passed(now)]));
    }
  }

  // and all add their time.
  lemma {:induction false} AllAdd(l: Limits, n: nat, reach: Timed -> bool, i: nat) returns (t: Timed)
    requires Closed(l, n, reach) && Roomy(l, n, n) && i <= n
    ensures reach(t) && t.added == t.state.scores == UpTo(l.maxHits - 1 + i) && t.clock < l.maxHits + n && !t.expired
    ensures Stage(t.state.callers, n, n, i, AddedFrom(l.maxHits), PassedFrom(l.maxHits))
  {
    if i == 0 {
      t := AllPass(l, n, reach, n);
    } else {
      var t0 := AllAdd(l, n, reach, i - 1);
      AddsOne(l, n, reach, t0, i - 1);
      var now := l.maxHits + i - 1;
      t := t0.(state := State(t0.state.scores + {now}, t0.state.callers[i - 1 := Added(now)]),
               added := t0.added + {now});
    }
  }

  lemma {:induction false} AllKeep(l: Limits, n: nat, reach: Timed -> bool, i: nat) returns (t: Timed)
    requires Closed(l, n, reach) && Roomy(l, n, n) && i <= n
    ensures reach(t) && t.added == t.state.scores == UpTo(l.maxHits - 1 + n) && t.clock < l.maxHits + n && !t.expired
    ensures Stage(t.state.callers, n, n, i, AtRest(), AddedFrom(l.maxHits))
  {
    if i == 0 {
      t := AllAdd(l, n, reach, n);
    } else {
      var t0 := AllKeep(l, n, reach, i - 1);
      Keeps(l, n, reach, t0, i - 1);
      t := t0.(state := t0.state.(callers := t0.state.callers[i - 1 := Idle]));
    }
  }

  // Callers start again and clear nothing.
  lemma {:induction false} AllRestart(l: Limits, n: nat, reach: Timed -> bool, i: nat) returns (t: Timed)
    requires Closed(l, n, reach) && Roomy(l, n, 2 * n) && i <= n
    ensures reach(t) && t.added == t.state.scores == UpTo(l.maxHits - 1 + n) && !t.expired
    ensures t.clock < l.maxHits + n + i && Stage(t.state.callers, n, n, i, ClearedFrom(l.maxHits + n), AtRest())
  {
    if i == 0 {
      t := AllKeep(l, n, reach, n);
    } else {
      var t0 := AllRestart(l, n, reach, i - 1);
      var now := l.maxHits + n + i - 1;
      Clears(l, n, reach, t0, i - 1, l.maxHits - 1 + n, now);
      t := t0.(clock := now, state := State(t0.state.scores, t0.state.callers[i - 1 := Cleared(now)]));
    }
  }

  // All entries go while m callers are about to count: the last caller clears them at a later time,
  // or the key expires.
  lemma Emptied(l: Limits, n: nat, reach: Timed -> bool, m: nat) returns (t: Timed)
    requires Closed(l, n, reach) && Roomy(l, n, 2 * n) && n - 1 <= m <= n
    ensures reach(t) && t.state.scores == {} && t.added == UpTo(l.maxHits - 1 + n) && t.expired == (m == n)
    ensures Stage(t.state.callers, n, m, 0, PassedFrom(l.maxHits + n), ClearedFrom(l.maxHits + n))
  {
    var t0 := AllRestart(l, n, reach, m);
    UpToIs(l.maxHits - 1 + n);
    if m == n {
      t := Next(l, t0, Tick(KeyExpired, 2 * l.window));
      assert t.added == t0.added;
    } else {
      t := ClearsAll(l, n, reach, t0, m);
    }
  }

  lemma ClearsAll(l: Limits, n: nat, reach: Timed -> bool, t0: Timed, i: nat) returns (t: Timed)
    requires Closed(l, n, reach) && reach(t0) && i < |t0.state.callers| && t0.state.callers[i].Idle?
    requires 0 <= l.window && t0.clock <= l.window && forall h :: h in t0.state.scores ==> 0 <= h <= l.window
    ensures reach(t) && t == t0.(clock := 2 * l.window,
                                 state := State({}, t0.state.callers[i := Cleared(2 * l.window)]))
  {
    var at := 2 * l.window;
    var t1 := Next(l, t0, Tick(Begin(i, at), at));
    t := Next(l, t1, Tick(Clear(i), at));
    assert t.state.scores == {} && t.added == t0.added;
    assert t.state.callers == t0.state.callers[i := Cleared(at)];
  }

  lemma {:induction false} AllPassAgain(l: Limits, n: nat, reach: Timed -> bool, m: nat, i: nat) returns (t: Timed)
    requires Closed(l, n, reach) && Roomy(l, n, 2 * n) && n - 1 <= m <= n && i <= m
    ensures reach(t) && t.state.scores == {} && t.added == UpTo(l.maxHits - 1 + n) && t.expired == (m == n)
    ensures Stage(t.state.callers, n, m, i, PassedFrom(l.maxHits + n), ClearedFrom(l.maxHits + n))
  {
    if i == 0 {
      t := Emptied(l, n, reach, m);
    } else {
      var t0 := AllPassAgain(l, n, reach, m, i - 1);
      Counts(l, n, reach, t0, i - 1);
      t := t0.(state := t0.state.(callers := t0.state.callers[i - 1 := Passed(l.maxHits + n + i - 1)]));
    }
  }

  lemma {:induction false} AllAddAgain(l: Limits, n: nat, reach: Timed -> bool, m: nat, i: nat) returns (t: Timed)
    requires Closed(l, n, reach) && Roomy(l, n, 2 * n) && n - 1 <= m <= n && i <= m
    ensures reach(t) && t.added == UpTo(l.maxHits - 1 + n + i) && t.expired == (m == n)
    ensures Stage(t.state.callers, n, m, i, AddedFrom(l.maxHits + n), PassedFrom(l.maxHits + n))
  {
    if i == 0 {
      t := AllPassAgain(l, n, reach, m, m);
    } else {
      var t0 := AllAddAgain(l, n, reach, m, i - 1);
      AddsOne(l, n, reach, t0, i - 1);
      var now := l.maxHits + n + i - 1;
      t := t0.(state := State(t0.state.scores + {now}, t0.state.callers[i - 1 := Added(now)]),
               added := t0.added + {now});
    }
  }

  ghost predicate Reachable(l: Limits, n: nat, t: Timed) {
    exists ticks :: TimedRun(l, n, ticks) == Some(t)
  }

  lemma ReachableIsClosed(l: Limits, n: nat)
    ensures Closed(l, n, t => Reachable(l, n, t))
  {
    assert TimedRun(l, n, []) == Some(Origin(n));
    forall t, k | Reachable(l, n, t) && Timely(l, t, k) ensures Reachable(l, n, Next(l, t, k)) {
      var ticks :| TimedRun(l, n, ticks) == Some(t);
      assert (ticks + [k])[..|ticks|] == ticks;
      assert TimedRun(l, n, ticks + [k]) == Some(Next(l, t, k));
    }
  }

  lemma ReachedBy(l: Limits, n: nat, t: Timed) returns (ticks: seq<Tick>)
    requires Reachable(l, n, t)
    ensures TimedRun(l, n, ticks) == Some(t)
  {
    ticks :| TimedRun(l, n, ticks) == Some(t);
  }

  // A state with maxHits + n - 1 entries.
  lemma FullState(l: Limits, n: nat, reach: Timed -> bool) returns (t: Timed)
    requires Closed(l, n, reach) && Roomy(l, n, n)
    ensures reach(t) && |t.state.scores| == l.maxHits + n - 1
  {
    t := AllAdd(l, n, reach, n);
    UpToIs(l.maxHits - 1 + n);
  }

  // Some interleaving does reach maxHits + n - 1 entries, so no smaller bound holds.
  lemma {:induction false} BoundIsTight(l: Limits, n: nat) returns (es: seq<Event>)
    requires Roomy(l, n, n)
    ensures
      var o := InterleavedLimiter.Run(l, n, es);
      o.Some? && |o.value.scores| == l.maxHits + n - 1
  {
    ReachableIsClosed(l, n);
    var t := FullState(l, n, t => Reachable(l, n, t));
    var ticks := ReachedBy(l, n, t);
    TimedRunIsRun(l, n, ticks);
    es := Events(ticks);
  }

  // A state with as many times in the first window as the bound on the rate allows.
  lemma BusyState(l: Limits, n: nat, reach: Timed -> bool, expired: bool) returns (t: Timed)
    requires Closed(l, n, reach) && Roomy(l, n, 2 * n)
    ensures reach(t) && t.expired == expired
    ensures |Between(t.added, 1, 1 + l.window)| == l.maxHits + Excess(n, expired)
  {
    var m := if expired then n else n - 1;
    t := AllAddAgain(l, n, reach, m, m);
    UpToIs(l.maxHits - 1 + n + m);
    assert Between(t.added, 1, 1 + l.window) == t.added;
  }

  // Some interleaving reaches the bound on the rate, without and with an expired key.
  lemma {:induction false} RateIsTight(l: Limits, n: nat, expired: bool) returns (ticks: seq<Tick>)
    requires Roomy(l, n, 2 * n)
    ensures
      var o := TimedRun(l, n, ticks);
      && o.Some? && o.value.expired == expired
      && |Between(o.value.added, 1, 1 + l.window)| == l.maxHits + Excess(n, expired)
  {
    ReachableIsClosed(l, n);
    var t := BusyState(l, n, t => Reachable(l, n, t), expired);
    ticks := ReachedBy(l, n, t);
  }
}
