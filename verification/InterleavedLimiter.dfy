/**
 The rate limiter with many callers. Each call is a sequence of separate commands on the shared
 sorted set, which callers may interleave in any order; calls may fail at any command, with or
 without the command having taken effect, and the key may expire at any time.
 */
module InterleavedLimiter {
  import opened Options
  import opened SlidingWindow

  // Where a caller is in its call.
  datatype Caller =
    | Idle
    | Started(now: int)
    | Cleared(now: int)
    | Passed(now: int)   // counted fewer than maxHits, not yet added
    | Added(now: int)

  datatype State = State(scores: set<int>, callers: seq<Caller>)

  datatype Event =
    | Begin(i: nat, now: int)
    | Clear(i: nat)
    | Count(i: nat)
    | Add(i: nat)
    | Keep(i: nat)
    | Fail(i: nat)             // an error before the command took effect
    | FailAfterEffect(i: nat)  // an error after it took effect
    | KeyExpired

  function Initial(n: nat): State {
    State({}, seq(n, _ => Idle))
  }

  predicate Enabled(s: State, e: Event) {
    match e
    case Begin(i, _) => i < |s.callers| && s.callers[i].Idle?
    case Clear(i) => i < |s.callers| && s.callers[i].Started?
    case Count(i) => i < |s.callers| && s.callers[i].Cleared?
    case Add(i) => i < |s.callers| && s.callers[i].Passed?
    case Keep(i) => i < |s.callers| && s.callers[i].Added?
    case Fail(i) => i < |s.callers| && !s.callers[i].Idle?
    case FailAfterEffect(i) => i < |s.callers| && (s.callers[i].Started? || s.callers[i].Passed?)
    case KeyExpired => true
  }

  function Removed(l: Limits, scores: set<int>, now: int): set<int> {
    RemRange(scores, 0, now - l.window)
  }

  function Apply(l: Limits, s: State, e: Event): State
    requires Enabled(s, e)
  {
    match e
    case Begin(i, now) => s.(callers := s.callers[i := Started(now)])
    case Clear(i) =>
      State(Removed(l, s.scores, s.callers[i].now), s.callers[i := Cleared(s.callers[i].now)])
    case Count(i) =>
      s.(callers := s.callers[i := if |s.scores| >= l.maxHits then Idle else Passed(s.callers[i].now)])
    case Add(i) => State(s.scores + {s.callers[i].now}, s.callers[i := Added(s.callers[i].now)])
    case Keep(i) => s.(callers := s.callers[i := Idle])
    case Fail(i) => s.(callers := s.callers[i := Idle])
    case FailAfterEffect(i) =>
      if s.callers[i].Started? then State(Removed(l, s.scores, s.callers[i].now), s.callers[i := Idle])
      else State(s.scores + {s.callers[i].now}, s.callers[i := Idle])
    case KeyExpired => s.(scores := {})
  }

  function Run(l: Limits, n: nat, es: seq<Event>): Option<State> {
    if es == [] then Some(Initial(n))
    else
      var before, e := Run(l, n, es[..|es| - 1]), es[|es| - 1];
      if before.Some? && Enabled(before.value, e) then Some(Apply(l, before.value, e)) else None
  }

  // ---------- The bound ----------

  // How many callers are of a kind.
  function Tally(callers: seq<Caller>, kind: Caller -> bool): nat {
    if callers == [] then 0
    else Tally(callers[..|callers| - 1], kind) + if kind(callers[|callers| - 1]) then 1 else 0
  }

  lemma {:induction false} TallyUpdate(callers: seq<Caller>, i: nat, c: Caller, kind: Caller -> bool)
    requires i < |callers|
    ensures Tally(callers[i := c], kind)
         == Tally(callers, kind) - (if kind(callers[i]) then 1 else 0) + if kind(c) then 1 else 0
    decreases |callers|
  {
    var n := |callers| - 1;
    if i == n {
      assert callers[i := c][..n] == callers[..n];
    } else {
      assert callers[i := c][..n] == callers[..n][i := c];
      TallyUpdate(callers[..n], i, c, kind);
    }
  }

  lemma {:induction false} TallyAtMostAll(callers: seq<Caller>, kind: Caller -> bool)
    ensures Tally(callers, kind) <= |callers|
  {
    if callers != [] { TallyAtMostAll(callers[..|callers| - 1], kind); }
  }

  lemma {:induction false} TallyNone(n: nat, kind: Caller -> bool)
    requires !kind(Idle)
    ensures Tally(seq(n, _ => Idle), kind) == 0
  {
    if n > 0 {
      assert seq(n, _ => Idle)[..n - 1] == seq(n - 1, _ => Idle);
      TallyNone(n - 1, kind);
    }
  }

  // Callers that have seen room and will add.
  function Pending(callers: seq<Caller>): nat {
    Tally(callers, HasRoom)
  }

  predicate HasRoom(c: Caller) {
    c.Passed?
  }

  // Stored entries and those about to be added stay below the bound together.
  ghost predicate Bounded(l: Limits, n: nat, s: State) {
    |s.callers| == n && |s.scores| + Pending(s.callers) <= l.maxHits + n - 1
  }

  lemma StepKeepsBound(l: Limits, n: nat, s: State, e: Event)
    requires n >= 1 && l.maxHits >= 0 && Bounded(l, n, s) && Enabled(s, e)
    ensures Bounded(l, n, Apply(l, s, e))
  {
    var t := Apply(l, s, e);
    TallyAtMostAll(t.callers, HasRoom);
    if !e.KeyExpired? {
      TallyUpdate(s.callers, e.i, t.callers[e.i], HasRoom);
      if e.Clear? || e.FailAfterEffect? {
        SubsetSize(Removed(l, s.scores, s.callers[e.i].now), s.scores);
      }
    }
  }

  // However n callers interleave, the set never holds more than maxHits + n - 1 entries.
  lemma {:induction false} InterleavingBound(l: Limits, n: nat, es: seq<Event>)
    requires n >= 1 && l.maxHits >= 0 && Run(l, n, es).Some?
    ensures Bounded(l, n, Run(l, n, es).value)
    ensures |Run(l, n, es).value.scores| <= l.maxHits + n - 1
  {
    if es == [] {
      TallyNone(n, HasRoom);
    } else {
      InterleavingBound(l, n, es[..|es| - 1]);
      StepKeepsBound(l, n, Run(l, n, es[..|es| - 1]).value, es[|es| - 1]);
    }
  }
}
