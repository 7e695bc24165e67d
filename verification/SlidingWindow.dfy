/**
 The cluster rate limiter over a shared sorted set: the command sequence of one call, and what
 calls that follow each other guarantee. Times and scores are integer nanoseconds. A member of the
 set is its own score.
 */
module SlidingWindow {
  import opened Options

  datatype Limits = Limits(maxHits: int, window: int)

  // The stored key: its scores and the time at which it expires.
  datatype Store = Store(scores: set<int>, expireAt: Option<int>)

  const SECOND := 1_000_000_000

  // ---------- Commands ----------

  // An expired key is gone.
  function Live(s: Store, now: int): set<int> {
    if s.expireAt.Some? && s.expireAt.value <= now then {} else s.scores
  }

  // ZREMRANGEBYSCORE with both bounds included.
  function RemRange(scores: set<int>, lo: int, hi: int): set<int> {
    set x | x in scores && !(lo <= x <= hi)
  }

  // The scores a call at the given time counts.
  function Cleared(l: Limits, s: Store, now: int): set<int> {
    RemRange(Live(s, now), 0, now - l.window)
  }

  // A call at the given time; keep is when the key will expire if the call is allowed.
  function Call(l: Limits, s: Store, now: int, keep: int): (Store, bool) {
    var scores := Cleared(l, s, now);
    if |scores| >= l.maxHits then (s.(scores := scores), false)
    else (Store(scores + {now}, Some(keep)), true)
  }

  class Limiter {
    const limits: Limits
    var store: Store

    constructor (limits: Limits)
      ensures this.limits == limits && store == Store({}, None)
    {
      this.limits, store := limits, Store({}, None);
    }

    method ZRemRangeByScore(now: int, lo: int, hi: int)
      modifies this
      ensures store == old(store).(scores := RemRange(Live(old(store), now), lo, hi))
    {
      var scores := Live(store, now);
      store := store.(scores := set x | x in scores && !(lo <= x <= hi));
    }

    method ZAdd(member: int)
      modifies this
      ensures store == old(store).(scores := old(store).scores + {member})
    {
      store := store.(scores := store.scores + {member});
    }

    method Expire(keep: int)
      modifies this
      ensures store == old(store).(expireAt := Some(keep))
    {
      store := store.(expireAt := Some(keep));
    }

    // One call without errors.
    method Allow(now: int, keep: int) returns (allowed: bool)
      modifies this
      ensures (store, allowed) == Call(limits, old(store), now, keep)
    {
      var clearBefore := now - limits.window;
      ZRemRangeByScore(now, 0, clearBefore);
      var count := |store.scores|;
      if count >= limits.maxHits {
        return false;
      }
      ZAdd(now);
      Expire(keep);
      allowed := true;
    }
  }

  // ---------- Calls one after the other ----------

  datatype Attempt = Attempt(now: int, keep: int)

  // Strictly increasing times, and keys kept for the window at least: the expiry asked for is a
  // second more.
  ghost predicate Sequential(l: Limits, calls: seq<Attempt>) {
    && (forall i :: 0 <= i < |calls| ==> calls[i].now >= 0 && calls[i].keep >= calls[i].now + l.window)
    && (forall i, j :: 0 <= i < j < |calls| ==> calls[i].now < calls[j].now)
  }

  function Run(l: Limits, calls: seq<Attempt>): Store {
    if calls == [] then Store({}, None)
    else
      var last := calls[|calls| - 1];
      Call(l, Run(l, calls[..|calls| - 1]), last.now, last.keep).0
  }

  // The times at which calls were allowed.
  function Allowed(l: Limits, calls: seq<Attempt>): set<int> {
    if calls == [] then {}
    else
      var before, last := calls[..|calls| - 1], calls[|calls| - 1];
      Allowed(l, before) + if Call(l, Run(l, before), last.now, last.keep).1 then {last.now} else {}
  }

  function Since(hits: set<int>, after: int): set<int> {
    set t | t in hits && t > after
  }

  // What the store says about the allowed calls.
  ghost predicate Mirrors(l: Limits, s: Store, hits: set<int>, last: int) {
    && s.scores <= hits
    && (forall t :: t in hits ==> 0 <= t <= last)
    && (forall t :: t in hits && t > last - l.window ==> t in s.scores)
    && (s.expireAt.Some? ==> forall t :: t in hits ==> t + l.window <= s.expireAt.value)
  }

  lemma ClearedIsRecent(l: Limits, s: Store, hits: set<int>, last: int, now: int)
    requires Mirrors(l, s, hits, last) && last <= now
    ensures Cleared(l, s, now) == Since(hits, now - l.window)
  {
  }

  lemma CallMirrors(l: Limits, s: Store, hits: set<int>, last: int, now: int, keep: int)
    requires Mirrors(l, s, hits, last) && last < now && 0 <= now && keep >= now + l.window
    ensures
      var (t, allowed) := Call(l, s, now, keep);
      Mirrors(l, t, hits + if allowed then {now} else {}, now)
  {
    ClearedIsRecent(l, s, hits, last, now);
  }

  function Last(calls: seq<Attempt>): int {
    if calls == [] then -1 else calls[|calls| - 1].now
  }

  lemma {:induction false} RunMirrors(l: Limits, calls: seq<Attempt>)
    requires Sequential(l, calls)
    ensures Mirrors(l, Run(l, calls), Allowed(l, calls), Last(calls))
  {
    if calls != [] {
      var before, last := calls[..|calls| - 1], calls[|calls| - 1];
      RunMirrors(l, before);
      CallMirrors(l, Run(l, before), Allowed(l, before), Last(before), last.now, last.keep);
    }
  }

  // ---------- The limit ----------

  function Between(hits: set<int>, from: int, to: int): set<int> {
    set t | t in hits && from <= t < to
  }

  lemma SubsetSize(a: set<int>, b: set<int>)
    requires a <= b
    ensures |a| <= |b|
  {
    assert b == a + (b - a);
  }

  lemma CallKeepsLimit(l: Limits, s: Store, hits: set<int>, last: int, now: int, keep: int, from: int)
    requires Mirrors(l, s, hits, last) && last < now
    requires |Between(hits, from, from + l.window)| <= l.maxHits
    ensures
      var allowed := Call(l, s, now, keep).1;
      |Between(hits + if allowed then {now} else {}, from, from + l.window)| <= l.maxHits
  {
    ClearedIsRecent(l, s, hits, last, now);
    if Call(l, s, now, keep).1 {
      AddedHit(l, hits, now, from);
      assert forall t :: t in hits ==> t < now;
      assert |Since(hits, now - l.window) + {now}| <= l.maxHits;
    } else {
      assert hits + {} == hits;
    }
  }

  // An interval that holds the latest hit lies within the window that ends with it.
  lemma AddedHit(l: Limits, hits: set<int>, now: int, from: int)
    requires forall t :: t in hits ==> t < now
    ensures
      var inside := Between(hits + {now}, from, from + l.window);
      |inside| <= |Since(hits, now - l.window) + {now}| || inside == Between(hits, from, from + l.window)
  {
    var inside := Between(hits + {now}, from, from + l.window);
    if from <= now < from + l.window {
      SubsetSize(inside, Since(hits, now - l.window) + {now});
    }
  }

  // Every half-open interval as long as the window holds at most maxHits allowed calls.
  lemma {:induction false} AtMostMaxHits(l: Limits, calls: seq<Attempt>, from: int)
    requires Sequential(l, calls) && l.maxHits >= 0
    ensures |Between(Allowed(l, calls), from, from + l.window)| <= l.maxHits
  {
    if calls != [] {
      var before, last := calls[..|calls| - 1], calls[|calls| - 1];
      AtMostMaxHits(l, before, from);
      RunMirrors(l, before);
      CallKeepsLimit(l, Run(l, before), Allowed(l, before), Last(before), last.now, last.keep, from);
    }
  }

  lemma CallKeepsSize(l: Limits, s: Store, now: int, keep: int)
    requires |s.scores| <= l.maxHits
    ensures |Call(l, s, now, keep).0.scores| <= l.maxHits
  {
    SubsetSize(Cleared(l, s, now), s.scores);
  }

  // One caller at a time never stores more than maxHits entries.
  lemma {:induction false} StoreIsBounded(l: Limits, calls: seq<Attempt>)
    requires l.maxHits >= 0
    ensures |Run(l, calls).scores| <= l.maxHits
  {
    if calls != [] {
      var last := calls[|calls| - 1];
      StoreIsBounded(l, calls[..|calls| - 1]);
      CallKeepsSize(l, Run(l, calls[..|calls| - 1]), last.now, last.keep);
    }
  }

  // ---------- Retrying ----------

  // Go's integer division truncates toward zero.
  function Truncated(a: int, b: int): int
    requires b > 0
  {
    if a >= 0 then a / b else -((-a) / b)
  }

  ghost predicate IsOldest(scores: set<int>, t: int) {
    t in scores && forall x :: x in scores ==> t <= x
  }

  // The time until the oldest call leaves the window.
  function DeltaFrom(l: Limits, oldest: int, from: int): int {
    l.window - (from - oldest)
  }

  // The advised wait in seconds; no entry, or a failed query, gives the minimum.
  function RetryAfter(l: Limits, oldest: Option<int>, from: int): (seconds: int)
    ensures seconds >= 1
  {
    if oldest.None? then 1
    else
      var res := Truncated(DeltaFrom(l, oldest.value, from), SECOND);
      if res > 0 then res + 1 else 1
  }

  // The advised wait is over when the oldest call leaves the window, and not more than a second
  // later unless it is the minimum.
  lemma RetryCoversDelta(l: Limits, oldest: int, from: int)
    ensures
      var seconds := RetryAfter(l, Some(oldest), from);
      && from + seconds * SECOND >= oldest + l.window
      && (seconds > 1 ==> from + (seconds - 1) * SECOND <= oldest + l.window)
  {
  }

  // After a denial a later call is allowed exactly when the oldest counted call has left the window.
  lemma {:induction false} AllowedAfterDenial(l: Limits, calls: seq<Attempt>, denied: Attempt, oldest: int,
                                              next: Attempt)
    requires l.maxHits >= 1 && Sequential(l, calls + [denied, next])
    requires !Call(l, Run(l, calls), denied.now, denied.keep).1
    requires IsOldest(Run(l, calls + [denied]).scores, oldest)
    ensures Call(l, Run(l, calls + [denied]), next.now, next.keep).1 <==> next.now >= oldest + l.window
  {
    SequentialPrefix(l, calls, denied, next);
    DeniedStore(l, calls, denied);
    AllowedLater(l, Run(l, calls + [denied]), Allowed(l, calls), denied.now, oldest, next);
  }

  lemma AllowedLater(l: Limits, s: Store, hits: set<int>, now: int, oldest: int, next: Attempt)
    requires Mirrors(l, s, hits, now) && now < next.now && IsOldest(s.scores, oldest)
    requires s.scores == Since(hits, now - l.window) && |s.scores| == l.maxHits
    ensures Call(l, s, next.now, next.keep).1 <==> next.now >= oldest + l.window
  {
    ClearedIsRecent(l, s, hits, now, next.now);
    RoomAgain(l, hits, now, oldest, next.now);
  }

  // A denied call leaves the full window of the calls allowed before it.
  lemma DeniedStore(l: Limits, calls: seq<Attempt>, denied: Attempt)
    requires l.maxHits >= 1 && Sequential(l, calls) && Sequential(l, calls + [denied]) && Last(calls) < denied.now
    requires !Call(l, Run(l, calls), denied.now, denied.keep).1
    ensures
      var s, hits := Run(l, calls + [denied]), Allowed(l, calls);
      && Mirrors(l, s, hits, denied.now)
      && s.scores == Since(hits, denied.now - l.window) && |s.scores| == l.maxHits
  {
    var now := calls + [denied];
    assert now[..|now| - 1] == calls;
    RunMirrors(l, calls);
    RunMirrors(l, now);
    StoreIsBounded(l, now);
    ClearedIsRecent(l, Run(l, calls), Allowed(l, calls), Last(calls), denied.now);
  }

  // Of a full window some hit is gone later exactly if the oldest one is.
  lemma RoomAgain(l: Limits, hits: set<int>, now: int, oldest: int, later: int)
    requires now < later && |Since(hits, now - l.window)| == l.maxHits
    requires IsOldest(Since(hits, now - l.window), oldest)
    ensures |Since(hits, later - l.window)| < l.maxHits <==> later >= oldest + l.window
  {
    var before, after := Since(hits, now - l.window), Since(hits, later - l.window);
    if later >= oldest + l.window {
      SubsetSize(after, before - {oldest});
    } else {
      assert after == before;
    }
  }

  lemma SequentialPrefix(l: Limits, calls: seq<Attempt>, a: Attempt, b: Attempt)
    requires Sequential(l, calls + [a, b])
    ensures Sequential(l, calls + [a]) && Sequential(l, calls)
    ensures Last(calls) < a.now < b.now
  {
    var all := calls + [a, b];
    assert forall i :: 0 <= i < |calls| ==> calls[i] == all[i];
    assert all[|calls|] == a && all[|calls| + 1] == b;
    assert forall i :: 0 <= i < |calls| + 1 ==> (calls + [a])[i] == all[i];
  }

  // What a query for the oldest entry finds.
  ghost predicate FindsOldest(scores: set<int>, oldest: Option<int>) {
    if oldest.None? then scores == {} else IsOldest(scores, oldest.value)
  }

  // Waiting the advised seconds without another call makes the next call allowed, also when the key
  // has expired by the time of the query.
  lemma RetryIsAllowed(l: Limits, calls: seq<Attempt>, denied: Attempt, oldest: Option<int>, from: int, next: Attempt)
    requires l.maxHits >= 1 && Sequential(l, calls + [denied, next])
    requires !Call(l, Run(l, calls), denied.now, denied.keep).1
    requires denied.now <= from && FindsOldest(Live(Run(l, calls + [denied]), from), oldest)
    requires next.now >= from + RetryAfter(l, oldest, from) * SECOND
    ensures Call(l, Run(l, calls + [denied]), next.now, next.keep).1
  {
    if oldest.Some? {
      AllowedAfterDenial(l, calls, denied, oldest.value, next);
      RetryCoversDelta(l, oldest.value, from);
    } else {
      SequentialPrefix(l, calls, denied, next);
      DeniedStore(l, calls, denied);
      assert Live(Run(l, calls + [denied]), next.now) == {};
    }
  }
}
