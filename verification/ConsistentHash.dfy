/**
 The consistent-hash ring, with and without bounded load. The hash is an arbitrary function, the
 in-flight counts are a snapshot, and loads are compared as exact reals.
 */
module ConsistentHash {
  import opened Options
  import opened Circular

  // The endpoint's address as it is hashed, its host, and its requests in flight.
  datatype Endpoint = Endpoint(address: string, host: string, inflight: nat)

  datatype Entry = Entry(index: nat, hash: nat)

  // All endpoints of the route, and those that may be chosen now.
  datatype Context = Context(route: seq<Endpoint>, available: seq<Endpoint>)

  // ---------- Building the ring ----------

  function Decimal(n: nat): string {
    var digit := ['0' + (n % 10) as char];
    if n < 10 then digit else Decimal(n / 10) + digit
  }

  function Label(address: string, j: nat): string {
    address + "-" + Decimal(j)
  }

  // The ring entries of the endpoint at i.
  function Row(hash: string -> nat, es: seq<Endpoint>, per: nat, i: nat): (r: seq<Entry>)
    requires i < |es|
    ensures |r| == per && forall j :: 0 <= j < per ==> r[j] == Entry(i, hash(Label(es[i].address, j)))
  {
    seq(per, j requires 0 <= j < per => Entry(i, hash(Label(es[i].address, j))))
  }

  // The entries in the order in which they are filled in.
  function Rows(hash: string -> nat, es: seq<Endpoint>, per: nat, n: nat): seq<Entry>
    requires n <= |es|
  {
    if n == 0 then [] else Rows(hash, es, per, n - 1) + Row(hash, es, per, n - 1)
  }

  ghost predicate ByHash(s: seq<Entry>) {
    forall i, j :: 0 <= i < j < |s| ==> s[i].hash <= s[j].hash
  }

  // sort.Sort, as insertion of one entry after the other.
  function Insert(e: Entry, s: seq<Entry>): (r: seq<Entry>)
    requires ByHash(s)
    ensures ByHash(r) && multiset(r) == multiset(s) + multiset{e}
  {
    if s == [] || e.hash <= s[0].hash then [e] + s
    else
      assert s == [s[0]] + s[1..];
      var t := Insert(e, s[1..]);
      PrependKeepsOrder(s[0], t, s[1..], e);
      [s[0]] + t
  }

  lemma PrependKeepsOrder(x: Entry, t: seq<Entry>, s: seq<Entry>, e: Entry)
    requires ByHash(t) && multiset(t) == multiset(s) + multiset{e}
    requires x.hash <= e.hash && forall k :: 0 <= k < |s| ==> x.hash <= s[k].hash
    ensures ByHash([x] + t)
  {
    forall k | 0 <= k < |t| ensures x.hash <= t[k].hash {
      assert t[k] in multiset(t);
      assert t[k] == e || t[k] in multiset(s);
    }
  }

  function Sort(s: seq<Entry>): (r: seq<Entry>)
    ensures ByHash(r) && multiset(r) == multiset(s)
  {
    if s == [] then []
    else
      assert s == s[..|s| - 1] + [s[|s| - 1]];
      Insert(s[|s| - 1], Sort(s[..|s| - 1]))
  }

  lemma RowEnd(per: nat, i: nat, n: nat)
    requires i < n
    ensures per * i + per == per * (i + 1) <= per * n
  {
    assert per * n - per * (i + 1) == per * (n - i - 1) >= 0;
  }

  method FillRow(slots: array<Entry>, start: nat, hash: string -> nat, es: seq<Endpoint>, per: nat, i: nat)
    requires start + per <= slots.Length && i < |es|
    modifies slots
    ensures slots[..start] == old(slots[..start]) && slots[start..start + per] == Row(hash, es, per, i)
  {
    for j := 0 to per
      invariant slots[..start] == old(slots[..start])
      invariant forall k :: 0 <= k < j ==> slots[start + k] == Row(hash, es, per, i)[k]
    {
      slots[start + j] := Entry(i, hash(Label(es[i].address, j)));
    }
  }

  // Writes the row of an endpoint after the rows of those before it.
  method ExtendRows(slots: array<Entry>, start: nat, hash: string -> nat, es: seq<Endpoint>, per: nat, i: nat)
    requires start + per <= slots.Length && i < |es| && slots[..start] == Rows(hash, es, per, i)
    modifies slots
    ensures slots[..start + per] == Rows(hash, es, per, i + 1)
  {
    FillRow(slots, start, hash, es, per, i);
    assert slots[..start + per] == slots[..start] + slots[start..start + per];
  }

  class Ring {
    var hashRing: seq<Entry>

    constructor (hash: string -> nat, es: seq<Endpoint>, per: nat)
      ensures hashRing == Sort(Rows(hash, es, per, |es|))
    {
      new;
      var slots := new Entry[per * |es|](_ => Entry(0, 0));
      for i := 0 to |es|
        invariant per * i <= slots.Length && slots[..per * i] == Rows(hash, es, per, i)
      {
        RowEnd(per, i, |es|);
        var endpointStartIndex := per * i;
        ExtendRows(slots, endpointStartIndex, hash, es, per, i);
      }
      assert slots[..] == slots[..per * |es|];
      hashRing := Sort(slots[..]);
    }

    // ---------- Searching ----------

    // sort.Search: the first entry whose hash is not below the key's.
    method FirstNotBelow(h: nat) returns (i: nat)
      requires ByHash(hashRing)
      ensures i == Position(hashRing, h)
    {
      i := 0;
      var j := |hashRing|;
      while i < j
        invariant i <= j <= |hashRing|
        invariant forall k :: 0 <= k < i ==> hashRing[k].hash < h
        invariant forall k :: j <= k < |hashRing| ==> hashRing[k].hash >= h
      {
        var mid := (i + j) / 2;
        if hashRing[mid].hash < h { i := mid + 1; } else { j := mid; }
      }
      PositionIs(hashRing, h, i);
    }

    // The position of the available entry that is closest clockwise to the key.
    method SearchRing(h: nat, ctx: Context) returns (i: nat)
      requires ByHash(hashRing) && Usable(hashRing, ctx)
      ensures i < |hashRing| && Closest(hashRing, h, Available(ctx), hashRing[i])
      ensures FirstFrom(hashRing, Start(hashRing, h), Available(ctx), i)
    {
      var start := FirstNotBelow(h);
      if start == |hashRing| {
        start := 0;
      }
      i := SkipUnavailable(start, ctx);
      FirstIsClosest(hashRing, h, start, Steps(start, i, |hashRing|), Available(ctx));
    }

    // The loop that skips unavailable entries.
    method SkipUnavailable(start: nat, ctx: Context) returns (i: nat)
      requires Usable(hashRing, ctx) && start < |hashRing|
      ensures FirstFrom(hashRing, start, Available(ctx), i)
    {
      i := start;
      ghost var k := 0;
      ghost var hit := SomeHit(hashRing, start, Available(ctx));
      var skip := SkipEndpoint(ctx, hashRing[i].index);
      while skip
        invariant k <= hit && i == Wrap(start, k, |hashRing|)
        invariant skip == !Available(ctx)(hashRing[i].index)
        invariant NoneBefore(hashRing, start, k, Available(ctx))
        decreases hit - k
      {
        i := Advance(i, |hashRing|);
        k := k + 1;
        skip := SkipEndpoint(ctx, hashRing[i].index);
      }
      assert Steps(start, i, |hashRing|) == k;
    }

    // The endpoint of the first entry clockwise from the key that is available and not above the
    // target load, or just available if all are above it.
    method BoundedLoadSearch(h: nat, balanceFactor: real, ctx: Context) returns (choice: nat)
      requires ByHash(hashRing) && Usable(hashRing, ctx)
      ensures choice < |ctx.route| && Chosen(hashRing, h, ctx, Some(balanceFactor), choice)
      ensures Balanced(hashRing, ctx, balanceFactor) ==>
                ctx.route[choice].inflight as real <= Target(ctx, balanceFactor)
    {
      var first := SearchRing(h, ctx);
      var targetLoad := TargetLoad(ctx, balanceFactor);
      var ringIndex := SkipLoaded(first, ctx, balanceFactor, targetLoad);
      BoundedIsChosen(hashRing, h, ctx, balanceFactor, first, ringIndex);
      choice := hashRing[ringIndex].index;
      if Balanced(hashRing, ctx, balanceFactor) { LightEntryExists(hashRing, ctx, balanceFactor); }
    }

    // The loop of the bounded search: at most one round from the first available entry.
    method SkipLoaded(first: nat, ctx: Context, ghost balanceFactor: real, targetLoad: real)
      returns (ringIndex: nat)
      requires Usable(hashRing, ctx) && targetLoad == Target(ctx, balanceFactor) && first < |hashRing|
      ensures if SomeLight(hashRing, ctx, balanceFactor)
              then FirstFrom(hashRing, first, Light(ctx, balanceFactor), ringIndex)
              else ringIndex == first
    {
      ringIndex := first;
      for i := 0 to |hashRing|
        invariant ringIndex == if i == |hashRing| then first else Wrap(first, i, |hashRing|)
        invariant NoneBefore(hashRing, first, i, Light(ctx, balanceFactor))
      {
        var endpointIndex := hashRing[ringIndex].index;
        var skip := SkipEndpoint(ctx, endpointIndex);
        if !skip && ctx.route[endpointIndex].inflight as real <= targetLoad {
          assert Steps(first, ringIndex, |hashRing|) == i;
          assert SomeLight(hashRing, ctx, balanceFactor);
          return;
        }
        assert !Light(ctx, balanceFactor)(endpointIndex);
        ringIndex := Advance(ringIndex, |hashRing|);
      }
      WholeRound(hashRing, first, Light(ctx, balanceFactor));
    }

    // The chosen endpoint. No factor means no load bound; a single endpoint is taken as it is.
    method Apply(h: nat, balanceFactor: Option<real>, ctx: Context) returns (endpoint: Endpoint)
      requires ctx.available != [] && (|ctx.available| > 1 ==> ByHash(hashRing) && Usable(hashRing, ctx))
      ensures |ctx.available| == 1 ==> endpoint == ctx.available[0]
      ensures |ctx.available| > 1 ==>
                exists i :: 0 <= i < |ctx.route| && ctx.route[i] == endpoint
                            && Chosen(hashRing, h, ctx, balanceFactor, i)
      ensures |ctx.available| > 1 && balanceFactor.Some? && Balanced(hashRing, ctx, balanceFactor.value) ==>
                endpoint.inflight as real <= Target(ctx, balanceFactor.value)
      ensures Listed(ctx) && DistinctHosts(ctx.route) ==> endpoint in ctx.available
    {
      if |ctx.available| == 1 {
        return ctx.available[0];
      }
      var choice;
      if balanceFactor.None? {
        var i := SearchRing(h, ctx);
        choice := hashRing[i].index;
        assert Chosen(hashRing, h, ctx, balanceFactor, choice);
      } else {
        choice := BoundedLoadSearch(h, balanceFactor.value, ctx);
      }
      if Listed(ctx) && DistinctHosts(ctx.route) { AvailableIsListed(ctx, choice); }
      endpoint := ctx.route[choice];
    }
  }

  method TargetLoad(ctx: Context, balanceFactor: real) returns (targetLoad: real)
    requires ctx.available != []
    ensures targetLoad == Target(ctx, balanceFactor)
  {
    var averageLoad := ComputeLoadAverage(ctx);
    targetLoad := averageLoad * balanceFactor;
  }

  // The load average of the available endpoints, the request at hand included.
  method ComputeLoadAverage(ctx: Context) returns (average: real)
    requires ctx.available != []
    ensures average == LoadAverage(ctx)
  {
    var sum := 1.0;
    for i := 0 to |ctx.available|
      invariant sum == 1.0 + Loads(ctx.available[..i]) as real
    {
      assert ctx.available[..i + 1][..i] == ctx.available[..i];
      sum := sum + ctx.available[i].inflight as real;
    }
    assert ctx.available[..|ctx.available|] == ctx.available;
    average := sum / |ctx.available| as real;
  }

  // Whether an endpoint is missing from the available ones, by host.
  method SkipEndpoint(ctx: Context, index: nat) returns (skip: bool)
    requires index < |ctx.route|
    ensures skip == !Available(ctx)(index)
  {
    for i := 0 to |ctx.available|
      invariant forall k :: 0 <= k < i ==> ctx.available[k].host != ctx.route[index].host
    {
      if ctx.available[i].host == ctx.route[index].host {
        return false;
      }
    }
    skip := true;
  }

  // ---------- Specification of the search ----------

  function Available(ctx: Context): nat -> bool {
    (i: nat) => i < |ctx.route| && exists k :: 0 <= k < |ctx.available| && ctx.available[k].host == ctx.route[i].host
  }

  // The ring has entries of the route's endpoints only, and one of an available endpoint.
  ghost predicate Usable(ring: seq<Entry>, ctx: Context) {
    && (forall i :: 0 <= i < |ring| ==> ring[i].index < |ctx.route|)
    && (exists i :: 0 <= i < |ring| && Available(ctx)(ring[i].index))
  }

  function Position(ring: seq<Entry>, h: nat): (i: nat)
    ensures i <= |ring|
  {
    if ring == [] || ring[0].hash >= h then 0 else 1 + Position(ring[1..], h)
  }

  lemma {:induction false} PositionIs(ring: seq<Entry>, h: nat, i: nat)
    requires i <= |ring| && (forall k :: 0 <= k < i ==> ring[k].hash < h) && (i < |ring| ==> ring[i].hash >= h)
    ensures Position(ring, h) == i
  {
    if i > 0 { PositionIs(ring[1..], h, i - 1); }
  }

  lemma {:induction false} PositionSplits(ring: seq<Entry>, h: nat)
    requires ByHash(ring)
    ensures forall k :: 0 <= k < Position(ring, h) ==> ring[k].hash < h
    ensures forall k :: Position(ring, h) <= k < |ring| ==> ring[k].hash >= h
  {
    if ring != [] && ring[0].hash < h {
      PositionSplits(ring[1..], h);
      assert forall k :: 0 < k < |ring| ==> ring[k] == ring[1..][k - 1];
    }
  }

  // Where a search starts, after rolling over at the end.
  function Start(ring: seq<Entry>, h: nat): (i: nat)
    ensures ring != [] ==> i < |ring|
  {
    if Position(ring, h) == |ring| then 0 else Position(ring, h)
  }

  ghost predicate NoneBefore(ring: seq<Entry>, start: nat, k: nat, good: nat -> bool)
    requires start < |ring| && k <= |ring|
  {
    forall m :: 0 <= m < k ==> !good(ring[Wrap(start, m, |ring|)].index)
  }

  // i is the first position clockwise from start, start included, whose endpoint is good.
  ghost predicate FirstFrom(ring: seq<Entry>, start: nat, good: nat -> bool, i: nat) {
    && start < |ring| && i < |ring| && good(ring[i].index)
    && NoneBefore(ring, start, Steps(start, i, |ring|), good)
  }

  // a comes no later than b on the way clockwise from the key.
  predicate NoLater(h: nat, a: nat, b: nat) {
    if a >= h then b < h || a <= b else b < h && a <= b
  }

  // The good entry that comes first clockwise from the key.
  ghost predicate Closest(ring: seq<Entry>, h: nat, good: nat -> bool, e: Entry) {
    && e in ring && good(e.index)
    && (forall f :: f in ring && good(f.index) ==> NoLater(h, e.hash, f.hash))
  }

  ghost function SomeHit(ring: seq<Entry>, start: nat, good: nat -> bool): (k: nat)
    requires start < |ring| && exists i :: 0 <= i < |ring| && good(ring[i].index)
    ensures k < |ring| && good(ring[Wrap(start, k, |ring|)].index)
  {
    var i: nat :| i < |ring| && good(ring[i].index);
    Steps(start, i, |ring|)
  }

  lemma WalkIsClockwise(ring: seq<Entry>, h: nat, k: nat, m: nat)
    requires ByHash(ring) && k <= m < |ring|
    ensures
      var s := Start(ring, h);
      NoLater(h, ring[Wrap(s, k, |ring|)].hash, ring[Wrap(s, m, |ring|)].hash)
  {
    PositionSplits(ring, h);
  }

  lemma FirstIsClosest(ring: seq<Entry>, h: nat, start: nat, k: nat, good: nat -> bool)
    requires ByHash(ring) && ring != [] && start == Start(ring, h) && k < |ring|
    requires good(ring[Wrap(start, k, |ring|)].index) && NoneBefore(ring, start, k, good)
    ensures Closest(ring, h, good, ring[Wrap(start, k, |ring|)])
  {
    var e := ring[Wrap(start, k, |ring|)];
    forall f | f in ring && good(f.index) ensures NoLater(h, e.hash, f.hash) {
      var i: nat :| i < |ring| && ring[i] == f;
      var m := Steps(start, i, |ring|);
      WalkIsClockwise(ring, h, k, m);
    }
  }

  // ---------- Bounded load ----------

  function Loads(es: seq<Endpoint>): nat {
    if es == [] then 0 else Loads(es[..|es| - 1]) + es[|es| - 1].inflight
  }

  function LoadAverage(ctx: Context): real
    requires ctx.available != []
  {
    (1.0 + Loads(ctx.available) as real) / |ctx.available| as real
  }

  function Target(ctx: Context, balanceFactor: real): real
    requires ctx.available != []
  {
    LoadAverage(ctx) * balanceFactor
  }

  // Available and not above the target load.
  function Light(ctx: Context, balanceFactor: real): nat -> bool
    requires ctx.available != []
  {
    (i: nat) => Available(ctx)(i) && i < |ctx.route| && ctx.route[i].inflight as real <= Target(ctx, balanceFactor)
  }

  // Some entry is available and not above the target load.
  ghost predicate SomeLight(ring: seq<Entry>, ctx: Context, balanceFactor: real)
    requires ctx.available != []
  {
    exists i :: 0 <= i < |ring| && Light(ctx, balanceFactor)(ring[i].index)
  }

  // An entry of the endpoint is the closest available one, within the load bound if there is one
  // and some entry meets it.
  ghost predicate Chosen(ring: seq<Entry>, h: nat, ctx: Context, balanceFactor: Option<real>, choice: nat) {
    && ctx.available != [] && Available(ctx)(choice)
    && exists e: Entry :: e.index == choice &&
         if balanceFactor.Some? && SomeLight(ring, ctx, balanceFactor.value)
         then Closest(ring, h, Light(ctx, balanceFactor.value), e)
         else Closest(ring, h, Available(ctx), e)
  }

  lemma BoundedIsChosen(ring: seq<Entry>, h: nat, ctx: Context, balanceFactor: real, first: nat, i: nat)
    requires ByHash(ring) && ctx.available != [] && FirstFrom(ring, Start(ring, h), Available(ctx), first)
    requires Closest(ring, h, Available(ctx), ring[first])
    requires if SomeLight(ring, ctx, balanceFactor) then FirstFrom(ring, first, Light(ctx, balanceFactor), i)
             else i == first
    ensures Chosen(ring, h, ctx, Some(balanceFactor), ring[i].index)
  {
    if SomeLight(ring, ctx, balanceFactor) {
      var start := Start(ring, h);
      FirstOfFirst(ring, start, first, i, Available(ctx), Light(ctx, balanceFactor));
      FirstIsClosest(ring, h, start, Steps(start, i, |ring|), Light(ctx, balanceFactor));
    }
  }

  // The first better entry from the first good one is the first better entry.
  lemma FirstOfFirst(ring: seq<Entry>, start: nat, first: nat, i: nat, good: nat -> bool, better: nat -> bool)
    requires FirstFrom(ring, start, good, first) && FirstFrom(ring, first, better, i)
    requires forall x :: better(x) ==> good(x)
    ensures FirstFrom(ring, start, better, i)
  {
    var n := |ring|;
    assert Wrap(start, Steps(start, i, n), n) == i;
    forall m | 0 <= m < Steps(start, i, n) ensures !better(ring[Wrap(start, m, n)].index) {
      var k := m - Steps(start, first, n);
      if k >= 0 { assert Wrap(first, k, n) == Wrap(start, m, n); }
    }
  }

  lemma WholeRound(ring: seq<Entry>, start: nat, good: nat -> bool)
    requires start < |ring| && NoneBefore(ring, start, |ring|, good)
    ensures forall i :: 0 <= i < |ring| ==> !good(ring[i].index)
  {
    forall i | 0 <= i < |ring| ensures !good(ring[i].index) {
      assert Wrap(start, Steps(start, i, |ring|), |ring|) == i;
    }
  }

  // The available endpoints are a non-empty selection of the route's.
  ghost predicate Listed(ctx: Context) {
    && ctx.available != []
    && (forall k :: 0 <= k < |ctx.available| ==> ctx.available[k] in ctx.route)
  }

  ghost predicate DistinctHosts(es: seq<Endpoint>) {
    forall i, j :: 0 <= i < j < |es| ==> es[i].host != es[j].host
  }

  // Every endpoint of the route has an entry, and no one else.
  ghost predicate Covers(ring: seq<Entry>, route: seq<Endpoint>) {
    && (forall i :: 0 <= i < |ring| ==> ring[i].index < |route|)
    && (forall r: nat :: r < |route| ==> HasEntry(ring, r))
  }

  ghost predicate HasEntry(ring: seq<Entry>, r: nat) {
    exists i :: 0 <= i < |ring| && ring[i].index == r
  }

  // The ring covers the route, the available endpoints are the route's, and the factor is at least 1.
  ghost predicate Balanced(ring: seq<Entry>, ctx: Context, balanceFactor: real) {
    Covers(ring, ctx.route) && Listed(ctx) && balanceFactor >= 1.0
  }

  lemma CoveredIsUsable(ring: seq<Entry>, ctx: Context)
    requires Covers(ring, ctx.route) && Listed(ctx)
    ensures Usable(ring, ctx)
  {
    assert ctx.available[0] in ctx.route;
    var r: nat :| r < |ctx.route| && ctx.route[r] == ctx.available[0];
    assert Available(ctx)(r);
    assert HasEntry(ring, r);
  }

  lemma AvailableIsListed(ctx: Context, r: nat)
    requires Listed(ctx) && DistinctHosts(ctx.route) && Available(ctx)(r)
    ensures ctx.route[r] in ctx.available
  {
    var k :| 0 <= k < |ctx.available| && ctx.available[k].host == ctx.route[r].host;
    assert ctx.available[k] in ctx.route;
    var j: nat :| j < |ctx.route| && ctx.route[j] == ctx.available[k];
  }

  // Loads that are all above a sum to more than n times a.
  lemma {:induction false} LoadsAbove(es: seq<Endpoint>, a: real)
    requires forall k :: 0 <= k < |es| ==> es[k].inflight as real > a
    ensures Loads(es) as real >= |es| as real * a
  {
    if es != [] {
      LoadsAbove(es[..|es| - 1], a);
      AddOne((|es| - 1) as real, a);
    }
  }

  lemma AddOne(n: real, a: real)
    ensures (n + 1.0) * a == n * a + a
  {
  }

  // Pigeonhole: not every load is above the average.
  lemma SomeLoadIsAtMostAverage(ctx: Context) returns (k: nat)
    requires ctx.available != []
    ensures k < |ctx.available| && ctx.available[k].inflight as real <= LoadAverage(ctx)
  {
    if forall j :: 0 <= j < |ctx.available| ==> ctx.available[j].inflight as real > LoadAverage(ctx) {
      LoadsAbove(ctx.available, LoadAverage(ctx));
      AverageTimes(1.0 + Loads(ctx.available) as real, |ctx.available| as real);
      assert false;
    }
    k :| 0 <= k < |ctx.available| && ctx.available[k].inflight as real <= LoadAverage(ctx);
  }

  lemma AverageTimes(x: real, n: real)
    requires n > 0.0
    ensures n * (x / n) == x
  {
  }

  lemma TargetIsAboveAverage(ctx: Context, balanceFactor: real)
    requires ctx.available != [] && balanceFactor >= 1.0
    ensures Target(ctx, balanceFactor) >= LoadAverage(ctx)
  {
    PositiveQuotient(1.0 + Loads(ctx.available) as real, |ctx.available| as real);
    Scale(LoadAverage(ctx), balanceFactor);
  }

  lemma PositiveQuotient(x: real, n: real)
    requires x > 0.0 && n > 0.0
    ensures x / n > 0.0
  {
  }

  lemma Scale(a: real, f: real)
    requires a > 0.0 && f >= 1.0
    ensures a * f >= a
  {
  }

  // With a factor of at least 1 some entry of a ring that covers the route is within the bound.
  lemma LightEntryExists(ring: seq<Entry>, ctx: Context, balanceFactor: real)
    requires Balanced(ring, ctx, balanceFactor)
    ensures SomeLight(ring, ctx, balanceFactor)
  {
    var k := SomeLoadIsAtMostAverage(ctx);
    TargetIsAboveAverage(ctx, balanceFactor);
    assert ctx.available[k] in ctx.route;
    var r: nat :| r < |ctx.route| && ctx.route[r] == ctx.available[k];
    assert Available(ctx)(r);
    assert HasEntry(ring, r);
  }
}
