/**
 Smooth weighted round robin. Weights are exact reals in place of floating point numbers, and the
 random offset at which an iteration starts is a parameter.
 */
module WeightedRoundRobin {
  import opened Circular

  datatype Endpoint = Endpoint(host: string, weight: real)

  type Weights = map<string, real>

  // ---------- One call ----------

  // A missing entry counts as zero.
  function Weight(cw: Weights, host: string): real {
    if host in cw then cw[host] else 0.0
  }

  // The accumulators after every endpoint received its weight, in this order.
  function Raised(cw: Weights, es: seq<Endpoint>): Weights {
    if es == [] then cw
    else
      var m, e := Raised(cw, es[..|es| - 1]), es[|es| - 1];
      m[e.host := Weight(m, e.host) + e.weight]
  }

  function Total(es: seq<Endpoint>): real {
    if es == [] then 0.0 else Total(es[..|es| - 1]) + es[|es| - 1].weight
  }

  // The accumulator of the endpoint at k just after it received its weight.
  function Running(cw: Weights, es: seq<Endpoint>, k: nat): real
    requires k < |es|
  {
    Weight(Raised(cw, es[..k]), es[k].host) + es[k].weight
  }

  // The first endpoint with the highest running accumulator.
  function Leader(cw: Weights, es: seq<Endpoint>, n: nat): (k: nat)
    requires 0 < n <= |es|
    ensures k < n
  {
    if n == 1 then 0
    else
      var k := Leader(cw, es, n - 1);
      if Running(cw, es, n - 1) > Running(cw, es, k) then n - 1 else k
  }

  lemma {:induction false} LeaderLeads(cw: Weights, es: seq<Endpoint>, n: nat)
    requires 0 < n <= |es|
    ensures forall j :: 0 <= j < n ==> Running(cw, es, j) <= Running(cw, es, Leader(cw, es, n))
    ensures forall j :: 0 <= j < Leader(cw, es, n) ==> Running(cw, es, j) < Running(cw, es, Leader(cw, es, n))
  {
    if n > 1 { LeaderLeads(cw, es, n - 1); }
  }

  // The endpoints in the order of an iteration that starts at offset.
  function From(es: seq<Endpoint>, offset: nat): (r: seq<Endpoint>)
    requires offset < |es|
    ensures |r| == |es|
  {
    es[offset..] + es[..offset]
  }

  // One turn of the loop, at the endpoint k steps after offset.
  lemma RaisedStep(cw: Weights, es: seq<Endpoint>, offset: nat, k: nat)
    requires offset < |es| && k < |es|
    ensures
      var order, e := From(es, offset), es[Wrap(offset, k, |es|)];
      var m := Raised(cw, order[..k]);
      && Running(cw, order, k) == Weight(m, e.host) + e.weight
      && Raised(cw, order[..k + 1]) == m[e.host := Running(cw, order, k)]
      && Total(order[..k + 1]) == Total(order[..k]) + e.weight
  {
    var order := From(es, offset);
    FromAt(es, offset, k);
    assert order[..k + 1][..k] == order[..k];
  }

  // The accumulators after a call that picked the endpoint at best.
  function After(cw: Weights, es: seq<Endpoint>, best: nat): Weights
    requires best < |es|
  {
    Paid(Raised(cw, es), es[best].host, Total(es))
  }

  function Paid(cw: Weights, host: string, total: real): Weights {
    cw[host := Weight(cw, host) - total]
  }

  // ---------- The order of iteration does not matter ----------

  // The weight a host receives in one call.
  function Share(es: seq<Endpoint>, host: string): real {
    if es == [] then 0.0
    else Share(es[..|es| - 1], host) + if es[|es| - 1].host == host then es[|es| - 1].weight else 0.0
  }

  function Hosts(es: seq<Endpoint>): set<string> {
    set i | 0 <= i < |es| :: es[i].host
  }

  lemma {:induction false} RaisedIs(cw: Weights, es: seq<Endpoint>, host: string)
    ensures Weight(Raised(cw, es), host) == Weight(cw, host) + Share(es, host)
    ensures Raised(cw, es).Keys == cw.Keys + Hosts(es)
  {
    if es != [] {
      var before := es[..|es| - 1];
      RaisedIs(cw, before, host);
      RaisedIs(cw, before, es[|es| - 1].host);
      assert Hosts(es) == Hosts(before) + {es[|es| - 1].host};
    }
  }

  lemma {:induction false} ShareConcat(a: seq<Endpoint>, b: seq<Endpoint>, host: string)
    ensures Share(a + b, host) == Share(a, host) + Share(b, host)
    ensures Total(a + b) == Total(a) + Total(b)
    decreases |b|
  {
    if b == [] {
      assert a + b == a;
    } else {
      assert (a + b)[..|a + b| - 1] == a + b[..|b| - 1];
      ShareConcat(a, b[..|b| - 1], host);
    }
  }

  lemma FromAt(es: seq<Endpoint>, offset: nat, k: nat)
    requires offset < |es| && k < |es|
    ensures From(es, offset)[k] == es[Wrap(offset, k, |es|)]
  {
  }

  lemma SameHosts(es: seq<Endpoint>, offset: nat)
    requires offset < |es|
    ensures Hosts(From(es, offset)) == Hosts(es)
  {
    var order := From(es, offset);
    forall h | h in Hosts(es) ensures h in Hosts(order) {
      var j :| 0 <= j < |es| && es[j].host == h;
      FromAt(es, offset, Steps(offset, j, |es|));
    }
    forall h | h in Hosts(order) ensures h in Hosts(es) {
      var k :| 0 <= k < |es| && order[k].host == h;
      FromAt(es, offset, k);
    }
  }

  // Raising in any rotated order has the same effect on one host.
  lemma SameShare(cw: Weights, es: seq<Endpoint>, offset: nat, h: string)
    requires offset < |es|
    ensures Weight(Raised(cw, From(es, offset)), h) == Weight(Raised(cw, es), h)
    ensures Total(From(es, offset)) == Total(es)
  {
    assert es[..offset] + es[offset..] == es;
    RaisedIs(cw, es, h);
    RaisedIs(cw, From(es, offset), h);
    ShareConcat(es[..offset], es[offset..], h);
    ShareConcat(es[offset..], es[..offset], h);
  }

  lemma OrderDoesNotMatter(cw: Weights, es: seq<Endpoint>, offset: nat)
    requires offset < |es|
    ensures Raised(cw, From(es, offset)) == Raised(cw, es)
    ensures Total(From(es, offset)) == Total(es)
  {
    var r, s := Raised(cw, From(es, offset)), Raised(cw, es);
    SameHosts(es, offset);
    RaisedIs(cw, es, "");
    RaisedIs(cw, From(es, offset), "");
    SameShare(cw, es, offset, "");
    forall h | h in s ensures r[h] == s[h] {
      SameShare(cw, es, offset, h);
    }
  }

  // ---------- The accumulators add up to zero ----------

  ghost function SumOver(keys: set<string>, cw: Weights): real
    requires keys <= cw.Keys
  {
    if keys == {} then 0.0
    else
      var k :| k in keys;
      cw[k] + SumOver(keys - {k}, cw)
  }

  ghost function Sum(cw: Weights): real {
    SumOver(cw.Keys, cw)
  }

  lemma {:induction false} SumSplit(keys: set<string>, cw: Weights, k: string)
    requires keys <= cw.Keys && k in keys
    ensures SumOver(keys, cw) == cw[k] + SumOver(keys - {k}, cw)
    decreases keys
  {
    var first :| first in keys && SumOver(keys, cw) == cw[first] + SumOver(keys - {first}, cw);
    if first != k {
      SumSplit(keys - {first}, cw, k);
      SumSplit(keys - {k}, cw, first);
      assert keys - {first} - {k} == keys - {k} - {first};
    }
  }

  lemma {:induction false} SumSame(keys: set<string>, a: Weights, b: Weights)
    requires keys <= a.Keys && keys <= b.Keys && forall k :: k in keys ==> a[k] == b[k]
    ensures SumOver(keys, a) == SumOver(keys, b)
    decreases keys
  {
    if keys != {} {
      var k :| k in keys;
      SumSplit(keys, a, k);
      SumSplit(keys, b, k);
      SumSame(keys - {k}, a, b);
    }
  }

  lemma SumUpdate(cw: Weights, k: string, x: real)
    ensures Sum(cw[k := x]) == Sum(cw) - Weight(cw, k) + x
  {
    var m := cw[k := x];
    SumSplit(m.Keys, m, k);
    assert m.Keys - {k} == cw.Keys - {k};
    SumSame(cw.Keys - {k}, cw, m);
    if k in cw { SumSplit(cw.Keys, cw, k); } else { assert cw.Keys - {k} == cw.Keys; }
  }

  lemma {:induction false} RaisedSum(cw: Weights, es: seq<Endpoint>)
    ensures Sum(Raised(cw, es)) == Sum(cw) + Total(es)
  {
    if es != [] {
      var before, e := es[..|es| - 1], es[|es| - 1];
      RaisedSum(cw, before);
      var m := Raised(cw, before);
      SumUpdate(m, e.host, Weight(m, e.host) + e.weight);
    }
  }

  // A call keeps the sum of all accumulators, for any endpoints and weights, so they sum to zero
  // over every run.
  lemma CallKeepsSum(cw: Weights, es: seq<Endpoint>, best: nat)
    requires best < |es|
    ensures Sum(After(cw, es, best)) == Sum(cw)
  {
    RaisedSum(cw, es);
    var r := Raised(cw, es);
    SumUpdate(r, es[best].host, Weight(r, es[best].host) - Total(es));
  }

  // ---------- Histories ----------

  // One call: the endpoints it was given and the index of the one it picked.
  datatype Round = Round(es: seq<Endpoint>, best: nat)

  ghost predicate InRange(rounds: seq<Round>) {
    forall k :: 0 <= k < |rounds| ==> rounds[k].best < |rounds[k].es|
  }

  // The accumulators after a sequence of calls, each with its own endpoints and weights. A single
  // endpoint is picked without touching them.
  function AfterAll(rounds: seq<Round>): Weights
    requires InRange(rounds)
  {
    if rounds == [] then map[]
    else
      var before, last := AfterAll(rounds[..|rounds| - 1]), rounds[|rounds| - 1];
      if |last.es| == 1 then before else After(before, last.es, last.best)
  }

  // Among distinct hosts the pick has the highest accumulator.
  ghost predicate Next(rounds: seq<Round>, r: Round)
    requires InRange(rounds)
  {
    r.best < |r.es| && (|r.es| > 1 && Distinct(r.es) ==> Highest(AfterAll(rounds), r.es, r.best))
  }

  // Every pick is allowed after the calls before it.
  ghost predicate History(rounds: seq<Round>) {
    && InRange(rounds)
    && (rounds != [] ==> History(rounds[..|rounds| - 1]) && Next(rounds[..|rounds| - 1], rounds[|rounds| - 1]))
  }

  // Over every sequence of calls, whatever their endpoints and weights, the accumulators sum to zero.
  lemma {:induction false} HistorySumsToZero(rounds: seq<Round>)
    requires InRange(rounds)
    ensures Sum(AfterAll(rounds)) == 0.0
  {
    if rounds != [] {
      var before, last := rounds[..|rounds| - 1], rounds[|rounds| - 1];
      HistorySumsToZero(before);
      CallKeepsSum(AfterAll(before), last.es, last.best);
    }
  }

  // ---------- The algorithm ----------

  class Algorithm {
    var currentWeights: Weights
    ghost var rounds: seq<Round>

    ghost predicate Valid()
      reads this
    {
      History(rounds) && currentWeights == AfterAll(rounds)
    }

    constructor ()
      ensures Valid() && rounds == []
    {
      currentWeights, rounds := map[], [];
    }

    // Returns the index of the chosen endpoint.
    method Apply(es: seq<Endpoint>, offset: nat) returns (best: nat)
      requires Valid() && offset < |es|
      modifies this
      ensures Valid() && best < |es| && rounds == old(rounds) + [Round(es, best)]
      ensures |es| > 1 ==> best == Wrap(offset, Leader(old(currentWeights), From(es, offset), |es|), |es|)
      ensures Sum(currentWeights) == 0.0
    {
      ghost var cw := currentWeights;
      if |es| == 1 {
        best := 0;
      } else {
        var total;
        best, total := RaiseAll(es, offset);
        Effect(cw, es, offset);
        currentWeights := Paid(currentWeights, es[best].host, total);
      }
      HistoryGrows(rounds, Round(es, best));
      AfterOneMore(rounds, Round(es, best));
      rounds := rounds + [Round(es, best)];
      HistorySumsToZero(rounds);
    }

    // The loop over the endpoints: every accumulator grows by its weight and the highest is noted.
    method RaiseAll(es: seq<Endpoint>, offset: nat) returns (best: nat, total: real)
      requires offset < |es|
      modifies this`currentWeights
      ensures currentWeights == Raised(old(currentWeights), From(es, offset)) && total == Total(From(es, offset))
      ensures best == Wrap(offset, Leader(old(currentWeights), From(es, offset), |es|), |es|)
    {
      var ne := |es|;
      ghost var cw, order := currentWeights, From(es, offset);
      total := 0.0;
      var bestWeight := 0.0;
      var haveBest := false;  // false stands for a best weight of minus infinity
      best := 0;
      assert order[..0] == [];
      for k := 0 to ne
        invariant currentWeights == Raised(cw, order[..k])
        invariant total == Total(order[..k])
        invariant haveBest == (k > 0)
        invariant k > 0 ==> best == Wrap(offset, Leader(cw, order, k), ne)
        invariant k > 0 ==> bestWeight == Running(cw, order, Leader(cw, order, k))
      {
        var i := (offset + k) % ne;
        WrapIsModulo(offset, k, ne);
        RaisedStep(cw, es, offset, k);
        total := total + es[i].weight;
        var w := Weight(currentWeights, es[i].host) + es[i].weight;
        currentWeights := currentWeights[es[i].host := w];
        if !haveBest || w > bestWeight {
          bestWeight, haveBest, best := w, true, i;
        }
      }
      assert order[..ne] == order;
    }
  }

  lemma AfterOneMore(rounds: seq<Round>, r: Round)
    requires InRange(rounds) && r.best < |r.es|
    ensures InRange(rounds + [r])
    ensures AfterAll(rounds + [r]) == if |r.es| == 1 then AfterAll(rounds) else After(AfterAll(rounds), r.es, r.best)
  {
    var all := rounds + [r];
    assert all[..|all| - 1] == rounds && all[|all| - 1] == r;
  }

  lemma HistoryGrows(rounds: seq<Round>, r: Round)
    requires History(rounds) && Next(rounds, r)
    ensures History(rounds + [r])
  {
    var all := rounds + [r];
    assert all[..|all| - 1] == rounds && all[|all| - 1] == r;
  }

  // ---------- Distinct hosts: the highest accumulator is picked ----------

  ghost predicate Distinct(es: seq<Endpoint>) {
    forall i, j :: 0 <= i < j < |es| ==> es[i].host != es[j].host
  }

  ghost predicate Highest(cw: Weights, es: seq<Endpoint>, best: nat)
    requires best < |es|
  {
    forall j :: 0 <= j < |es| ==>
      Weight(cw, es[j].host) + es[j].weight <= Weight(cw, es[best].host) + es[best].weight
  }

  lemma {:induction false} ShareOfAbsent(es: seq<Endpoint>, host: string)
    requires forall i :: 0 <= i < |es| ==> es[i].host != host
    ensures Share(es, host) == 0.0
  {
    if es != [] { ShareOfAbsent(es[..|es| - 1], host); }
  }

  lemma {:induction false} ShareOfOne(es: seq<Endpoint>, i: nat)
    requires Distinct(es) && i < |es|
    ensures Share(es, es[i].host) == es[i].weight
    decreases |es|
  {
    var before := es[..|es| - 1];
    if i == |es| - 1 { ShareOfAbsent(before, es[i].host); } else { ShareOfOne(before, i); }
  }

  lemma RunningOfDistinct(cw: Weights, es: seq<Endpoint>, offset: nat, k: nat)
    requires offset < |es| && k < |es| && Distinct(es)
    ensures
      var e := es[Wrap(offset, k, |es|)];
      Running(cw, From(es, offset), k) == Weight(cw, e.host) + e.weight
  {
    var order := From(es, offset);
    FromAt(es, offset, k);
    forall i | 0 <= i < k ensures order[..k][i].host != order[k].host {
      FromAt(es, offset, i);
    }
    RaisedIs(cw, order[..k], order[k].host);
    ShareOfAbsent(order[..k], order[k].host);
  }

  lemma LeaderIsHighest(cw: Weights, es: seq<Endpoint>, offset: nat)
    requires offset < |es| && Distinct(es)
    ensures Highest(cw, es, Wrap(offset, Leader(cw, From(es, offset), |es|), |es|))
  {
    var order := From(es, offset);
    var k := Leader(cw, order, |es|);
    var best := es[Wrap(offset, k, |es|)];
    LeaderLeads(cw, order, |es|);
    RunningOfDistinct(cw, es, offset, k);
    forall j | 0 <= j < |es|
      ensures Weight(cw, es[j].host) + es[j].weight <= Weight(cw, best.host) + best.weight
    {
      var at := Steps(offset, j, |es|);
      RunningOfDistinct(cw, es, offset, at);
      assert Running(cw, order, at) <= Running(cw, order, k);
    }
  }

  // One whole call, whatever the offset.
  lemma Effect(cw: Weights, es: seq<Endpoint>, offset: nat)
    requires offset < |es|
    ensures
      var order := From(es, offset);
      var best := Wrap(offset, Leader(cw, order, |es|), |es|);
      && Paid(Raised(cw, order), es[best].host, Total(order)) == After(cw, es, best)
      && Sum(After(cw, es, best)) == Sum(cw)
      && (Distinct(es) ==> Highest(cw, es, best))
  {
    var best := Wrap(offset, Leader(cw, From(es, offset), |es|), |es|);
    OrderDoesNotMatter(cw, es, offset);
    CallKeepsSum(cw, es, best);
    if Distinct(es) { LeaderIsHighest(cw, es, offset); }
  }
}
