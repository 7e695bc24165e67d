/**
 Fairness of smooth weighted round robin over every run with a fixed set of endpoints: how often
 an endpoint can have been picked, and the exact counts after a full period.
 */
module RoundRobinFairness {
  import opened WeightedRoundRobin

  // ---------- Runs ----------

  // The accumulators after a sequence of picks.
  function State(start: Weights, es: seq<Endpoint>, picks: seq<nat>): Weights
    requires forall k :: 0 <= k < |picks| ==> picks[k] < |es|
  {
    if picks == [] then start
    else After(State(start, es, picks[..|picks| - 1]), es, picks[|picks| - 1])
  }

  // Each pick had the highest accumulator of its round; ties may have been broken in any way.
  ghost predicate FairRun(start: Weights, es: seq<Endpoint>, picks: seq<nat>) {
    && (forall k :: 0 <= k < |picks| ==> picks[k] < |es|)
    && (picks != [] ==>
          var before, last := picks[..|picks| - 1], picks[|picks| - 1];
          FairRun(start, es, before) && Highest(State(start, es, before), es, last))
  }

  // Fixed distinct hosts with positive weights, and accumulators that start at zero.
  ghost predicate Steady(start: Weights, es: seq<Endpoint>) {
    && es != [] && Distinct(es)
    && (forall i :: 0 <= i < |es| ==> es[i].weight > 0.0)
    && (forall i :: 0 <= i < |es| ==> Weight(start, es[i].host) == 0.0)
  }

  function Count(picks: seq<nat>, i: nat): nat {
    if picks == [] then 0 else Count(picks[..|picks| - 1], i) + if picks[|picks| - 1] == i then 1 else 0
  }

  // ---------- What an accumulator holds ----------

  // The weight received so far less the total paid per pick.
  function Balance(es: seq<Endpoint>, picks: seq<nat>, i: nat): real
    requires i < |es|
  {
    if picks == [] then 0.0
    else Balance(es, picks[..|picks| - 1], i) + es[i].weight - if picks[|picks| - 1] == i then Total(es) else 0.0
  }

  // n times x, by repeated addition.
  function Times(n: nat, x: real): real {
    if n == 0 then 0.0 else Times(n - 1, x) + x
  }

  lemma {:induction false} BalanceIs(es: seq<Endpoint>, picks: seq<nat>, i: nat)
    requires i < |es|
    ensures Balance(es, picks, i) == Times(|picks|, es[i].weight) - Times(Count(picks, i), Total(es))
  {
    if picks != [] { BalanceIs(es, picks[..|picks| - 1], i); }
  }

  lemma AfterOne(cw: Weights, es: seq<Endpoint>, best: nat, i: nat)
    requires Distinct(es) && best < |es| && i < |es|
    ensures Weight(After(cw, es, best), es[i].host)
         == Weight(cw, es[i].host) + es[i].weight - if i == best then Total(es) else 0.0
  {
    RaisedIs(cw, es, es[i].host);
    ShareOfOne(es, i);
    assert es[best].host == es[i].host <==> i == best;
  }

  lemma {:induction false} AccumulatorIsBalance(start: Weights, es: seq<Endpoint>, picks: seq<nat>, i: nat)
    requires Steady(start, es) && FairRun(start, es, picks) && i < |es|
    ensures Weight(State(start, es, picks), es[i].host) == Balance(es, picks, i)
  {
    if picks != [] {
      var before := picks[..|picks| - 1];
      AccumulatorIsBalance(start, es, before, i);
      AfterOne(State(start, es, before), es, picks[|picks| - 1], i);
    }
  }

  // ---------- Sums over the endpoints ----------

  function CountUpTo(picks: seq<nat>, n: nat): nat {
    if n == 0 then 0 else CountUpTo(picks, n - 1) + Count(picks, n - 1)
  }

  function BalanceUpTo(es: seq<Endpoint>, picks: seq<nat>, n: nat): real
    requires n <= |es|
  {
    if n == 0 then 0.0 else BalanceUpTo(es, picks, n - 1) + Balance(es, picks, n - 1)
  }

  lemma {:induction false} CountStep(picks: seq<nat>, n: nat)
    requires picks != []
    ensures CountUpTo(picks, n)
         == CountUpTo(picks[..|picks| - 1], n) + if picks[|picks| - 1] < n then 1 else 0
    decreases n
  {
    if n > 0 { CountStep(picks, n - 1); }
  }

  lemma {:induction false} CountNone(n: nat)
    ensures CountUpTo([], n) == 0
  {
    if n > 0 { CountNone(n - 1); }
  }

  lemma {:induction false} CountsAddUp(picks: seq<nat>, n: nat)
    requires forall k :: 0 <= k < |picks| ==> picks[k] < n
    ensures CountUpTo(picks, n) == |picks|
  {
    if picks == [] {
      CountNone(n);
    } else {
      CountStep(picks, n);
      CountsAddUp(picks[..|picks| - 1], n);
    }
  }

  lemma {:induction false} BalancesStep(es: seq<Endpoint>, picks: seq<nat>, n: nat)
    requires picks != [] && n <= |es|
    ensures BalanceUpTo(es, picks, n)
         == BalanceUpTo(es, picks[..|picks| - 1], n) + Total(es[..n])
            - if picks[|picks| - 1] < n then Total(es) else 0.0
    decreases n
  {
    if n > 0 {
      BalancesStep(es, picks, n - 1);
      assert es[..n][..n - 1] == es[..n - 1];
    }
  }

  lemma {:induction false} NoBalance(es: seq<Endpoint>, n: nat)
    requires n <= |es|
    ensures BalanceUpTo(es, [], n) == 0.0
  {
    if n > 0 { NoBalance(es, n - 1); }
  }

  lemma {:induction false} BalancesSumToZero(es: seq<Endpoint>, picks: seq<nat>)
    requires forall k :: 0 <= k < |picks| ==> picks[k] < |es|
    ensures BalanceUpTo(es, picks, |es|) == 0.0
  {
    if picks == [] {
      NoBalance(es, |es|);
    } else {
      BalancesSumToZero(es, picks[..|picks| - 1]);
      BalancesStep(es, picks, |es|);
      assert es[..|es|] == es;
    }
  }

  // Balances below a bound m, each raised by its weight, sum to at most n * m.
  lemma {:induction false} RaisedBalancesBelow(es: seq<Endpoint>, picks: seq<nat>, n: nat, m: real)
    requires n <= |es| && m <= 0.0
    requires forall i :: 0 <= i < n ==> Balance(es, picks, i) + es[i].weight <= m
    ensures BalanceUpTo(es, picks, n) + Total(es[..n]) <= 0.0
    decreases n
  {
    if n > 0 {
      RaisedBalancesBelow(es, picks, n - 1, m);
      assert es[..n][..n - 1] == es[..n - 1];
    }
  }

  lemma {:induction false} TotalPositive(es: seq<Endpoint>)
    requires es != [] && forall i :: 0 <= i < |es| ==> es[i].weight > 0.0
    ensures Total(es) > 0.0
  {
    if |es| > 1 { TotalPositive(es[..|es| - 1]); } else { assert es[..0] == []; }
  }

  // ---------- Fairness ----------

  // The highest raised accumulator is positive, so paying the total never takes one to -Total.
  lemma {:induction false} AccumulatorsStayAbove(start: Weights, es: seq<Endpoint>, picks: seq<nat>, i: nat)
    requires Steady(start, es) && FairRun(start, es, picks) && i < |es|
    ensures Balance(es, picks, i) > -Total(es)
  {
    TotalPositive(es);
    if picks != [] {
      var before, best := picks[..|picks| - 1], picks[|picks| - 1];
      AccumulatorsStayAbove(start, es, before, i);
      if i == best { PickIsPositive(start, es, before, best); }
    }
  }

  lemma PickIsPositive(start: Weights, es: seq<Endpoint>, picks: seq<nat>, best: nat)
    requires Steady(start, es) && FairRun(start, es, picks) && best < |es|
    requires Highest(State(start, es, picks), es, best)
    ensures Balance(es, picks, best) + es[best].weight > 0.0
  {
    TotalPositive(es);
    BalancesSumToZero(es, picks);
    assert es[..|es|] == es;
    AccumulatorIsBalance(start, es, picks, best);
    var m := Balance(es, picks, best) + es[best].weight;
    forall i | 0 <= i < |es| ensures Balance(es, picks, i) + es[i].weight <= m {
      AccumulatorIsBalance(start, es, picks, i);
    }
    if m <= 0.0 { RaisedBalancesBelow(es, picks, |es|, m); }
  }

  lemma {:induction false} OthersAbove(start: Weights, es: seq<Endpoint>, picks: seq<nat>, i: nat, n: nat)
    requires Steady(start, es) && FairRun(start, es, picks) && i < |es| && n <= |es|
    ensures BalanceUpTo(es, picks, n)
         >= (if i < n then Balance(es, picks, i) + Total(es) else 0.0) - Times(n, Total(es))
    decreases n
  {
    if n > 0 {
      OthersAbove(start, es, picks, i, n - 1);
      AccumulatorsStayAbove(start, es, picks, n - 1);
    }
  }

  lemma BalanceBounds(start: Weights, es: seq<Endpoint>, picks: seq<nat>, i: nat)
    requires Steady(start, es) && FairRun(start, es, picks) && i < |es|
    ensures 0.0 < Total(es)
    ensures -Total(es) < Times(|picks|, es[i].weight) - Times(Count(picks, i), Total(es)) <= Times(|es| - 1, Total(es))
  {
    BalanceIs(es, picks, i);
    TotalPositive(es);
    AccumulatorsStayAbove(start, es, picks, i);
    BalancesSumToZero(es, picks);
    OthersAbove(start, es, picks, i, |es|);
  }

  // The exact proportional share of t calls.
  function Proportion(t: nat, w: real, total: real): real
    requires total > 0.0
  {
    t as real * w / total
  }

  // After t calls an endpoint has been picked fewer than t * w / W + 1 times, and no fewer than
  // t * w / W - (n - 1) times.
  lemma FairShare(start: Weights, es: seq<Endpoint>, picks: seq<nat>, i: nat)
    requires Steady(start, es) && FairRun(start, es, picks) && i < |es|
    ensures Total(es) > 0.0
    ensures Count(picks, i) as real < Proportion(|picks|, es[i].weight, Total(es)) + 1.0
    ensures Count(picks, i) as real >= Proportion(|picks|, es[i].weight, Total(es)) - (|es| - 1) as real
  {
    BalanceBounds(start, es, picks, i);
    Quotients(|picks|, es[i].weight, Count(picks, i), Total(es), |es| - 1);
  }

  lemma {:induction false} TimesIs(n: nat, x: real)
    ensures Times(n, x) == n as real * x
  {
    if n > 0 {
      TimesIs(n - 1, x);
      Distribute((n - 1) as real, x);
    }
  }

  lemma Distribute(a: real, x: real)
    ensures (a + 1.0) * x == a * x + x
  {
  }

  lemma Quotients(t: nat, w: real, c: nat, total: real, k: nat)
    requires total > 0.0 && -total < Times(t, w) - Times(c, total) <= Times(k, total)
    ensures c as real < Proportion(t, w, total) + 1.0
    ensures c as real >= Proportion(t, w, total) - k as real
  {
    TimesIs(t, w);
    TimesIs(c, total);
    TimesIs(k, total);
    Divide(t as real * w, c as real, total, k as real);
  }

  lemma Positive(a: real, w: real)
    requires w > 0.0
    ensures a * w > 0.0 <==> a > 0.0
  {
  }

  lemma Divide(x: real, c: real, total: real, k: real)
    requires total > 0.0 && -total < x - c * total <= k * total
    ensures c < x / total + 1.0 && c >= x / total - k
  {
    var q := x / total;
    assert x == q * total;
    var d := q - c;
    assert d * total == x - c * total;
    Positive(d + 1.0, total);
    Positive(d - k, total);
  }

  // ---------- A full period with integer weights ----------

  function NatSum(ws: seq<nat>, n: nat): nat
    requires n <= |ws|
  {
    if n == 0 then 0 else NatSum(ws, n - 1) + ws[n - 1]
  }

  ghost predicate Integral(es: seq<Endpoint>, ws: seq<nat>) {
    |ws| == |es| && forall i :: 0 <= i < |es| ==> es[i].weight == ws[i] as real
  }

  lemma {:induction false} IntegralTotal(es: seq<Endpoint>, ws: seq<nat>, n: nat)
    requires Integral(es, ws) && n <= |es|
    ensures Total(es[..n]) == NatSum(ws, n) as real
    decreases n
  {
    if n > 0 {
      IntegralTotal(es, ws, n - 1);
      assert es[..n][..n - 1] == es[..n - 1];
    }
  }

  // Counts that are nowhere above the weights but add up to as much are equal to them.
  lemma {:induction false} NoneBelow(picks: seq<nat>, ws: seq<nat>, n: nat, i: nat)
    requires n <= |ws| && i < n
    requires forall k :: 0 <= k < n ==> Count(picks, k) <= ws[k]
    ensures CountUpTo(picks, n) + (ws[i] - Count(picks, i)) <= NatSum(ws, n)
    decreases n
  {
    if i < n - 1 { NoneBelow(picks, ws, n - 1, i); } else { AllBelow(picks, ws, n - 1); }
  }

  lemma {:induction false} AllBelow(picks: seq<nat>, ws: seq<nat>, n: nat)
    requires n <= |ws| && forall k :: 0 <= k < n ==> Count(picks, k) <= ws[k]
    ensures CountUpTo(picks, n) <= NatSum(ws, n)
    decreases n
  {
    if n > 0 { AllBelow(picks, ws, n - 1); }
  }

  lemma {:induction false} TimesMonotonic(w: real, a: nat, b: nat)
    requires w > 0.0 && a <= b
    ensures Times(a, w) <= Times(b, w)
    decreases b
  {
    if a < b { TimesMonotonic(w, a, b - 1); }
  }

  lemma TimesBelow(w: real, a: nat, b: nat)
    requires w > 0.0 && Times(b, w) - Times(a, w) > -w
    ensures a <= b
  {
    if a > b { TimesMonotonic(w, b + 1, a); }
  }

  lemma {:induction false} TimesPlusOne(m: nat, x: real)
    ensures Times(m, x + 1.0) == Times(m, x) + m as real
  {
    if m > 0 { TimesPlusOne(m - 1, x); }
  }

  lemma {:induction false} TimesCommutes(m: nat, n: nat)
    ensures Times(m, n as real) == Times(n, m as real)
    decreases n
  {
    if n == 0 {
      TimesZero(m);
    } else {
      TimesCommutes(m, n - 1);
      TimesPlusOne(m, (n - 1) as real);
    }
  }

  lemma {:induction false} TimesZero(m: nat)
    ensures Times(m, 0.0) == 0.0
  {
    if m > 0 { TimesZero(m - 1); }
  }

  lemma PeriodBalance(es: seq<Endpoint>, ws: seq<nat>, picks: seq<nat>, i: nat)
    requires Integral(es, ws) && i < |es| && |picks| == NatSum(ws, |ws|)
    ensures Balance(es, picks, i) == Times(ws[i], Total(es)) - Times(Count(picks, i), Total(es))
  {
    IntegralTotal(es, ws, |es|);
    assert es[..|es|] == es;
    BalanceIs(es, picks, i);
    TimesCommutes(|picks|, ws[i]);
  }

  lemma AtMostWeight(start: Weights, es: seq<Endpoint>, ws: seq<nat>, picks: seq<nat>, i: nat)
    requires Steady(start, es) && Integral(es, ws) && FairRun(start, es, picks) && i < |es|
    requires |picks| == NatSum(ws, |ws|)
    ensures Count(picks, i) <= ws[i]
  {
    TotalPositive(es);
    AccumulatorsStayAbove(start, es, picks, i);
    PeriodBalance(es, ws, picks, i);
    TimesBelow(Total(es), Count(picks, i), ws[i]);
  }

  // W calls with integer weights that sum to W pick each endpoint exactly its weight many times
  // and return every accumulator to zero, so that the next period starts as the first did.
  lemma FullPeriod(start: Weights, es: seq<Endpoint>, ws: seq<nat>, picks: seq<nat>, i: nat)
    requires Steady(start, es) && Integral(es, ws) && FairRun(start, es, picks) && i < |es|
    requires |picks| == NatSum(ws, |ws|)
    ensures Count(picks, i) == ws[i]
    ensures Weight(State(start, es, picks), es[i].host) == 0.0
  {
    forall k | 0 <= k < |es| ensures Count(picks, k) <= ws[k] {
      AtMostWeight(start, es, ws, picks, k);
    }
    CountsAddUp(picks, |es|);
    NoneBelow(picks, ws, |es|, i);
    AccumulatorIsBalance(start, es, picks, i);
    PeriodBalance(es, ws, picks, i);
  }

  lemma PeriodRestarts(start: Weights, es: seq<Endpoint>, ws: seq<nat>, picks: seq<nat>)
    requires Steady(start, es) && Integral(es, ws) && FairRun(start, es, picks)
    requires |picks| == NatSum(ws, |ws|)
    ensures Steady(State(start, es, picks), es)
  {
    forall i | 0 <= i < |es| ensures Weight(State(start, es, picks), es[i].host) == 0.0 {
      FullPeriod(start, es, ws, picks, i);
    }
  }

  // ---------- The calls of the algorithm ----------

  function PicksOf(rounds: seq<Round>): (picks: seq<nat>)
    ensures |picks| == |rounds|
  {
    if rounds == [] then [] else PicksOf(rounds[..|rounds| - 1]) + [rounds[|rounds| - 1].best]
  }

  // At least two distinct hosts of positive weight, the same in every call.
  ghost predicate Unvarying(rounds: seq<Round>, es: seq<Endpoint>) {
    && |es| >= 2 && Steady(map[], es)
    && (forall k :: 0 <= k < |rounds| ==> rounds[k].es == es)
  }

  // The picks of the algorithm from its empty state are a fair run that leads to its accumulators.
  lemma {:induction false} HistoryIsFair(rounds: seq<Round>, es: seq<Endpoint>)
    requires History(rounds) && Unvarying(rounds, es)
    ensures FairRun(map[], es, PicksOf(rounds)) && State(map[], es, PicksOf(rounds)) == AfterAll(rounds)
    decreases |rounds|
  {
    if rounds != [] {
      var n := |rounds| - 1;
      HistoryIsFair(rounds[..n], es);
      FairStep(map[], es, PicksOf(rounds[..n]), rounds[n].best);
    }
  }

  lemma FairStep(start: Weights, es: seq<Endpoint>, picks: seq<nat>, best: nat)
    requires FairRun(start, es, picks) && best < |es| && Highest(State(start, es, picks), es, best)
    ensures FairRun(start, es, picks + [best])
    ensures State(start, es, picks + [best]) == After(State(start, es, picks), es, best)
  {
    assert (picks + [best])[..|picks|] == picks;
  }

  // After any number of calls an endpoint was picked fewer than t * w / W + 1 and at least
  // t * w / W - (n - 1) times.
  lemma CallsAreFair(rounds: seq<Round>, es: seq<Endpoint>, i: nat)
    requires History(rounds) && Unvarying(rounds, es) && i < |es|
    ensures Total(es) > 0.0
    ensures Count(PicksOf(rounds), i) as real < Proportion(|rounds|, es[i].weight, Total(es)) + 1.0
    ensures Count(PicksOf(rounds), i) as real >= Proportion(|rounds|, es[i].weight, Total(es)) - (|es| - 1) as real
  {
    HistoryIsFair(rounds, es);
    FairShare(map[], es, PicksOf(rounds), i);
  }

  // With integer weights, the first W calls pick every endpoint as often as its weight and leave
  // every accumulator at zero.
  lemma CallsCompletePeriod(rounds: seq<Round>, es: seq<Endpoint>, ws: seq<nat>, i: nat)
    requires History(rounds) && Unvarying(rounds, es) && Integral(es, ws) && i < |es|
    requires |rounds| == NatSum(ws, |ws|)
    ensures Count(PicksOf(rounds), i) == ws[i] && Weight(AfterAll(rounds), es[i].host) == 0.0
  {
    HistoryIsFair(rounds, es);
    FullPeriod(map[], es, ws, PicksOf(rounds), i);
  }
}
