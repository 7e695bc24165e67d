/** When a ring that was started with repeated addresses has the table of its set of addresses. */
module ShardStart {
  import opened SortedStrings
  import opened ShardTable

  // ---------- Sorted lists without their repetitions ----------

  function Dedup(a: seq<string>): seq<string> {
    if a == [] then []
    else
      var n := |a| - 1;
      Dedup(a[..n]) + if a[n] in a[..n] then [] else [a[n]]
  }

  lemma {:induction false} DedupPrefix(a: seq<string>, k: nat)
    requires k <= |a|
    ensures Dedup(a[..k]) <= Dedup(a)
  {
    if k == |a| {
      assert a[..k] == a;
    } else {
      assert a[..|a| - 1][..k] == a[..k];
      DedupPrefix(a[..|a| - 1], k);
    }
  }

  lemma {:induction false} DedupSame(a: seq<string>)
    requires NoRepeats(a)
    ensures Dedup(a) == a
  {
    if a != [] {
      var n := |a| - 1;
      DedupSame(a[..n]);
      assert a == a[..n] + [a[n]];
    }
  }

  lemma {:induction false} DedupIs(a: seq<string>)
    ensures Elements(Dedup(a)) == Elements(a) && NoRepeats(Dedup(a))
    ensures Ascending(a) ==> Ascending(Dedup(a))
  {
    if a != [] {
      var n := |a| - 1;
      DedupIs(a[..n]);
      var d := Dedup(a[..n]);
      assert a == a[..n] + [a[n]];
      assert Elements(a) == Elements(a[..n]) + {a[n]};
      if a[n] in a[..n] {
        assert Dedup(a) == d + [] == d;
        assert Elements(a) == Elements(a[..n]);
      } else {
        AppendNew(d, a[n]);
        if Ascending(a) { AppendLast(d, a); }
      }
    }
  }

  lemma AppendNew(d: seq<string>, x: string)
    requires NoRepeats(d) && x !in Elements(d)
    ensures NoRepeats(d + [x]) && Elements(d + [x]) == Elements(d) + {x}
  {
    assert forall i :: 0 <= i < |d| ==> d[i] in Elements(d);
  }

  lemma AppendLast(d: seq<string>, a: seq<string>)
    requires a != [] && Ascending(a) && Ascending(d) && Elements(d) == Elements(a[..|a| - 1])
    ensures Ascending(d + [a[|a| - 1]])
  {
    forall i | 0 <= i < |d| ensures Le(d[i], a[|a| - 1]) {
      assert d[i] in Elements(d);
    }
  }

  // The sorted list of a set is the sorted list of any enumeration of it, without repetitions.
  lemma SortedSet(addr: seq<string>, order: seq<string>)
    requires NoRepeats(order) && Elements(order) == Elements(addr)
    ensures Sort(order) == Dedup(Sort(addr))
  {
    SortKeepsElements(order);
    SortKeepsElements(addr);
    DedupIs(Sort(addr));
    AscendingIsUnique(Sort(order), Dedup(Sort(addr)));
  }

  // ---------- Shard sizes ----------

  lemma Monotone(x: nat, k: nat, n: nat)
    requires k <= n
    ensures x * k <= x * n
  {
  }

  lemma Less(x: int, k: int)
    ensures (x - 1) * k == x * k - k
  {
  }

  lemma DividesUp(r: nat, n: nat, s: nat, k: nat)
    requires 1 <= k <= n && s >= 1 && (s - 1) * n < r <= s * k
    ensures (r + k - 1) / k == s
  {
    Monotone(s - 1, k, n);
    Less(s, k);
    QuotientIs(r + k - 1, k, s);
  }

  lemma ActiveCovers(n: nat)
    requires n >= 1
    ensures 1 <= ActiveShards(n) <= n && RING_SIZE <= ComputeShardSize(n) * ActiveShards(n)
  {
    ActiveShardsAre(n);
    var s, k := ComputeShardSize(n), ActiveShards(n);
    assert RING_SIZE - 1 == (k - 1) * s + (RING_SIZE - 1) % s;
    Less(k, s);
  }

  // The shard size is determined by the number of active shards.
  lemma SizeOfActive(n: nat)
    requires n >= 1
    ensures ActiveShards(n) >= 1 && ComputeShardSize(ActiveShards(n)) == ComputeShardSize(n)
  {
    ActiveCovers(n);
    SmallerSizeIsTooSmall(n);
    DividesUp(RING_SIZE, n, ComputeShardSize(n), ActiveShards(n));
  }

  lemma SmallerSizeIsTooSmall(n: nat)
    requires n >= 1
    ensures (ComputeShardSize(n) - 1) * n < RING_SIZE
  {
    var a := RING_SIZE + n - 1;
    assert a == (a / n) * n + a % n;
    assert (a / n - 1) * n == (a / n) * n - n;
  }

  // ---------- Tables ----------

  // Two lists agree on the addresses that are in use.
  ghost predicate SameLead(a: seq<string>, b: seq<string>)
    requires a != [] && b != []
  {
    ActiveCovers(|a|);
    ActiveCovers(|b|);
    && ComputeShardSize(|a|) == ComputeShardSize(|b|)
    && a[..ActiveShards(|a|)] == b[..ActiveShards(|b|)]
  }

  lemma SlotInLead(n: nat, i: nat)
    requires n >= 1 && i < RING_SIZE
    ensures i / ComputeShardSize(n) < ActiveShards(n)
  {
    var s := ComputeShardSize(n);
    var q := (RING_SIZE - 1) / s;
    OwnedSlots(n, i, i / s);
    OwnedSlots(n, RING_SIZE - 1, q);
    MultipleIsFar(i / s - q, s);
    assert (i / s - q) * s == (i / s) * s - q * s;
  }

  lemma FirstSlot(n: nat, j: nat)
    requires n >= 1 && j < ActiveShards(n)
    ensures j * ComputeShardSize(n) < RING_SIZE && (j * ComputeShardSize(n)) / ComputeShardSize(n) == j
  {
    var s := ComputeShardSize(n);
    var q := (RING_SIZE - 1) / s;
    OwnedSlots(n, RING_SIZE - 1, q);
    Monotone(s, j, q);
    assert s * j == j * s && s * q == q * s;
    QuotientIs(j * s, s, j);
  }

  lemma SameSlot(clients: map<string, Client>, a: seq<string>, b: seq<string>, i: nat)
    requires a != [] && b != [] && SameLead(a, b) && i < RING_SIZE
    ensures SlotClient(a, clients, i) == SlotClient(b, clients, i)
  {
    SlotInLead(|a|, i);
    ActiveCovers(|a|);
    ActiveCovers(|b|);
    SameAt(a, b, ActiveShards(|a|), i / ComputeShardSize(|a|));
  }

  lemma SameAt(a: seq<string>, b: seq<string>, k: nat, j: nat)
    requires j < k <= |a| && k <= |b| && a[..k] == b[..k]
    ensures a[j] == b[j]
  {
    assert a[j] == a[..k][j] && b[j] == b[..k][j];
  }

  lemma SameLeadSameTable(r: Ring, a: seq<string>, b: seq<string>)
    requires a != [] && b != [] && SameLead(a, b)
    ensures TableOf(a, r.clients) == TableOf(b, r.clients) && ActiveShards(|a|) == ActiveShards(|b|)
  {
    var t, u := TableOf(a, r.clients), TableOf(b, r.clients);
    forall i | 0 <= i < RING_SIZE ensures t[i] == u[i] {
      SameSlot(r.clients, a, b, i);
    }
  }

  lemma SlotAddress(r: Ring, a: seq<string>, j: nat)
    requires Filed(r) && a != [] && Elements(a) <= r.clients.Keys && j < ActiveShards(|a|)
    ensures j < |a| && j * ComputeShardSize(|a|) < RING_SIZE
    ensures var c := SlotClient(a, r.clients, j * ComputeShardSize(|a|)); c.Some? && c.value.address == a[j]
  {
    FirstSlot(|a|, j);
    SlotIsFilled(a, r.clients, j * ComputeShardSize(|a|));
  }

  lemma SameTableSameLead(r: Ring, a: seq<string>, b: seq<string>)
    requires Filed(r) && a != [] && b != [] && Elements(a) <= r.clients.Keys && Elements(b) <= r.clients.Keys
    requires TableOf(a, r.clients) == TableOf(b, r.clients) && ActiveShards(|a|) == ActiveShards(|b|)
    ensures SameLead(a, b)
  {
    SizeOfActive(|a|);
    SizeOfActive(|b|);
    ActiveCovers(|a|);
    ActiveCovers(|b|);
    forall j | 0 <= j < ActiveShards(|a|) ensures a[j] == b[j] {
      SlotAddress(r, a, j);
      SlotAddress(r, b, j);
      var i := j * ComputeShardSize(|a|);
      assert TableOf(a, r.clients)[i] == TableOf(b, r.clients)[i];
    }
  }

  // ---------- Starts ----------

  // The sorted addresses in use.
  function Lead(addr: seq<string>): seq<string>
    requires addr != []
  {
    SortKeepsElements(addr);
    ActiveCovers(|addr|);
    Sort(addr)[..ActiveShards(|addr|)]
  }

  // The shard size is that of the number of different addresses, and no address in use is repeated.
  ghost predicate RepeatsDoNotMatter(addr: seq<string>)
    requires addr != []
  {
    ComputeShardSize(|addr|) == ComputeShardSize(|Elements(addr)|) && NoRepeats(Lead(addr))
  }

  lemma LeadOfDedup(a: seq<string>, k: nat)
    requires k <= |a| && NoRepeats(a[..k])
    ensures a[..k] <= Dedup(a)
  {
    DedupSame(a[..k]);
    DedupPrefix(a, k);
  }

  lemma DedupLead(a: seq<string>, k: nat)
    requires k <= |a| && a[..k] <= Dedup(a)
    ensures NoRepeats(a[..k])
  {
    DedupIs(a);
    var d := Dedup(a);
    forall i, j | 0 <= i < j < k ensures a[..k][i] != a[..k][j] {
      assert a[..k][i] == d[i] && a[..k][j] == d[j];
    }
  }

  lemma LeadOfSet(addr: seq<string>, order: seq<string>)
    requires addr != [] && order != [] && NoRepeats(order) && Elements(order) == Elements(addr)
    ensures Sort(addr) != [] && Sort(order) != []
    ensures SameLead(Sort(addr), Sort(order)) <==> RepeatsDoNotMatter(addr)
  {
    var a, b := Sort(addr), Sort(order);
    SortKeepsElements(addr);
    SortKeepsElements(order);
    SortedSet(addr, order);
    ElementCount(order);
    SameLeadIsPrefix(a, b);
    ActiveCovers(|a|);
    if NoRepeats(Lead(addr)) { LeadOfDedup(a, ActiveShards(|a|)); }
    if Lead(addr) <= b { DedupLead(a, ActiveShards(|a|)); }
  }

  lemma SameLeadIsPrefix(a: seq<string>, b: seq<string>)
    requires a != [] && b != []
    ensures ActiveShards(|a|) <= |a|
    ensures SameLead(a, b) <==> ComputeShardSize(|a|) == ComputeShardSize(|b|) && a[..ActiveShards(|a|)] <= b
  {
    ActiveCovers(|a|);
    ActiveCovers(|b|);
    var k := ActiveShards(|a|);
    if a[..k] == b[..ActiveShards(|b|)] { assert a[..k] <= b; }
  }

  // A start gives the table of its set of addresses exactly if its repetitions do not matter.
  lemma StartIsCanonicalExactly(addr: seq<string>, fails: set<string>)
    requires addr != [] && Start(addr, fails).1
    ensures Canonical(Start(addr, fails).0) <==> RepeatsDoNotMatter(addr)
  {
    AddClientsGrows(NoClients(), {}, addr, fails);
    var r := AddClients(NoClients(), addr, fails).0;
    var order := ListOf(r.clients.Keys);
    assert addr[0] in Elements(addr);
    ListedIsEmpty(r.clients.Keys);
    LeadOfSet(addr, order);
    SortKeepsElements(addr);
    SortKeepsElements(order);
    if SameLead(Sort(addr), Sort(order)) {
      SameLeadSameTable(r, Sort(addr), Sort(order));
    }
    if Canonical(Rebuilt(r, addr)) {
      SameTableSameLead(r, Sort(addr), Sort(order));
    }
  }
}
