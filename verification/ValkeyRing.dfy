/**
 The Valkey ring client: its table is filled in place, and an update compares the listed addresses
 with the known ones, creates, closes, and rebuilds.
 */
module ValkeyRing {
  import opened Options
  import opened SortedStrings
  import opened ShardTable
  import opened ShardRuns

  // ---------- List operations ----------

  // The items of the first list that are not in the second, in order and with repetitions.
  method Difference(a: seq<string>, b: seq<string>) returns (r: seq<string>)
    ensures r == Without(a, Elements(b))
  {
    var known: set<string> := {};
    for i := 0 to |b|
      invariant known == Elements(b[..i])
    {
      assert b[..i + 1] == b[..i] + [b[i]];
      known := known + {b[i]};
    }
    assert b[..|b|] == b;
    r := [];
    for i := 0 to |a|
      invariant r == Without(a[..i], known)
    {
      assert a[..i + 1][..i] == a[..i];
      if a[i] !in known { r := r + [a[i]]; }
    }
    assert a[..|a|] == a;
  }

  // The items the lists have in common, each once.
  method Intersect(a: seq<string>, b: seq<string>) returns (r: seq<string>)
    ensures NoRepeats(r) && Elements(r) == Elements(a) * Elements(b)
  {
    var left: set<string> := {};
    for i := 0 to |a|
      invariant left == Elements(a[..i])
    {
      assert a[..i + 1] == a[..i] + [a[i]];
      left := left + {a[i]};
    }
    assert a[..|a|] == a;
    r := [];
    for i := 0 to |b|
      invariant NoRepeats(r) && Elements(r) == Elements(a) * Elements(b[..i])
      invariant left == Elements(a) - Elements(r)
    {
      assert b[..i + 1] == b[..i] + [b[i]];
      assert Elements(b[..i + 1]) == Elements(b[..i]) + {b[i]};
      if b[i] in left {
        assert b[i] !in Elements(r);
        assert Elements(r + [b[i]]) == Elements(r) + {b[i]};
        r := r + [b[i]];
        left := left - {b[i]};
      }
    }
    assert b[..|b|] == b;
  }

  // The keys of a map, in whatever order they come.
  method KeyList(m: map<string, Client>) returns (keys: seq<string>)
    ensures NoRepeats(keys) && Elements(keys) == m.Keys
  {
    keys := [];
    var left := m.Keys;
    while left != {}
      invariant left <= m.Keys && NoRepeats(keys) && Elements(keys) == m.Keys - left
      decreases |left|
    {
      var k :| k in left;
      assert k !in Elements(keys);
      assert Elements(keys + [k]) == Elements(keys) + {k};
      keys := keys + [k];
      left := left - {k};
    }
  }

  // Comparing lengths with the intersection tells whether the list names exactly the known addresses.
  lemma EarlyReturn(r: Ring, addr: seq<string>, current: seq<string>, common: seq<string>)
    requires NoRepeats(current) && Elements(current) == r.clients.Keys
    requires NoRepeats(common) && Elements(common) == Elements(addr) * Elements(current)
    ensures |addr| == |common| && |current| == |common| <==> Unchanged(r, addr)
  {
    ElementCount(addr);
    ElementCount(current);
    ElementCount(common);
    SubsetSize(Elements(common), Elements(addr));
    SubsetSize(Elements(common), Elements(current));
  }

  lemma {:induction false} SubsetSize(a: set<string>, b: set<string>)
    requires a <= b
    ensures |a| <= |b| && (|a| == |b| <==> a == b)
  {
    assert b == a + (b - a);
    assert |b| == |a| + |b - a|;
    assert a != b ==> exists x :: x in b - a;
  }

  lemma {:induction false} WithoutCommon(addr: seq<string>, other: set<string>, known: set<string>)
    requires Elements(addr) <= other
    ensures Without(addr, other * known) == Without(addr, known)
    decreases |addr|
  {
    if addr != [] {
      var n := |addr| - 1;
      assert addr[n] in Elements(addr);
      assert forall x :: x in Elements(addr[..n]) ==> x in addr;
      WithoutCommon(addr[..n], other, known);
    }
  }

  // ---------- The ring client ----------

  lemma {:induction false} AddClientsStops(r: Ring, addr: seq<string>, fails: set<string>, k: nat)
    requires k <= |addr| && !AddClients(r, addr[..k], fails).1
    ensures AddClients(r, addr, fails) == AddClients(r, addr[..k], fails)
    decreases |addr|
  {
    if k == |addr| {
      assert addr[..k] == addr;
    } else {
      var n := |addr| - 1;
      assert addr[..n][..k] == addr[..k];
      AddClientsStops(r, addr[..n], fails, k);
    }
  }

  // Closing one more address.
  lemma RemoveOneMore(r: Ring, gone: set<string>, a: string)
    ensures RemoveClients(r, gone + {a}) == RemoveClients(RemoveClients(r, gone), {a})
  {
    var s := RemoveClients(r, gone);
    assert r.clients - (gone + {a}) == s.clients - {a};
    var all := set x | x in gone + {a} && x in r.clients :: r.clients[x];
    var first := set x | x in gone && x in r.clients :: r.clients[x];
    var last := set x | x in {a} && x in s.clients :: s.clients[x];
    forall c | c in all ensures c in first + last {
      var x :| x in gone + {a} && x in r.clients && r.clients[x] == c;
      assert x in gone || x in s.clients;
    }
    assert all == first + last;
  }

  // The running index moves on at every multiple of the shard size.
  method NextClient(i: nat, shardSize: nat, cur: int) returns (next: nat)
    requires shardSize >= 1 && cur == if i == 0 then -1 else (i - 1) / shardSize
    ensures next == i / shardSize
  {
    if i > 0 { SlotStep(i, shardSize); }
    next := if i % shardSize == 0 then cur + 1 else cur;
  }

  lemma SetAddrTraced(r: Ring, tr: Trace, u: Update)
    requires Sound(r) && Tracks(r, tr)
    ensures
      var s := ShardTable.SetAddr(r, u.addr, u.fails).0;
      && Sound(s) && Tracks(s, Follow(tr, u)) && (Canonical(s) <==> UpToDate(Follow(tr, u)))
      && Lost(s) == Lost(r) + Repeats(Creates(tr.known, u))
  {
    SetAddrKeepsSound(r, u.addr, u.fails);
    SetAddrFollows(r, tr, u);
    CanonicalExactly(ShardTable.SetAddr(r, u.addr, u.fails).0, Follow(tr, u));
    UpdateLoses(r, u);
  }

  class RingClient {
    const shards: array<Option<Client>>
    var activeShards: nat
    var clientMap: map<string, Client>
    var created: nat
    var closed: set<Client>
    ghost var trace: Trace

    ghost predicate Sized()
      reads this
    {
      shards.Length == RING_SIZE
    }

    ghost function State(): Ring
      reads this, shards
    {
      Ring(shards[..], activeShards, clientMap, created, closed)
    }

    // No slot leads to a closed client, and the trace tells what the table was built from.
    ghost predicate Valid()
      reads this, shards
    {
      Sized() && Sound(State()) && Tracks(State(), trace)
    }

    constructor ()
      ensures Valid() && State() == NoClients() && fresh(shards)
    {
      shards := new Option<Client>[RING_SIZE](_ => None);
      activeShards, clientMap, created, closed := 0, map[], 0, {};
      trace := Trace({}, []);
      new;
      assert shards[..] == NoClients().table;
    }

    // Creates a client per address; stops at the first that cannot be created.
    method CreateClients(addr: seq<string>, fails: set<string>) returns (ok: bool)
      requires Sized()
      modifies this`clientMap, this`created
      ensures Sized() && (State(), ok) == AddClients(old(State()), addr, fails)
    {
      for i := 0 to |addr|
        invariant (State(), true) == AddClients(old(State()), addr[..i], fails)
      {
        assert addr[..i + 1][..i] == addr[..i];
        if addr[i] in fails {
          AddClientsStops(old(State()), addr, fails, i + 1);
          return false;
        }
        clientMap := clientMap[addr[i] := Client(addr[i], created)];
        created := created + 1;
      }
      assert addr[..|addr|] == addr;
      return true;
    }

    // The clients of a list of addresses; an unknown one has none.
    method ClientsOf(sorted: seq<string>) returns (clients: seq<Option<Client>>)
      ensures |clients| == |sorted|
      ensures forall k :: 0 <= k < |sorted| ==>
        clients[k] == if sorted[k] in clientMap then Some(clientMap[sorted[k]]) else None
    {
      clients := [];
      for i := 0 to |sorted|
        invariant |clients| == i
        invariant forall k :: 0 <= k < i ==>
          clients[k] == if sorted[k] in clientMap then Some(clientMap[sorted[k]]) else None
      {
        clients := clients + [if sorted[i] in clientMap then Some(clientMap[sorted[i]]) else None];
      }
    }

    // Fills the table slot by slot, moving to the next client at every multiple of the shard size.
    method FillTable(sorted: seq<string>, clients: seq<Option<Client>>)
      requires Sized() && sorted != [] && |clients| == |sorted|
      requires forall k :: 0 <= k < |sorted| ==>
        clients[k] == if sorted[k] in clientMap then Some(clientMap[sorted[k]]) else None
      modifies this`activeShards, shards
      ensures forall j :: 0 <= j < RING_SIZE ==> shards[j] == SlotClient(sorted, clientMap, j)
      ensures activeShards == ActiveShards(|sorted|)
    {
      var shardSize := ComputeShardSize(|sorted|);
      var cur := -1;
      for i := 0 to RING_SIZE
        invariant cur == if i == 0 then -1 else (i - 1) / shardSize
        invariant forall j :: 0 <= j < i ==> shards[j] == SlotClient(sorted, clientMap, j)
      {
        cur := NextClient(i, shardSize, cur);
        SlotIndexInRange(|sorted|, i);
        shards[i] := clients[cur];
      }
      activeShards := cur + 1;
    }

    method UpdateShards(addr: seq<string>)
      requires Sized()
      modifies this`activeShards, shards
      ensures Sized() && State() == Rebuilt(old(State()), addr)
    {
      if |addr| == 0 { return; }
      SortKeepsElements(addr);
      var sorted := Sort(addr);
      var clients := ClientsOf(sorted);
      FillTable(sorted, clients);
      assert shards[..] == TableOf(sorted, clientMap);
    }

    // Closes and forgets the clients of the listed addresses.
    method CloseClients(addr: seq<string>)
      requires Sized()
      modifies this`clientMap, this`closed
      ensures Sized() && State() == RemoveClients(old(State()), Elements(addr))
    {
      assert RemoveClients(State(), {}) == State();
      for i := 0 to |addr|
        invariant State() == RemoveClients(old(State()), Elements(addr[..i]))
      {
        assert addr[..i + 1] == addr[..i] + [addr[i]];
        assert Elements(addr[..i + 1]) == Elements(addr[..i]) + {addr[i]};
        RemoveOneMore(old(State()), Elements(addr[..i]), addr[i]);
        CloseClient(addr[i]);
      }
      assert addr[..|addr|] == addr;
    }

    method CloseClient(a: string)
      requires Sized()
      modifies this`clientMap, this`closed
      ensures Sized() && State() == RemoveClients(old(State()), {a})
    {
      ghost var r := State();
      if a in clientMap {
        closed := closed + {clientMap[a]};
      }
      clientMap := clientMap - {a};
      assert closed == r.closed + set x | x in {a} && x in r.clients :: r.clients[x];
    }

    // A new ring over a list of addresses; it is given up when a client cannot be created.
    method Start(addr: seq<string>, fails: set<string>) returns (ok: bool)
      requires Valid() && State() == NoClients()
      modifies this, shards
      ensures Valid() && trace == StartTrace(addr, fails)
      ensures (State(), ok) == ShardTable.Start(addr, fails)
    {
      StartTracks(addr, fails);
      trace := StartTrace(addr, fails);
      ok := CreateClients(addr, fails);
      if ok { UpdateShards(addr); }
    }

    method SetAddr(addr: seq<string>, fails: set<string>) returns (ok: bool)
      requires Valid()
      modifies this, shards
      ensures Valid() && trace == Follow(old(trace), Update(addr, fails))
      ensures Canonical(State()) <==> UpToDate(trace)
      ensures Lost(State()) == old(Lost(State())) + Repeats(Creates(old(trace).known, Update(addr, fails)))
      ensures (State(), ok) == ShardTable.SetAddr(old(State()), addr, fails)
    {
      SetAddrTraced(State(), trace, Update(addr, fails));
      trace := Follow(trace, Update(addr, fails));
      ok := Reconcile(addr, fails);
    }

    // The update itself; the trace is not touched.
    method Reconcile(addr: seq<string>, fails: set<string>) returns (ok: bool)
      requires Sized() && Filed(State())
      modifies this`clientMap, this`created, this`closed, this`activeShards, shards
      ensures Sized() && (State(), ok) == ShardTable.SetAddr(old(State()), addr, fails)
    {
      ghost var r := State();
      if |addr| == 0 { return true; }
      var current := KeyList(clientMap);
      var common := Intersect(addr, current);
      EarlyReturn(r, addr, current, common);
      if |addr| == |common| && |current| == |common| { return true; }
      var newAddr := Difference(addr, common);
      var oldAddr := Difference(current, common);
      WithoutCommon(addr, Elements(addr), r.clients.Keys);
      WithoutElements(current, Elements(common));
      assert Elements(oldAddr) == r.clients.Keys - Elements(addr);
      AddedClients(r, addr, fails);
      ok := CreateClients(newAddr, fails);
      if !ok { return; }
      CloseClients(oldAddr);
      KeptFiled(r, addr, fails);
      var curAddr := KeyList(clientMap);
      OrderDoesNotMatter(State(), curAddr, ListOf(clientMap.Keys));
      UpdateShards(curAddr);
    }
  }
}
