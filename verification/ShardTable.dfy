/**
 The shard table of the Valkey ring client: a fixed number of slots rebuilt from the set of shard
 addresses. Creating a client can fail; which addresses fail in a call is a parameter.
 */
module ShardTable {
  import opened Options
  import opened SortedStrings

  const RING_SIZE: nat := 10000

  // A connection to a shard, numbered by creation.
  datatype Client = Client(address: string, id: nat)

  // ---------- Slots ----------

  // The ceiling of RING_SIZE / n.
  function ComputeShardSize(n: nat): (size: nat)
    ensures size >= 1
  {
    if n == 0 then RING_SIZE else (RING_SIZE + n - 1) / n
  }

  lemma MultipleIsFar(k: int, d: int)
    requires d > 0
    ensures k >= 1 ==> k * d >= d
    ensures k <= -1 ==> k * d <= -d
  {
  }

  lemma QuotientIs(a: int, d: int, q: int)
    requires d > 0 && q * d <= a < q * d + d
    ensures a / d == q
  {
    var r := a - (a / d) * d;
    assert 0 <= r < d;
    var k := a / d - q;
    assert k * d == (a - r) - q * d;
    MultipleIsFar(k, d);
  }

  // n shards of this size cover the ring.
  lemma ShardsCoverRing(n: nat)
    requires n >= 1
    ensures ComputeShardSize(n) * n >= RING_SIZE
  {
    var a := RING_SIZE + n - 1;
    assert a == (a / n) * n + a % n;
  }

  // The list index a slot is given never runs past the list.
  lemma SlotIndexInRange(n: nat, i: nat)
    requires n >= 1 && i < RING_SIZE
    ensures i / ComputeShardSize(n) < n
  {
    var size := ComputeShardSize(n);
    ShardsCoverRing(n);
    var q := i / size;
    assert q * size <= i;
    assert (q - n) * size == q * size - n * size;
    MultipleIsFar(q - n + 1, size);
    assert (q - n + 1) * size == (q - n) * size + size;
  }

  // From one slot to the next the list index grows exactly at multiples of the shard size.
  lemma SlotStep(i: nat, size: nat)
    requires size >= 1 && i >= 1
    ensures i / size == (i - 1) / size + if i % size == 0 then 1 else 0
  {
    var q := i / size;
    assert i == q * size + i % size;
    if i % size == 0 {
      assert (q - 1) * size == q * size - size;
      QuotientIs(i - 1, size, q - 1);
    } else {
      QuotientIs(i - 1, size, q);
    }
  }

  // The number of shards in use, for n addresses.
  function ActiveShards(n: nat): nat
    requires n >= 1
  {
    (RING_SIZE - 1) / ComputeShardSize(n) + 1
  }

  // It is the ceiling of RING_SIZE over the shard size, and never more than the addresses.
  lemma ActiveShardsAre(n: nat)
    requires n >= 1
    ensures ActiveShards(n) <= n
    ensures ActiveShards(n) == (RING_SIZE + ComputeShardSize(n) - 1) / ComputeShardSize(n)
  {
    SlotIndexInRange(n, RING_SIZE - 1);
    var size := ComputeShardSize(n);
    var q := (RING_SIZE - 1) / size;
    assert RING_SIZE - 1 == q * size + (RING_SIZE - 1) % size;
    assert (q + 1) * size == q * size + size;
    QuotientIs(RING_SIZE + size - 1, size, q + 1);
  }

  // Address number j of the list owns exactly the slots from j * size up to (j + 1) * size.
  lemma OwnedSlots(n: nat, i: nat, j: nat)
    requires n >= 1 && i < RING_SIZE
    ensures var size := ComputeShardSize(n); i / size == j <==> j * size <= i < j * size + size
  {
    var size := ComputeShardSize(n);
    assert i == (i / size) * size + i % size;
    if j * size <= i < j * size + size { QuotientIs(i, size, j); }
  }

  // ---------- The ring as a value ----------

  datatype Ring = Ring(
    table: seq<Option<Client>>,     // one client per slot
    active: nat,
    clients: map<string, Client>,   // by address
    created: nat,                   // clients created so far
    closed: set<Client>)

  function SlotClient(sorted: seq<string>, clients: map<string, Client>, i: nat): Option<Client>
    requires sorted != [] && i < RING_SIZE
  {
    SlotIndexInRange(|sorted|, i);
    var a := sorted[i / ComputeShardSize(|sorted|)];
    if a in clients then Some(clients[a]) else None
  }

  // The table of a list of addresses: slot i belongs to address i / shardSize of the list.
  function TableOf(sorted: seq<string>, clients: map<string, Client>): (t: seq<Option<Client>>)
    requires sorted != []
    ensures |t| == RING_SIZE && forall i :: 0 <= i < RING_SIZE ==> t[i] == SlotClient(sorted, clients, i)
  {
    seq(RING_SIZE, i requires 0 <= i < RING_SIZE => SlotClient(sorted, clients, i))
  }

  // The ring with its table rebuilt from a list of addresses.
  function Rebuilt(r: Ring, addr: seq<string>): Ring {
    if addr == [] then r
    else
      SortKeepsElements(addr);
      r.(table := TableOf(Sort(addr), r.clients), active := ActiveShards(|addr|))
  }

  function WithClient(r: Ring, a: string): Ring {
    r.(clients := r.clients[a := Client(a, r.created)], created := r.created + 1)
  }

  // Creates clients in turn until one fails; the flag says that none did.
  function AddClients(r: Ring, addr: seq<string>, fails: set<string>): (Ring, bool)
    decreases |addr|
  {
    if addr == [] then (r, true)
    else
      var n := |addr| - 1;
      var (s, ok) := AddClients(r, addr[..n], fails);
      if !ok || addr[n] in fails then (s, false) else (WithClient(s, addr[n]), true)
  }

  // Closes and forgets the clients of the given addresses.
  function RemoveClients(r: Ring, gone: set<string>): Ring {
    r.(clients := r.clients - gone,
       closed := r.closed + set a | a in gone && a in r.clients :: r.clients[a])
  }

  // The addresses of a list that are not in a set, in order.
  function Without(addr: seq<string>, known: set<string>): seq<string> {
    if addr == [] then []
    else
      var n := |addr| - 1;
      Without(addr[..n], known) + if addr[n] in known then [] else [addr[n]]
  }

  // A list of the elements of a set, in some order.
  ghost function ListOf(keys: set<string>): (s: seq<string>)
    ensures NoRepeats(s) && Elements(s) == keys
  {
    if keys == {} then []
    else
      var x :| x in keys;
      var s := ListOf(keys - {x});
      assert Elements([x] + s) == {x} + Elements(s);
      [x] + s
  }

  // The list names exactly the known addresses, so the update returns early.
  ghost predicate Unchanged(r: Ring, addr: seq<string>) {
    NoRepeats(addr) && Elements(addr) == r.clients.Keys
  }

  // An update of the addresses: the new ring, and whether it succeeded.
  ghost function SetAddr(r: Ring, addr: seq<string>, fails: set<string>): (Ring, bool) {
    if addr == [] || Unchanged(r, addr) then (r, true)
    else
      var (added, ok) := AddClients(r, Without(addr, r.clients.Keys), fails);
      if !ok then (added, false)
      else
        var kept := RemoveClients(added, r.clients.Keys - Elements(addr));
        (Rebuilt(kept, ListOf(kept.clients.Keys)), true)
  }

  function NoClients(): Ring {
    Ring(seq(RING_SIZE, _ => None), 0, map[], 0, {})
  }

  // Starting a ring with a list of addresses.
  function Start(addr: seq<string>, fails: set<string>): (Ring, bool) {
    var (r, ok) := AddClients(NoClients(), addr, fails);
    if ok then (Rebuilt(r, addr), true) else (r, false)
  }

  // The order in which a set of addresses is listed does not matter.
  lemma OrderDoesNotMatter(r: Ring, a: seq<string>, b: seq<string>)
    requires NoRepeats(a) && NoRepeats(b) && Elements(a) == Elements(b)
    ensures Rebuilt(r, a) == Rebuilt(r, b)
  {
    SortKeepsElements(a);
    SortKeepsElements(b);
    AscendingIsUnique(Sort(a), Sort(b));
    ElementCount(a);
    ElementCount(b);
  }

  // ---------- What every run keeps ----------

  // Clients are filed under their own address, and none of them is closed.
  ghost predicate Filed(r: Ring) {
    && (forall a :: a in r.clients ==> r.clients[a].address == a && r.clients[a].id < r.created)
    && (forall c :: c in r.closed ==> c.id < r.created)
    && (forall a :: a in r.clients ==> r.clients[a] !in r.closed)
  }

  // Every filled slot holds the client filed under its address.
  ghost predicate Serving(r: Ring) {
    && |r.table| == RING_SIZE
    && forall i :: 0 <= i < RING_SIZE && r.table[i].Some? ==>
         var c := r.table[i].value; c.address in r.clients && r.clients[c.address] == c
  }

  ghost predicate Sound(r: Ring) {
    Filed(r) && Serving(r)
  }

  // The clients of the known addresses survive, those of the new ones are new.
  ghost predicate Grown(r: Ring, known: set<string>, addr: seq<string>, s: Ring, ok: bool) {
    && s.table == r.table && s.active == r.active && s.closed == r.closed
    && r.clients.Keys <= s.clients.Keys <= r.clients.Keys + Elements(addr)
    && (forall a :: a in known && a in r.clients ==> s.clients[a] == r.clients[a])
    && (ok ==> s.clients.Keys == r.clients.Keys + Elements(addr) && s.created == r.created + |addr|)
    && r.created <= s.created
  }

  lemma {:induction false} AddClientsGrows(r: Ring, known: set<string>, addr: seq<string>, fails: set<string>)
    requires Filed(r) && forall i :: 0 <= i < |addr| ==> addr[i] !in known
    ensures var (s, ok) := AddClients(r, addr, fails); Filed(s) && Grown(r, known, addr, s, ok)
    ensures AddClients(r, addr, fails).1 <==> forall i :: 0 <= i < |addr| ==> addr[i] !in fails
    decreases |addr|
  {
    if addr != [] {
      var n := |addr| - 1;
      AddClientsGrows(r, known, addr[..n], fails);
      assert addr == addr[..n] + [addr[n]];
      assert Elements(addr) == Elements(addr[..n]) + {addr[n]};
    }
  }

  lemma {:induction false} WithoutElements(addr: seq<string>, known: set<string>)
    ensures Elements(Without(addr, known)) == Elements(addr) - known
    decreases |addr|
  {
    if addr != [] {
      var n := |addr| - 1;
      WithoutElements(addr[..n], known);
      assert Elements(addr) == Elements(addr[..n]) + {addr[n]} by { assert addr == addr[..n] + [addr[n]]; }
      var w := Without(addr[..n], known);
      if addr[n] in known {
        assert Without(addr, known) == w + [] == w;
        assert Elements(addr) - known == Elements(addr[..n]) - known;
      } else {
        assert Elements(w + [addr[n]]) == Elements(w) + {addr[n]};
        assert Elements(addr) - known == Elements(addr[..n]) - known + {addr[n]};
      }
    }
  }

  // The slot of a listed address holds its client.
  lemma SlotIsFilled(sorted: seq<string>, clients: map<string, Client>, i: nat)
    requires sorted != [] && i < RING_SIZE && Elements(sorted) <= clients.Keys
    ensures i / ComputeShardSize(|sorted|) < |sorted|
    ensures var a := sorted[i / ComputeShardSize(|sorted|)];
            a in clients && SlotClient(sorted, clients, i) == Some(clients[a])
  {
    SlotIndexInRange(|sorted|, i);
    assert sorted[i / ComputeShardSize(|sorted|)] in Elements(sorted);
  }

  // A table of addresses that are all known serves, and has no empty slot.
  lemma TableServes(r: Ring, sorted: seq<string>)
    requires Filed(r) && sorted != [] && Elements(sorted) <= r.clients.Keys
    requires r.table == TableOf(sorted, r.clients)
    ensures Serving(r) && forall i :: 0 <= i < RING_SIZE ==> r.table[i].Some?
  {
    forall i | 0 <= i < RING_SIZE
      ensures r.table[i].Some?
      ensures var c := r.table[i].value; c.address in r.clients && r.clients[c.address] == c
    {
      SlotIsFilled(sorted, r.clients, i);
      assert r.table[i] == SlotClient(sorted, r.clients, i);
    }
  }

  lemma RebuiltServes(r: Ring, addr: seq<string>)
    requires Filed(r) && addr != [] && Elements(addr) <= r.clients.Keys
    ensures Sound(Rebuilt(r, addr))
    ensures forall i :: 0 <= i < RING_SIZE ==> Rebuilt(r, addr).table[i].Some?
  {
    SortKeepsElements(addr);
    TableServes(Rebuilt(r, addr), Sort(addr));
  }

  // What is left after an update whose clients could all be created.
  ghost function Kept(r: Ring, addr: seq<string>, fails: set<string>): Ring {
    RemoveClients(AddClients(r, Without(addr, r.clients.Keys), fails).0, r.clients.Keys - Elements(addr))
  }

  lemma AddedClients(r: Ring, addr: seq<string>, fails: set<string>)
    requires Filed(r)
    ensures var (s, ok) := AddClients(r, Without(addr, r.clients.Keys), fails);
            Filed(s) && Grown(r, r.clients.Keys, Without(addr, r.clients.Keys), s, ok)
  {
    var added := Without(addr, r.clients.Keys);
    WithoutElements(addr, r.clients.Keys);
    forall i | 0 <= i < |added| ensures added[i] !in r.clients.Keys {
      assert added[i] in Elements(added);
    }
    AddClientsGrows(r, r.clients.Keys, added, fails);
  }

  // Exactly the listed addresses are left.
  lemma KeptAddresses(r: Ring, addr: seq<string>, fails: set<string>)
    requires Filed(r) && AddClients(r, Without(addr, r.clients.Keys), fails).1
    ensures Kept(r, addr, fails).clients.Keys == Elements(addr)
  {
    AddedClients(r, addr, fails);
    WithoutElements(addr, r.clients.Keys);
    var s := AddClients(r, Without(addr, r.clients.Keys), fails).0;
    var gone := r.clients.Keys - Elements(addr);
    assert (s.clients - gone).Keys == s.clients.Keys - gone;
  }

  lemma RemoveKeepsFiled(r: Ring, gone: set<string>)
    requires Filed(r)
    ensures Filed(RemoveClients(r, gone))
  {
    var s := RemoveClients(r, gone);
    forall a | a in s.clients ensures s.clients[a] !in s.closed {
      assert s.clients[a] == r.clients[a] && a !in gone;
    }
  }

  lemma KeptFiled(r: Ring, addr: seq<string>, fails: set<string>)
    requires Filed(r)
    ensures Filed(Kept(r, addr, fails))
  {
    AddedClients(r, addr, fails);
    RemoveKeepsFiled(AddClients(r, Without(addr, r.clients.Keys), fails).0, r.clients.Keys - Elements(addr));
  }

  lemma NoElements(s: seq<string>)
    ensures Elements(s) == {} <==> s == []
  {
    if s != [] { assert s[0] in Elements(s); }
  }

  lemma ListedIsEmpty(keys: set<string>)
    ensures ListOf(keys) == [] <==> keys == {}
  {
    if keys != {} {
      var x :| x in keys;
      assert x in Elements(ListOf(keys));
    }
  }

  // Every update, also a failing one, keeps the ring sound: no slot ever leads to a closed client.
  lemma SetAddrKeepsSound(r: Ring, addr: seq<string>, fails: set<string>)
    requires Sound(r)
    ensures Sound(SetAddr(r, addr, fails).0)
  {
    if addr != [] && !Unchanged(r, addr) {
      AddedClients(r, addr, fails);
      var (s, ok) := AddClients(r, Without(addr, r.clients.Keys), fails);
      if ok {
        var kept := Kept(r, addr, fails);
        KeptFiled(r, addr, fails);
        KeptAddresses(r, addr, fails);
        assert addr[0] in Elements(addr);
        ListedIsEmpty(kept.clients.Keys);
        RebuiltServes(kept, ListOf(kept.clients.Keys));
      }
    }
  }

  // ---------- The table is a function of the set of addresses ----------

  // The table is the one of the sorted known addresses.
  ghost predicate Canonical(r: Ring) {
    r.clients.Keys != {} ==>
      var order := ListOf(r.clients.Keys);
      && r.table == Rebuilt(r, order).table
      && r.active == Rebuilt(r, order).active
  }

  // A successful update leaves exactly the listed addresses, and a canonical table unless it
  // returned early with a table that was not.
  lemma SetAddrIsCanonical(r: Ring, addr: seq<string>, fails: set<string>)
    requires Filed(r) && addr != [] && SetAddr(r, addr, fails).1
    ensures SetAddr(r, addr, fails).0.clients.Keys == Elements(addr)
    ensures Canonical(SetAddr(r, addr, fails).0) <==> Canonical(r) || !Unchanged(r, addr)
  {
    if !Unchanged(r, addr) {
      KeptAddresses(r, addr, fails);
    }
  }

  lemma StartIsCanonical(addr: seq<string>, fails: set<string>)
    requires Start(addr, fails).1
    ensures Sound(Start(addr, fails).0) && Start(addr, fails).0.clients.Keys == Elements(addr)
    ensures NoRepeats(addr) ==> Canonical(Start(addr, fails).0)
  {
    AddClientsGrows(NoClients(), {}, addr, fails);
    var r := AddClients(NoClients(), addr, fails).0;
    assert r.clients.Keys == Elements(addr);
    if addr != [] {
      RebuiltServes(r, addr);
      if NoRepeats(addr) { OrderDoesNotMatter(r, addr, ListOf(r.clients.Keys)); }
    }
  }

  // Two rings with canonical tables over the same addresses send every slot to the same address,
  // whatever their histories.
  lemma SameAddressesSameShards(r: Ring, s: Ring, i: nat)
    requires Filed(r) && Canonical(r) && Filed(s) && Canonical(s)
    requires r.clients.Keys == s.clients.Keys != {} && i < RING_SIZE
    ensures |r.table| == |s.table| == RING_SIZE && r.active == s.active
    ensures r.table[i].Some? && s.table[i].Some? && r.table[i].value.address == s.table[i].value.address
  {
    var order := ListOf(r.clients.Keys);
    ListedIsEmpty(r.clients.Keys);
    SortKeepsElements(order);
    SlotIsFilled(Sort(order), r.clients, i);
    SlotIsFilled(Sort(order), s.clients, i);
  }

  // ---------- Connections ----------

  // A successful update keeps the connections of addresses that stay, and closes exactly those of
  // the addresses that go.
  lemma SetAddrKeepsConnections(r: Ring, addr: seq<string>, fails: set<string>)
    requires Filed(r) && addr != [] && SetAddr(r, addr, fails).1
    ensures var s := SetAddr(r, addr, fails).0;
            && (forall a :: a in r.clients && a in addr ==> a in s.clients && s.clients[a] == r.clients[a])
            && (forall a :: a in s.clients && a !in r.clients ==> s.clients[a].id >= r.created)
            && s.closed == r.closed + set a | a in r.clients && a !in addr :: r.clients[a]
  {
    if !Unchanged(r, addr) { KeptConnections(r, addr, fails); }
  }

  lemma KeptConnections(r: Ring, addr: seq<string>, fails: set<string>)
    requires Filed(r) && AddClients(r, Without(addr, r.clients.Keys), fails).1
    ensures var s := Kept(r, addr, fails);
            && (forall a :: a in r.clients && a in addr ==> a in s.clients && s.clients[a] == r.clients[a])
            && (forall a :: a in s.clients && a !in r.clients ==> s.clients[a].id >= r.created)
            && s.closed == r.closed + set a | a in r.clients && a !in addr :: r.clients[a]
  {
    AddedClients(r, addr, fails);
    AddedAreNew(r, Without(addr, r.clients.Keys), fails);
    KeptAddresses(r, addr, fails);
    var s := Kept(r, addr, fails);
    forall a | a in r.clients && a in addr ensures a in s.clients && s.clients[a] == r.clients[a] {
      assert a in Elements(addr);
    }
    var gone := r.clients.Keys - Elements(addr);
    assert forall a :: a in gone <==> a in r.clients && a !in addr;
  }

  lemma {:induction false} AddedAreNew(r: Ring, addr: seq<string>, fails: set<string>)
    ensures var s := AddClients(r, addr, fails).0;
            && s.created >= r.created
            && forall a :: a in s.clients && a !in r.clients ==> s.clients[a].id >= r.created
    decreases |addr|
  {
    if addr != [] { AddedAreNew(r, addr[..|addr| - 1], fails); }
  }

  lemma {:induction false} ImageSize(clients: map<string, Client>, gone: set<string>)
    requires gone <= clients.Keys && forall a :: a in clients ==> clients[a].address == a
    ensures |set a | a in gone :: clients[a]| == |gone|
  {
    if gone != {} {
      var x :| x in gone;
      ImageSize(clients, gone - {x});
      var rest := set a | a in gone - {x} :: clients[a];
      assert (set a | a in gone :: clients[a]) == rest + {clients[x]};
    }
  }

  lemma RemoveKeepsCount(r: Ring, gone: set<string>)
    requires Filed(r) && gone <= r.clients.Keys
    ensures var s := RemoveClients(r, gone); |s.clients.Keys| + |s.closed| == |r.clients.Keys| + |r.closed|
  {
    var image := set a | a in gone :: r.clients[a];
    ImageSize(r.clients, gone);
    assert (set a | a in gone && a in r.clients :: r.clients[a]) == image;
    assert r.closed !! image;
    assert |r.closed + image| == |r.closed| + |image|;
    assert (r.clients - gone).Keys == r.clients.Keys - gone;
  }

  // ---------- Runs ----------

  datatype Update = Update(addr: seq<string>, fails: set<string>)

  ghost function Run(r: Ring, updates: seq<Update>): Ring {
    if updates == [] then r
    else
      var n := |updates| - 1;
      SetAddr(Run(r, updates[..n]), updates[n].addr, updates[n].fails).0
  }

  // Every update of the run succeeded.
  ghost predicate Succeeds(r: Ring, updates: seq<Update>) {
    updates == [] ||
    (var before, last := updates[..|updates| - 1], updates[|updates| - 1];
     Succeeds(r, before) && SetAddr(Run(r, before), last.addr, last.fails).1)
  }

  // The last addresses a run was told, starting from the given ones.
  function Told(addr: seq<string>, updates: seq<Update>): seq<string> {
    if updates == [] then addr
    else
      var last := updates[|updates| - 1].addr;
      if last == [] then Told(addr, updates[..|updates| - 1]) else last
  }

  // Over every run, failed updates included, no slot leads to a closed or forgotten client.
  lemma {:induction false} RunKeepsSound(r: Ring, updates: seq<Update>)
    requires Sound(r)
    ensures Sound(Run(r, updates))
    decreases |updates|
  {
    if updates != [] {
      var n := |updates| - 1;
      RunKeepsSound(r, updates[..n]);
      SetAddrKeepsSound(Run(r, updates[..n]), updates[n].addr, updates[n].fails);
    }
  }

  // After a start and updates that all succeeded, the table is the canonical one of the last list.
  lemma {:induction false} RunIsCanonical(r: Ring, addr: seq<string>, updates: seq<Update>)
    requires Sound(r) && Canonical(r) && r.clients.Keys == Elements(addr) && Succeeds(r, updates)
    ensures Canonical(Run(r, updates)) && Run(r, updates).clients.Keys == Elements(Told(addr, updates))
    decreases |updates|
  {
    if updates != [] {
      var n := |updates| - 1;
      RunIsCanonical(r, addr, updates[..n]);
      RunKeepsSound(r, updates[..n]);
      UpdateIsCanonical(Run(r, updates[..n]), updates[n]);
    }
  }

  lemma UpdateIsCanonical(r: Ring, u: Update)
    requires Filed(r) && Canonical(r) && SetAddr(r, u.addr, u.fails).1
    ensures
      var s := SetAddr(r, u.addr, u.fails).0;
      Canonical(s) && s.clients.Keys == if u.addr == [] then r.clients.Keys else Elements(u.addr)
  {
    if u.addr != [] { SetAddrIsCanonical(r, u.addr, u.fails); }
  }

  // ---------- Where the promise fails ----------

  lemma FailingUpdate()
    ensures SetAddr(NoClients(), ["a", "b"], {"b"}) == (WithClient(NoClients(), "a"), false)
  {
    var r := NoClients();
    assert ["a", "b"][..1] == ["a"] && ["a"][..0] == [];
    assert Without([], {}) == [];
    assert Without(["a"], {}) == ["a"];
    assert Without(["a", "b"], {}) == ["a", "b"];
    assert AddClients(r, [], {"b"}) == (r, true);
    assert AddClients(r, ["a"], {"b"}) == (WithClient(r, "a"), true);
    NoElements(["a", "b"]);
    assert r.clients.Keys == {};
  }

  lemma EmptySlotIsNotCanonical(r: Ring)
    requires r.clients.Keys != {} && |r.table| > 0 && r.table[0] == None
    ensures !Canonical(r)
  {
    ListedIsEmpty(r.clients.Keys);
    SortKeepsElements(ListOf(r.clients.Keys));
    SlotIsFilled(Sort(ListOf(r.clients.Keys)), r.clients, 0);
  }

  // After an update that failed half way, an update to just the addresses it had reached succeeds
  // without rebuilding: here every slot stays empty although a client is known.
  lemma FailedUpdateLeavesStaleTable()
    ensures
      var (s, failed) := SetAddr(NoClients(), ["a", "b"], {"b"});
      var (t, ok) := SetAddr(s, ["a"], {});
      && Start([], {}) == (NoClients(), true) && !failed && ok
      && t.clients.Keys == {"a"} && t.table == NoClients().table && !Canonical(t)
  {
    FailingUpdate();
    var s := WithClient(NoClients(), "a");
    assert Elements(["a"]) == {"a"} by { assert "a" in ["a"]; }
    assert s.clients.Keys == {"a"};
    assert Unchanged(s, ["a"]);
    EmptySlotIsNotCanonical(s);
  }

  lemma CanonicalActive(r: Ring)
    requires Canonical(r) && r.clients.Keys != {}
    ensures r.active == ActiveShards(|r.clients.Keys|)
  {
    ListedIsEmpty(r.clients.Keys);
    ElementCount(ListOf(r.clients.Keys));
  }

  lemma StartActive(addr: seq<string>)
    requires addr != []
    ensures Start(addr, {}).1 && Start(addr, {}).0.active == ActiveShards(|addr|)
  {
    AddClientsGrows(NoClients(), {}, addr, {});
  }

  lemma ActiveOfTwo()
    ensures ActiveShards(2) == 2 && ActiveShards(1) == 1
  {
  }

  // A start with a repeated address does not give the table of its set of addresses.
  lemma RepeatedStartIsNotCanonical()
    ensures Start(["a", "a"], {}).1 && !Canonical(Start(["a", "a"], {}).0)
  {
    var addr := ["a", "a"];
    StartActive(addr);
    StartIsCanonical(addr, {});
    var r := Start(addr, {}).0;
    assert r.clients.Keys == {"a"} by { assert addr[0] in addr; }
    ActiveOfTwo();
    if Canonical(r) { CanonicalActive(r); }
  }
}
