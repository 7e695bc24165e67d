/**
 Runs of updates that may fail: when the table is that of the known addresses, and how many clients
 are lost. Two things that a caller can keep track of decide both: the known addresses, and the list
 the table was last built from.
 */
module ShardRuns {
  import opened SortedStrings
  import opened ShardTable
  import opened ShardStart

  // The known addresses and the list of the last rebuild, empty before the first.
  datatype Trace = Trace(known: set<string>, built: seq<string>)

  // ---------- Following the calls ----------

  // The addresses of a list before the first that fails.
  function BeforeFailure(addr: seq<string>, fails: set<string>): seq<string> {
    if addr == [] then []
    else
      var n := |addr| - 1;
      var before := BeforeFailure(addr[..n], fails);
      if before == addr[..n] && addr[n] !in fails then addr else before
  }

  // An update with no addresses, or with exactly the known ones, does nothing.
  ghost predicate Skips(known: set<string>, u: Update) {
    u.addr == [] || (NoRepeats(u.addr) && Elements(u.addr) == known)
  }

  // The trace after a start, which leaves no table if it fails.
  ghost function StartTrace(addr: seq<string>, fails: set<string>): Trace {
    if BeforeFailure(addr, fails) == addr then Trace(Elements(addr), addr)
    else Trace(Elements(BeforeFailure(addr, fails)), [])
  }

  // The trace after one more update; it depends on the addresses alone.
  ghost function Follow(tr: Trace, u: Update): Trace {
    if Skips(tr.known, u) then tr
    else
      var added := Without(u.addr, tr.known);
      if BeforeFailure(added, u.fails) == added then Trace(Elements(u.addr), ListOf(Elements(u.addr)))
      else tr.(known := tr.known + Elements(BeforeFailure(added, u.fails)))
  }

  ghost function FollowAll(tr: Trace, updates: seq<Update>): Trace {
    if updates == [] then tr
    else Follow(FollowAll(tr, updates[..|updates| - 1]), updates[|updates| - 1])
  }

  // The lists give the same shard size and the same addresses in use.
  ghost predicate UpToDate(tr: Trace) {
    tr.known == {} ||
    (tr.built != [] &&
      (ListedIsEmpty(tr.known);
       SortKeepsElements(tr.built);
       SortKeepsElements(ListOf(tr.known));
       SameLead(Sort(tr.built), Sort(ListOf(tr.known)))))
  }

  // ---------- The ring and its trace ----------

  ghost predicate BuiltFrom(r: Ring, built: seq<string>) {
    if built == [] then r.table == NoClients().table && r.active == 0
    else
      && Elements(built) <= r.clients.Keys
      && r.table == Rebuilt(r, built).table && r.active == Rebuilt(r, built).active
  }

  ghost predicate Tracks(r: Ring, tr: Trace) {
    r.clients.Keys == tr.known && BuiltFrom(r, tr.built)
  }

  // Clients are created for the addresses before the first failure, one each time.
  lemma {:induction false} AddedKeys(r: Ring, addr: seq<string>, fails: set<string>)
    ensures
      var (s, ok) := AddClients(r, addr, fails);
      var created := BeforeFailure(addr, fails);
      && s.clients.Keys == r.clients.Keys + Elements(created) && s.created == r.created + |created|
      && s.table == r.table && s.active == r.active && s.closed == r.closed
      && (ok <==> created == addr)
    decreases |addr|
  {
    if addr != [] {
      var n := |addr| - 1;
      AddedKeys(r, addr[..n], fails);
      BeforeFailureIsPrefix(addr[..n], fails);
      assert addr == addr[..n] + [addr[n]];
      assert Elements(addr) == Elements(addr[..n]) + {addr[n]};
    }
  }

  lemma {:induction false} BeforeFailureIsPrefix(addr: seq<string>, fails: set<string>)
    ensures BeforeFailure(addr, fails) <= addr
  {
    if addr != [] { BeforeFailureIsPrefix(addr[..|addr| - 1], fails); }
  }

  // Clients that are added beside do not change the table.
  lemma SameClientsSameTable(r: Ring, s: Ring, built: seq<string>)
    requires built != [] && Elements(built) <= r.clients.Keys <= s.clients.Keys
    requires forall a :: a in r.clients ==> s.clients[a] == r.clients[a]
    ensures Rebuilt(s, built).table == Rebuilt(r, built).table
  {
    SortKeepsElements(built);
    var sorted := Sort(built);
    forall i | 0 <= i < RING_SIZE ensures TableOf(sorted, s.clients)[i] == TableOf(sorted, r.clients)[i] {
      SlotIsFilled(sorted, r.clients, i);
      SlotIsFilled(sorted, s.clients, i);
    }
  }

  lemma FailedUpdateFollows(r: Ring, tr: Trace, u: Update)
    requires Filed(r) && Tracks(r, tr)
    ensures
      var added := Without(u.addr, tr.known);
      var (s, ok) := AddClients(r, added, u.fails);
      ok == (BeforeFailure(added, u.fails) == added)
      && Tracks(s, tr.(known := tr.known + Elements(BeforeFailure(added, u.fails))))
  {
    var s := AddClients(r, Without(u.addr, tr.known), u.fails).0;
    AddedClients(r, u.addr, u.fails);
    AddedKeys(r, Without(u.addr, tr.known), u.fails);
    if tr.built != [] { SameClientsSameTable(r, s, tr.built); }
  }

  lemma SetAddrFollows(r: Ring, tr: Trace, u: Update)
    requires Filed(r) && Tracks(r, tr)
    ensures Tracks(SetAddr(r, u.addr, u.fails).0, Follow(tr, u))
  {
    if u.addr != [] && !Unchanged(r, u.addr) {
      FailedUpdateFollows(r, tr, u);
      if SetAddr(r, u.addr, u.fails).1 {
        KeptAddresses(r, u.addr, u.fails);
        NoElements(u.addr);
        ListedIsEmpty(Elements(u.addr));
      }
    }
  }

  lemma StartTracks(addr: seq<string>, fails: set<string>)
    ensures Start(addr, fails).1 <==> BeforeFailure(addr, fails) == addr
    ensures Sound(Start(addr, fails).0) && Tracks(Start(addr, fails).0, StartTrace(addr, fails))
  {
    AddedKeys(NoClients(), addr, fails);
    if Start(addr, fails).1 {
      StartIsCanonical(addr, fails);
      if addr == [] { assert Start(addr, fails).0 == NoClients(); }
    } else {
      AddClientsGrows(NoClients(), {}, addr, fails);
    }
  }

  lemma {:induction false} RunFollows(r: Ring, tr: Trace, updates: seq<Update>)
    requires Sound(r) && Tracks(r, tr)
    ensures Tracks(Run(r, updates), FollowAll(tr, updates))
    decreases |updates|
  {
    if updates != [] {
      var n := |updates| - 1;
      RunFollows(r, tr, updates[..n]);
      RunKeepsSound(r, updates[..n]);
      SetAddrFollows(Run(r, updates[..n]), FollowAll(tr, updates[..n]), updates[n]);
    }
  }

  // ---------- The exact condition ----------

  lemma CanonicalExactly(r: Ring, tr: Trace)
    requires Filed(r) && Tracks(r, tr)
    ensures Canonical(r) <==> UpToDate(tr)
  {
    if tr.known != {} {
      var order := ListOf(tr.known);
      ListedIsEmpty(tr.known);
      SortKeepsElements(order);
      if tr.built == [] {
        EmptySlotIsNotCanonical(r);
      } else {
        SortKeepsElements(tr.built);
        SameTableIffSameLead(r, tr.built, order);
      }
    }
  }

  lemma SameTableIffSameLead(r: Ring, a: seq<string>, b: seq<string>)
    requires Filed(r) && a != [] && b != [] && Elements(a) <= r.clients.Keys && Elements(b) <= r.clients.Keys
    ensures Sort(a) != [] && Sort(b) != []
    ensures Rebuilt(r, a).table == Rebuilt(r, b).table && Rebuilt(r, a).active == Rebuilt(r, b).active
       <==> SameLead(Sort(a), Sort(b))
  {
    SortKeepsElements(a);
    SortKeepsElements(b);
    if SameLead(Sort(a), Sort(b)) { SameLeadSameTable(r, Sort(a), Sort(b)); }
    if Rebuilt(r, a).table == Rebuilt(r, b).table && Rebuilt(r, a).active == Rebuilt(r, b).active {
      SameTableSameLead(r, Sort(a), Sort(b));
    }
  }

  // After any start and any updates, failed ones included, the table is that of the known addresses
  // exactly if the list it was last built from leads like them.
  lemma RunIsCanonicalExactly(addr: seq<string>, fails: set<string>, updates: seq<Update>)
    ensures
      var r := Run(Start(addr, fails).0, updates);
      var tr := FollowAll(StartTrace(addr, fails), updates);
      r.clients.Keys == tr.known && (Canonical(r) <==> UpToDate(tr))
  {
    var r, tr := Start(addr, fails).0, StartTrace(addr, fails);
    StartTracks(addr, fails);
    RunFollows(r, tr, updates);
    RunKeepsSound(r, updates);
    CanonicalExactly(Run(r, updates), FollowAll(tr, updates));
  }

  // ---------- Lost clients ----------

  // How many clients were created that are neither known nor closed.
  function Lost(r: Ring): int {
    r.created - |r.clients.Keys| - |r.closed|
  }

  // The addresses for which an update creates clients, in turn.
  ghost function Creates(known: set<string>, u: Update): seq<string> {
    if Skips(known, u) then [] else BeforeFailure(Without(u.addr, known), u.fails)
  }

  // How often a list repeats an address.
  function Repeats(s: seq<string>): (n: nat)
    ensures n == 0 <==> NoRepeats(s)
  {
    ElementCount(s);
    |s| - |Elements(s)|
  }

  lemma AddedLoses(r: Ring, u: Update)
    requires Filed(r)
    ensures
      var c := BeforeFailure(Without(u.addr, r.clients.Keys), u.fails);
      Lost(AddClients(r, Without(u.addr, r.clients.Keys), u.fails).0) == Lost(r) + Repeats(c)
  {
    var added := Without(u.addr, r.clients.Keys);
    var c := BeforeFailure(added, u.fails);
    AddedKeys(r, added, u.fails);
    BeforeFailureIsPrefix(added, u.fails);
    WithoutElements(u.addr, r.clients.Keys);
    assert forall a :: a in Elements(c) ==> a in Elements(added);
    assert |r.clients.Keys + Elements(c)| == |r.clients.Keys| + |Elements(c)|;
  }

  lemma RemoveLoses(r: Ring, addr: seq<string>, fails: set<string>)
    requires Filed(r)
    ensures Lost(Kept(r, addr, fails)) == Lost(AddClients(r, Without(addr, r.clients.Keys), fails).0)
  {
    AddedClients(r, addr, fails);
    RemoveKeepsCount(AddClients(r, Without(addr, r.clients.Keys), fails).0, r.clients.Keys - Elements(addr));
  }

  // Every update, failed or not, loses as many clients as it creates for repeated addresses.
  lemma UpdateLoses(r: Ring, u: Update)
    requires Filed(r)
    ensures Lost(SetAddr(r, u.addr, u.fails).0) == Lost(r) + Repeats(Creates(r.clients.Keys, u))
  {
    if !Skips(r.clients.Keys, u) {
      AddedLoses(r, u);
      RemoveLoses(r, u.addr, u.fails);
      SetAddrKeepsCounts(r, u);
    }
  }

  // Rebuilding the table changes no client.
  lemma SetAddrKeepsCounts(r: Ring, u: Update)
    requires !Skips(r.clients.Keys, u)
    ensures
      var (added, ok) := AddClients(r, Without(u.addr, r.clients.Keys), u.fails);
      Lost(SetAddr(r, u.addr, u.fails).0) == if ok then Lost(Kept(r, u.addr, u.fails)) else Lost(added)
  {
  }

  // A start creates the clients before the first failure and closes none.
  lemma StartLoses(addr: seq<string>, fails: set<string>)
    ensures Start(addr, fails).1 <==> BeforeFailure(addr, fails) == addr
    ensures Lost(Start(addr, fails).0) == Repeats(BeforeFailure(addr, fails))
    ensures Start(addr, fails).0.created == |BeforeFailure(addr, fails)| && Start(addr, fails).0.closed == {}
  {
    AddedKeys(NoClients(), addr, fails);
    assert {} + Elements(BeforeFailure(addr, fails)) == Elements(BeforeFailure(addr, fails));
  }

  // The addresses for which the update at k of a run creates clients.
  ghost function CreatesAt(tr: Trace, updates: seq<Update>, k: nat): seq<string>
    requires k < |updates|
  {
    Creates(FollowAll(tr, updates[..k]).known, updates[k])
  }

  // How many clients the update at k of a run creates for repeated addresses.
  ghost function Losses(tr: Trace, updates: seq<Update>): nat -> nat {
    (k: nat) => if k < |updates| then Repeats(CreatesAt(tr, updates, k)) else 0
  }

  function SumTo(f: nat -> nat, n: nat): nat {
    if n == 0 then 0 else SumTo(f, n - 1) + f(n - 1)
  }

  lemma {:induction false} SumIsZero(f: nat -> nat, n: nat)
    ensures SumTo(f, n) == 0 <==> forall k :: 0 <= k < n ==> f(k) == 0
  {
    if n > 0 { SumIsZero(f, n - 1); }
  }

  lemma {:induction false} Telescope(total: nat -> int, f: nat -> nat, n: nat)
    requires forall k: nat :: k < n ==> total(k + 1) == total(k) + f(k)
    ensures total(n) == total(0) + SumTo(f, n)
  {
    if n > 0 {
      Telescope(total, f, n - 1);
      assert total(n - 1 + 1) == total(n - 1) + f(n - 1);
    }
  }

  // The clients lost after k updates.
  ghost function LostAfter(r: Ring, updates: seq<Update>): nat -> int {
    (k: nat) => if k <= |updates| then Lost(Run(r, updates[..k])) else 0
  }

  lemma RunStep(r: Ring, updates: seq<Update>, k: nat)
    requires k < |updates|
    ensures Run(r, updates[..k + 1]) == SetAddr(Run(r, updates[..k]), updates[k].addr, updates[k].fails).0
  {
    assert updates[..k + 1][..k] == updates[..k];
  }

  lemma StepLoses(r: Ring, tr: Trace, updates: seq<Update>, k: nat)
    requires Sound(r) && Tracks(r, tr) && k < |updates|
    ensures LostAfter(r, updates)(k + 1) == LostAfter(r, updates)(k) + Losses(tr, updates)(k)
  {
    RunFollows(r, tr, updates[..k]);
    RunKeepsSound(r, updates[..k]);
    UpdateLoses(Run(r, updates[..k]), updates[k]);
    RunStep(r, updates, k);
  }

  lemma {:induction false} RunLoses(r: Ring, tr: Trace, updates: seq<Update>)
    requires Sound(r) && Tracks(r, tr)
    ensures Lost(Run(r, updates)) == Lost(r) + SumTo(Losses(tr, updates), |updates|)
  {
    var total, f := LostAfter(r, updates), Losses(tr, updates);
    forall k: nat | k < |updates| ensures total(k + 1) == total(k) + f(k) {
      StepLoses(r, tr, updates, k);
    }
    Telescope(total, f, |updates|);
    assert updates[..|updates|] == updates && updates[..0] == [];
  }

  // After any start and any updates, failed ones included, the clients lost are those created for an
  // address that the same call had created one for.
  lemma RunLosesExactly(addr: seq<string>, fails: set<string>, updates: seq<Update>)
    ensures Lost(Run(Start(addr, fails).0, updates))
         == Repeats(BeforeFailure(addr, fails)) + SumTo(Losses(StartTrace(addr, fails), updates), |updates|)
  {
    StartTracks(addr, fails);
    StartLoses(addr, fails);
    RunLoses(Start(addr, fails).0, StartTrace(addr, fails), updates);
  }

  // None is lost exactly if no call creates clients for an address twice.
  lemma NoneIsLost(addr: seq<string>, fails: set<string>, updates: seq<Update>)
    ensures Lost(Run(Start(addr, fails).0, updates)) == 0 <==>
              && NoRepeats(BeforeFailure(addr, fails))
              && forall k :: 0 <= k < |updates| ==> NoRepeats(CreatesAt(StartTrace(addr, fails), updates, k))
  {
    var tr := StartTrace(addr, fails);
    RunLosesExactly(addr, fails, updates);
    SumIsZero(Losses(tr, updates), |updates|);
    forall k: nat | k < |updates| ensures Losses(tr, updates)(k) == 0 <==> NoRepeats(CreatesAt(tr, updates, k)) {
    }
  }

  lemma Twice()
    ensures BeforeFailure(["a", "a"], {}) == ["a", "a"] && Without(["a", "a"], {}) == ["a", "a"]
    ensures Repeats(["a", "a"]) == 1
  {
    var one, two := ["a"], ["a", "a"];
    assert one[..0] == [] && two[..1] == one;
    assert BeforeFailure(one, {}) == one && Without(one, {}) == one;
    assert Elements(two) == {"a"} by { assert two[0] in two; }
  }

  lemma TwiceThenFailure()
    ensures BeforeFailure(["a", "a", "b"], {"b"}) == ["a", "a"]
    ensures Without(["a", "a", "b"], {}) == ["a", "a", "b"]
  {
    var one, two, three := ["a"], ["a", "a"], ["a", "a", "b"];
    assert one[..0] == [] && two[..1] == one && three[..2] == two;
    assert BeforeFailure(one, {"b"}) == one;
    assert BeforeFailure(two, {"b"}) == two;
    assert Without(one, {}) == one;
    assert Without(two, {}) == two;
  }

  // A repeated address loses a client at a start,
  lemma RepeatedStartLosesClient()
    ensures Start(["a", "a"], {}).1 && Lost(Start(["a", "a"], {}).0) == 1
  {
    Twice();
    StartLoses(["a", "a"], {});
  }

  // in an update,
  lemma RepeatedAddressLosesClient()
    ensures var (r, ok) := SetAddr(NoClients(), ["a", "a"], {}); ok && Lost(r) == 1
  {
    Twice();
    LosesFirst(["a", "a"], {});
  }

  // and in an update that fails later.
  lemma FailedUpdateLosesClient()
    ensures var (r, ok) := SetAddr(NoClients(), ["a", "a", "b"], {"b"}); !ok && Lost(r) == 1
  {
    Twice();
    TwiceThenFailure();
    LosesFirst(["a", "a", "b"], {"b"});
  }

  // The first update of a ring without clients.
  lemma LosesFirst(addr: seq<string>, fails: set<string>)
    requires addr != [] && Without(addr, {}) == addr
    ensures Lost(SetAddr(NoClients(), addr, fails).0) == Repeats(BeforeFailure(addr, fails))
    ensures SetAddr(NoClients(), addr, fails).1 <==> BeforeFailure(addr, fails) == addr
  {
    assert NoClients().clients.Keys == {};
    NoElements(addr);
    UpdateLoses(NoClients(), Update(addr, fails));
    SetAddrSucceeds(NoClients(), Update(addr, fails));
  }

  // An update succeeds if it does nothing or no creation fails.
  lemma SetAddrSucceeds(r: Ring, u: Update)
    ensures
      var added := Without(u.addr, r.clients.Keys);
      SetAddr(r, u.addr, u.fails).1 <==> Skips(r.clients.Keys, u) || BeforeFailure(added, u.fails) == added
  {
    AddedKeys(r, Without(u.addr, r.clients.Keys), u.fails);
  }
}
