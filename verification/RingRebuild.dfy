/**
 Skipping unavailable endpoints on the full ring chooses the same endpoint as a ring built without
 them, so a key moves only when its own endpoint goes away.
 */
module RingRebuild {
  import opened ConsistentHash

  function FullRing(hash: string -> nat, es: seq<Endpoint>, per: nat): (ring: seq<Entry>)
    ensures ByHash(ring)
  {
    Sort(Rows(hash, es, per, |es|))
  }

  // No two labels of the endpoints hash alike.
  ghost predicate DistinctHashes(hash: string -> nat, es: seq<Endpoint>, per: nat) {
    forall i, j, i', j' :: 0 <= i < |es| && 0 <= i' < |es| && 0 <= j < per && 0 <= j' < per ==>
      hash(Label(es[i].address, j)) == hash(Label(es[i'].address, j')) ==> i == i' && j == j'
  }

  ghost predicate IsEntry(hash: string -> nat, es: seq<Endpoint>, per: nat, e: Entry) {
    e.index < |es| && exists j :: 0 <= j < per && e.hash == hash(Label(es[e.index].address, j))
  }

  lemma {:induction false} RowsHold(hash: string -> nat, es: seq<Endpoint>, per: nat, n: nat, e: Entry)
    requires n <= |es|
    ensures e in Rows(hash, es, per, n) <==> e.index < n && IsEntry(hash, es, per, e)
    decreases n
  {
    if n > 0 {
      RowsHold(hash, es, per, n - 1, e);
      var row := Row(hash, es, per, n - 1);
      if e.index == n - 1 && IsEntry(hash, es, per, e) {
        var j :| 0 <= j < per && e.hash == hash(Label(es[e.index].address, j));
        assert row[j] == e;
      }
      if e in row {
        var j :| 0 <= j < per && row[j] == e;
        assert e.index == n - 1 && e.hash == hash(Label(es[e.index].address, j));
      }
    }
  }

  lemma RingHolds(hash: string -> nat, es: seq<Endpoint>, per: nat, e: Entry)
    ensures e in FullRing(hash, es, per) <==> IsEntry(hash, es, per, e)
  {
    RowsHold(hash, es, per, |es|, e);
    assert e in FullRing(hash, es, per) <==> e in multiset(FullRing(hash, es, per));
    assert e in Rows(hash, es, per, |es|) <==> e in multiset(Rows(hash, es, per, |es|));
  }

  // A ring built with at least one entry per endpoint covers the route.
  lemma RingCovers(hash: string -> nat, es: seq<Endpoint>, per: nat)
    requires per >= 1
    ensures Covers(FullRing(hash, es, per), es)
  {
    var ring := FullRing(hash, es, per);
    forall i | 0 <= i < |ring| ensures ring[i].index < |es| {
      RingHolds(hash, es, per, ring[i]);
    }
    forall r: nat | r < |es| ensures HasEntry(ring, r) {
      var e := Entry(r, hash(Label(es[r].address, 0)));
      RingHolds(hash, es, per, e);
    }
  }

  // ---------- The closest entry is unique ----------

  lemma SameHashSameEntry(hash: string -> nat, es: seq<Endpoint>, per: nat, e: Entry, f: Entry)
    requires DistinctHashes(hash, es, per)
    requires e in FullRing(hash, es, per) && f in FullRing(hash, es, per) && e.hash == f.hash
    ensures e == f
  {
    RingHolds(hash, es, per, e);
    RingHolds(hash, es, per, f);
  }

  lemma ClosestIsUnique(hash: string -> nat, es: seq<Endpoint>, per: nat, h: nat, good: nat -> bool, e: Entry, f: Entry)
    requires DistinctHashes(hash, es, per)
    requires Closest(FullRing(hash, es, per), h, good, e) && Closest(FullRing(hash, es, per), h, good, f)
    ensures e == f
  {
    SameHashSameEntry(hash, es, per, e, f);
  }

  // ---------- Skipping is rebuilding ----------

  // The endpoints at the chosen positions.
  function Selected(es: seq<Endpoint>, chosen: seq<nat>): (r: seq<Endpoint>)
    requires forall k :: 0 <= k < |chosen| ==> chosen[k] < |es|
    ensures |r| == |chosen| && forall k :: 0 <= k < |chosen| ==> r[k] == es[chosen[k]]
  {
    seq(|chosen|, k requires 0 <= k < |chosen| => es[chosen[k]])
  }

  ghost predicate Selection(es: seq<Endpoint>, chosen: seq<nat>) {
    && (forall k :: 0 <= k < |chosen| ==> chosen[k] < |es|)
    && (forall k, m :: 0 <= k < m < |chosen| ==> chosen[k] < chosen[m])
  }

  lemma SelectedIsAvailable(es: seq<Endpoint>, chosen: seq<nat>, r: nat)
    requires DistinctHosts(es) && Selection(es, chosen)
    ensures Available(Context(es, Selected(es, chosen)))(r) <==> r in chosen
  {
    var sub := Selected(es, chosen);
    if r in chosen {
      var k: nat :| k < |chosen| && chosen[k] == r;
      assert sub[k].host == es[r].host;
    }
    if Available(Context(es, sub))(r) {
      var k :| 0 <= k < |sub| && sub[k].host == es[r].host;
      assert chosen[k] == r;
    }
  }

  // An entry of the rebuilt ring stands for an entry of the full ring, and every available entry
  // of the full ring is one of those.
  lemma RebuiltEntry(hash: string -> nat, es: seq<Endpoint>, per: nat, chosen: seq<nat>, e: Entry)
    requires Selection(es, chosen) && e.index < |chosen|
    ensures e in FullRing(hash, Selected(es, chosen), per)
       <==> Entry(chosen[e.index], e.hash) in FullRing(hash, es, per)
  {
    RingHolds(hash, Selected(es, chosen), per, e);
    RingHolds(hash, es, per, Entry(chosen[e.index], e.hash));
  }

  // The endpoint found on the full ring with the others unavailable is the one found on a ring
  // built from the available endpoints alone.
  lemma SkippingIsRebuilding(hash: string -> nat, es: seq<Endpoint>, per: nat, chosen: seq<nat>, h: nat,
                             e: Entry, f: Entry)
    requires DistinctHashes(hash, es, per) && DistinctHosts(es) && Selection(es, chosen)
    requires
      var sub := Selected(es, chosen);
      && Closest(FullRing(hash, es, per), h, Available(Context(es, sub)), e)
      && Closest(FullRing(hash, sub, per), h, Available(Context(sub, sub)), f)
    ensures f.index < |chosen| && e == Entry(chosen[f.index], f.hash)
    ensures es[e.index] == Selected(es, chosen)[f.index]
  {
    FullCandidate(hash, es, per, chosen, f);
    var k := RebuiltCandidate(hash, es, per, chosen, e);
    assert NoLater(h, e.hash, f.hash) && NoLater(h, f.hash, Entry(k, e.hash).hash);
    SameHashSameEntry(hash, es, per, e, Entry(chosen[f.index], f.hash));
  }

  // An entry of the rebuilt ring is an available one on the full ring.
  lemma FullCandidate(hash: string -> nat, es: seq<Endpoint>, per: nat, chosen: seq<nat>, f: Entry)
    requires DistinctHosts(es) && Selection(es, chosen) && f in FullRing(hash, Selected(es, chosen), per)
    ensures f.index < |chosen| && Entry(chosen[f.index], f.hash) in FullRing(hash, es, per)
    ensures Available(Context(es, Selected(es, chosen)))(chosen[f.index])
  {
    RingHolds(hash, Selected(es, chosen), per, f);
    RebuiltEntry(hash, es, per, chosen, f);
    SelectedIsAvailable(es, chosen, chosen[f.index]);
  }

  // An available entry of the full ring is one of the rebuilt ring.
  lemma RebuiltCandidate(hash: string -> nat, es: seq<Endpoint>, per: nat, chosen: seq<nat>, e: Entry)
    returns (k: nat)
    requires DistinctHosts(es) && Selection(es, chosen) && e in FullRing(hash, es, per)
    requires Available(Context(es, Selected(es, chosen)))(e.index)
    ensures k < |chosen| && chosen[k] == e.index && Entry(k, e.hash) in FullRing(hash, Selected(es, chosen), per)
    ensures Available(Context(Selected(es, chosen), Selected(es, chosen)))(k)
  {
    SelectedIsAvailable(es, chosen, e.index);
    k :| 0 <= k < |chosen| && chosen[k] == e.index;
    RebuiltEntry(hash, es, per, chosen, Entry(k, e.hash));
    assert Selected(es, chosen)[k].host == Selected(es, chosen)[k].host;
  }

  // Taking endpoints away does not move a key whose endpoint stays.
  lemma KeyStaysPut(hash: string -> nat, es: seq<Endpoint>, per: nat, h: nat, more: Context, fewer: Context,
                    e: Entry, f: Entry)
    requires DistinctHashes(hash, es, per)
    requires Closest(FullRing(hash, es, per), h, Available(more), e)
    requires Closest(FullRing(hash, es, per), h, Available(fewer), f)
    requires forall i: nat :: Available(fewer)(i) ==> Available(more)(i)
    requires Available(fewer)(e.index)
    ensures f == e
  {
    ClosestIsUnique(hash, es, per, h, Available(fewer), e, f);
  }
}
