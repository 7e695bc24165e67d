/**
 When an insertion is accepted, what a refused one leaves behind, and lookups after any
 sequence of insertions.
 */
module PathTreeRuns {
  import opened Options
  import opened PathPattern
  import opened PathTree
  import opened PathTreeMeaning
  import opened PathTreeSearch

  // ---------- Catch-all positions through static children ----------

  predicate EndsInRest(p: Pattern) {
    p != [] && p[|p| - 1] == Rest
  }

  ghost predicate StaticStart(path: string) {
    path != "" && path[0] !in ":*" && !HasMark(path[..TokenEnd(path)])
  }

  // The node under which AddStatic continues, and the length of text consumed on the way.
  ghost function Below<V>(t: Tree<V>, path: string): (r: (Tree<V>, nat))
    requires InStep(t.indices, t.statics) && StaticStart(path)
    ensures 0 < r.1 <= TokenEnd(path)
  {
    var token := path[..TokenEnd(path)];
    var i := Find(t.indices, path[0]);
    if i < |t.indices| then
      var split := SplitCommonPrefix(t.statics[i], token);
      (Bump(split.0), split.1)
    else (Fresh(token, false), |token|)
  }

  lemma RestBelow<V>(t: Tree<V>, path: string, y: Pattern)
    requires InStep(t.indices, t.statics) && StaticStart(path) && EndsInRest(y)
    ensures var (below, k) := Below(t, path); Reach(t, Chars(path[..k]) + y) == Reach(below, y)
  {
    var token := path[..TokenEnd(path)];
    var (below, k) := Below(t, path);
    var x := Chars(path[..k]) + y;
    assert path[..k] == token[..k];
    assert x[0] == Ch(path[0]) && x[k..] == y && EndsInRest(x);
    var i := Find(t.indices, path[0]);
    if i < |t.indices| {
      var top := SplitCommonPrefix(t.statics[i], token).0;
      SplitInto(t.statics[i], token, x);
      assert Reach(t, x) == Into(t.statics[i], x) == Into(top, x);
      BumpReach(top, y);
    } else {
      assert Reach(t, x) == None;
      FreshReach<V>(token, y);
    }
  }

  lemma BumpReach<V>(t: Tree<V>, y: Pattern)
    requires y != []
    ensures Reach(Bump(t), y) == Reach(t, y)
  {
  }

  lemma FreshReach<V>(path: string, y: Pattern)
    requires y != []
    ensures Reach(Fresh<V>(path, false), y) == None
  {
  }

  // ---------- When an insertion is accepted ----------

  lemma {:induction false} CatchAllNameBelow(path: string, k: nat)
    requires StaticStart(path) && 0 < k <= TokenEnd(path)
    ensures CatchAllName(path) == CatchAllName(path[k..])
  {
    if k < TokenEnd(path) { CutToken(path, k); }
  }

  ghost predicate Acceptable<V>(t: Tree<V>, path: string) {
    Compile(path).Some? && NameFits(t, path)
  }

  lemma AcceptableCatchAll<V>(t: Tree<V>, path: string, v: V)
    requires Shape(t, true) && path != "" && path[0] == '*'
    ensures AddCatchAll(t, path, v).ok <==> Acceptable(t, path)
  {
    assert '/' in path <==> SlashIndex(path) < |path|;
    if Compile(path).Some? {
      assert Reach(t, [Rest]) == t.catchAll;
      assert path[1..TokenEnd(path)] == path[1..];
    }
  }

  lemma AcceptableBelowWildcard<V>(t: Tree<V>, path: string)
    requires path != "" && path[0] == ':'
    ensures Acceptable(t, path) <==> Acceptable(WildcardOf(t), path[TokenEnd(path)..])
  {
    var tail := path[TokenEnd(path)..];
    if Compile(tail).Some? && CatchAllName(path).Some? {
      CatchAllIsLast(tail);
      assert ([Wild] + Compile(tail).value)[1..] == Compile(tail).value;
      FreshReach<V>("wildcard", Compile(tail).value);
    }
  }

  lemma AcceptableBelow<V>(t: Tree<V>, path: string)
    requires InStep(t.indices, t.statics) && StaticStart(path)
    ensures var (below, k) := Below(t, path); Acceptable(t, path) <==> Acceptable(below, path[k..])
  {
    var (below, k) := Below(t, path);
    CompileToken(path, k);
    CatchAllNameBelow(path, k);
    if Compile(path[k..]).Some? && CatchAllName(path).Some? {
      CatchAllIsLast(path[k..]);
      RestBelow(t, path, Compile(path[k..]).value);
    }
  }

  // An insertion is accepted exactly when the definition is well formed and repeats the name of
  // a catch-all that is already there.
  lemma {:induction false} AddPathSucceeds<V>(t: Tree<V>, wildcardsAllowed: bool, path: string, v: V)
    requires Shape(t, wildcardsAllowed) && Startable(path, wildcardsAllowed)
    ensures AddPath(t, wildcardsAllowed, path, v).ok <==> Acceptable(t, path)
    decreases |path|
  {
    if path == "" {
    } else if path[0] == '*' {
      AcceptableCatchAll(t, path, v);
    } else if path[0] == ':' {
      AddPathSucceeds(WildcardOf(t), false, path[TokenEnd(path)..], v);
      AcceptableBelowWildcard(t, path);
    } else if !HasMark(path[..TokenEnd(path)]) {
      var (below, k) := Below(t, path);
      BelowShape(t, wildcardsAllowed, path);
      AddPathSucceeds(below, below.path == "/", path[k..], v);
      AcceptableBelow(t, path);
      AddStaticBelow(t, wildcardsAllowed, path, v);
    }
  }

  ghost function AddBelow<V>(t: Tree<V>, wildcardsAllowed: bool, path: string, v: V): (sub: Added<V>)
    requires Shape(t, wildcardsAllowed) && StaticStart(path)
    ensures sub.tree.path != ""
  {
    BelowShape(t, wildcardsAllowed, path);
    var (below, k) := Below(t, path);
    AddPath(below, below.path == "/", path[k..], v)
  }

  // AddStatic hangs what the insertion makes of the node below back into the children.
  lemma AddStaticBelow<V>(t: Tree<V>, wildcardsAllowed: bool, path: string, v: V)
    requires Shape(t, wildcardsAllowed) && StaticStart(path)
    ensures
      var sub := AddBelow(t, wildcardsAllowed, path, v);
      var i := Find(t.indices, path[0]);
      AddStatic(t, wildcardsAllowed, path, v)
      == Added(if i < |t.indices| then Reorder(t, i, Below(t, path).0, sub.tree) else Append(t, sub.tree), sub.ok)
  {
    BelowShape(t, wildcardsAllowed, path);
  }

  lemma BelowShape<V>(t: Tree<V>, wildcardsAllowed: bool, path: string)
    requires Shape(t, wildcardsAllowed) && StaticStart(path)
    ensures
      var (below, k) := Below(t, path);
      Shape(below, below.path == "/") && below.path == path[..k] && Startable(path[k..], below.path == "/")
  {
    StaticToken(path);
    var token := path[..TokenEnd(path)];
    var k := Below(t, path).1;
    assert path[..k] == token[..k];
    var i := Find(t.indices, path[0]);
    if i < |t.indices| { SplitKeepsShape(t.statics[i], token); }
  }

  // ---------- Catch-all nodes ----------

  // The position at which a definition has a catch-all followed by more segments.
  function Dangling(path: string): Option<Pattern>
    decreases |path|
  {
    if path == "" then None
    else if path[0] == '*' then (if '/' in path then Some([]) else None)
    else if path[0] == ':' then Prepend([Wild], Dangling(path[TokenEnd(path)..]))
    else if HasMark(path[..TokenEnd(path)]) then None
    else Prepend(Chars(path[..TokenEnd(path)]), Dangling(path[TokenEnd(path)..]))
  }

  // The catch-all pattern whose node an insertion asks for, whether it is accepted or not.
  function Asked(path: string): Option<Pattern> {
    if Dangling(path).Some? then Some(Dangling(path).value + [Rest])
    else if Compile(path).Some? && EndsInRest(Compile(path).value) then Compile(path)
    else None
  }

  lemma PrependAsked(prefix: Pattern, path: string, tail: string)
    requires Dangling(path) == Prepend(prefix, Dangling(tail)) && Compile(path) == Prepend(prefix, Compile(tail))
    requires prefix == [] || prefix[|prefix| - 1] != Rest
    ensures Asked(path) == Prepend(prefix, Asked(tail))
  {
    if Dangling(tail).Some? {
      assert prefix + (Dangling(tail).value + [Rest]) == prefix + Dangling(tail).value + [Rest];
    } else if Compile(tail).Some? && Compile(tail).value == [] {
      assert prefix + Compile(tail).value == prefix;
    }
  }

  lemma {:induction false} DanglingToken(path: string, k: nat)
    requires StaticStart(path) && 0 < k <= TokenEnd(path)
    ensures Dangling(path) == Prepend(Chars(path[..k]), Dangling(path[k..]))
  {
    var end := TokenEnd(path);
    if k < end {
      CutToken(path, k);
      CharsConcat(path[..k], path[k..][..end - k]);
      PrependTwice(Chars(path[..k]), Chars(path[k..][..end - k]), Dangling(path[end..]));
    }
  }

  lemma AskedBelow(path: string, k: nat)
    requires StaticStart(path) && 0 < k <= TokenEnd(path)
    ensures Asked(path) == Prepend(Chars(path[..k]), Asked(path[k..]))
  {
    DanglingToken(path, k);
    CompileToken(path, k);
    assert Chars(path[..k])[k - 1] == Ch(path[k - 1]);
    PrependAsked(Chars(path[..k]), path, path[k..]);
  }

  lemma AskedBelowWildcard(path: string)
    requires path != "" && path[0] == ':'
    ensures Asked(path) == Prepend([Wild], Asked(path[TokenEnd(path)..]))
  {
    PrependAsked([Wild], path, path[TokenEnd(path)..]);
  }

  // After an insertion, accepted or refused, there are the catch-all nodes of before and the one it
  // asked for.
  ghost predicate NodeAdded<V>(t: Tree<V>, path: string, r: Tree<V>, q: Pattern) {
    Reach(r, q).Some? <==> Reach(t, q).Some? || Asked(path) == Some(q)
  }

  lemma {:induction false} AddPathNodes<V>(t: Tree<V>, wildcardsAllowed: bool, path: string, v: V, q: Pattern)
    requires Shape(t, wildcardsAllowed) && Startable(path, wildcardsAllowed) && EndsInRest(q)
    ensures NodeAdded(t, path, AddPath(t, wildcardsAllowed, path, v).tree, q)
    decreases |path|, 1
  {
    if path == "" {
    } else if path[0] == '*' {
      CatchAllNodes(t, path, v, q);
    } else if path[0] == ':' {
      if q[0] == Wild && EndsInRest(q[1..]) {
        AddPathNodes(WildcardOf(t), false, path[TokenEnd(path)..], v, q[1..]);
      }
      WildcardNodes(t, path, AddPath(WildcardOf(t), false, path[TokenEnd(path)..], v).tree, q);
    } else if !HasMark(path[..TokenEnd(path)]) {
      AddStaticNodes(t, wildcardsAllowed, path, v, q);
    }
  }

  lemma {:induction false} AddStaticNodes<V>(t: Tree<V>, wildcardsAllowed: bool, path: string, v: V, q: Pattern)
    requires Shape(t, wildcardsAllowed) && StaticStart(path) && EndsInRest(q)
    ensures NodeAdded(t, path, AddStatic(t, wildcardsAllowed, path, v).tree, q)
    decreases |path|, 0
  {
    var (below, k) := Below(t, path);
    BelowShape(t, wildcardsAllowed, path);
    if Chars(path[..k]) < q { AddPathNodes(below, below.path == "/", path[k..], v, q[k..]); }
    StaticNodes(t, wildcardsAllowed, path, v, q);
  }

  lemma CatchAllNodes<V>(t: Tree<V>, path: string, v: V, q: Pattern)
    requires Shape(t, true) && path != "" && path[0] == '*' && EndsInRest(q)
    ensures NodeAdded(t, path, AddCatchAll(t, path, v).tree, q)
  {
    assert '/' in path <==> SlashIndex(path) < |path|;
    assert [] + [Rest] == [Rest];
    if q[0] == Rest && |q| == 1 { assert q == [Rest]; }
  }

  lemma WildcardNodes<V>(t: Tree<V>, path: string, sub: Tree<V>, q: Pattern)
    requires path != "" && path[0] == ':' && EndsInRest(q)
    requires q[0] == Wild && EndsInRest(q[1..]) ==>
               NodeAdded(WildcardOf(t), path[TokenEnd(path)..], sub, q[1..])
    ensures NodeAdded(t, path, t.(wildcard := Some(sub)), q)
  {
    AskedBelowWildcard(path);
    if q[0] == Wild {
      assert q == [Wild] + q[1..] && q[1..] != [];
      FreshReach<V>("wildcard", q[1..]);
    }
  }

  lemma TailEndsInRest(s: string, q: Pattern)
    requires Chars(s) <= q && EndsInRest(q)
    ensures EndsInRest(q[|s|..]) && q == Chars(s) + q[|s|..]
  {
    assert |q| == |s| ==> q == Chars(s);
  }

  lemma StaticNodes<V>(t: Tree<V>, wildcardsAllowed: bool, path: string, v: V, q: Pattern)
    requires Shape(t, wildcardsAllowed) && StaticStart(path) && EndsInRest(q)
    requires
      var (below, k) := Below(t, path);
      Chars(path[..k]) < q ==> NodeAdded(below, path[k..], AddBelow(t, wildcardsAllowed, path, v).tree, q[k..])
    ensures NodeAdded(t, path, AddStatic(t, wildcardsAllowed, path, v).tree, q)
  {
    var k := Below(t, path).1;
    AskedBelow(path, k);
    if Chars(path[..k]) <= q {
      TailEndsInRest(path[..k], q);
      RestBelow(t, path, q[k..]);
      ThroughStatic(t, wildcardsAllowed, path, v, q);
      PrependIs(Chars(path[..k]), Asked(path[k..]), q);
    } else {
      BesideStatic(t, wildcardsAllowed, path, v, q);
    }
  }

  lemma PrependIs(a: Pattern, o: Option<Pattern>, q: Pattern)
    requires a <= q
    ensures Prepend(a, o) == Some(q) <==> o == Some(q[|a|..])
  {
    assert q == a + q[|a|..];
    if Prepend(a, o) == Some(q) { assert o.value == q[|a|..]; }
  }

  lemma ThroughStatic<V>(t: Tree<V>, wildcardsAllowed: bool, path: string, v: V, q: Pattern)
    requires Shape(t, wildcardsAllowed) && StaticStart(path)
    requires Chars(path[..Below(t, path).1]) <= q
    ensures Reach(AddStatic(t, wildcardsAllowed, path, v).tree, q)
         == Reach(AddBelow(t, wildcardsAllowed, path, v).tree, q[Below(t, path).1..])
  {
    var (below, k) := Below(t, path);
    var sub := AddBelow(t, wildcardsAllowed, path, v).tree;
    BelowShape(t, wildcardsAllowed, path);
    AddStaticBelow(t, wildcardsAllowed, path, v);
    assert q[0] == Chars(path[..k])[0] == Ch(path[0]);
    var i := Find(t.indices, path[0]);
    if i < |t.indices| { ReorderReach(t, i, below, sub, q); } else { AppendReach(t, sub, q); }
  }

  lemma BesideStatic<V>(t: Tree<V>, wildcardsAllowed: bool, path: string, v: V, q: Pattern)
    requires Shape(t, wildcardsAllowed) && StaticStart(path) && EndsInRest(q)
    requires !(Chars(path[..Below(t, path).1]) <= q)
    ensures Reach(AddStatic(t, wildcardsAllowed, path, v).tree, q) == Reach(t, q)
  {
    var (below, k) := Below(t, path);
    var sub := AddBelow(t, wildcardsAllowed, path, v).tree;
    BelowShape(t, wildcardsAllowed, path);
    AddStaticBelow(t, wildcardsAllowed, path, v);
    var i := Find(t.indices, path[0]);
    if q[0].Ch? {
      if i < |t.indices| {
        ReorderReach(t, i, below, sub, q);
        SplitInto(t.statics[i], path[..TokenEnd(path)], q);
      } else {
        AppendReach(t, sub, q);
      }
    }
  }

  // ---------- Catch-all nodes without a value ----------

  // Every catch-all pattern that is reached has a value.
  lemma {:induction false} FilledIsValued<V>(t: Tree<V>, q: Pattern)
    requires Filled(t) && EndsInRest(q) && Reach(t, q).Some?
    ensures Get(t, q).Some?
    decreases t
  {
    match q[0]
    case Rest =>
    case Wild => FilledIsValued(t.wildcard.value, q[1..]);
    case Ch(c) =>
      var child := t.statics[Find(t.indices, c)];
      var k := |child.path|;
      assert Reach(t, q) == Into(child, q) == Reach(child, q[k..]);
      TailEndsInRest(child.path, q);
      FilledIsValued(child, q[k..]);
  }

  // The pattern of a catch-all without a value.
  lemma {:induction false} UnfilledPattern<V>(t: Tree<V>, wildcardsAllowed: bool) returns (q: Pattern)
    requires Shape(t, wildcardsAllowed) && !Filled(t)
    ensures EndsInRest(q) && Reach(t, q).Some? && Get(t, q).None?
    decreases t
  {
    if t.catchAll.Some? && t.catchAll.value.leaf.None? {
      return [Rest];
    }
    if t.wildcard.Some? && !Filled(t.wildcard.value) {
      var y := UnfilledPattern(t.wildcard.value, false);
      q := [Wild] + y;
      assert q[1..] == y;
      return;
    }
    var i: nat :| i < |t.statics| && !Filled(t.statics[i]);
    var child := t.statics[i];
    var y := UnfilledPattern(child, child.path == "/");
    q := Chars(child.path) + y;
    ReachStatic(t, i, y);
  }

  lemma ReachStatic<V>(t: Tree<V>, i: nat, y: Pattern)
    requires InStep(t.indices, t.statics) && i < |t.statics|
    ensures Reach(t, Chars(t.statics[i].path) + y) == Reach(t.statics[i], y)
  {
    var child := t.statics[i];
    var q := Chars(child.path) + y;
    assert q[|child.path|..] == y && q[0] == Chars(child.path)[0] == Ch(child.path[0]);
    FindAt(t.indices, i, child.path[0]);
    assert Reach(t, q) == Into(child, q);
  }

  lemma {:induction false} WellFormedDoesNotDangle(path: string)
    requires Compile(path).Some?
    ensures Dangling(path).None?
    decreases |path|
  {
    if path != "" && path[0] != '*' {
      WellFormedDoesNotDangle(path[TokenEnd(path)..]);
    } else if path != "" {
      assert '/' in path <==> SlashIndex(path) < |path|;
    }
  }

  // ---------- Runs of insertions ----------

  // One call of Add; the path has its leading byte.
  datatype Insertion<+V> = Insertion(path: string, value: V)

  ghost predicate Callable<V>(adds: seq<Insertion<V>>) {
    forall i :: 0 <= i < |adds| ==> adds[i].path != ""
  }

  // The tree after a sequence of calls, accepted or refused.
  function Run<V>(adds: seq<Insertion<V>>): (t: Tree<V>)
    requires Callable(adds)
    ensures Shape(t, true)
  {
    if adds == [] then Empty()
    else
      var last := adds[|adds| - 1];
      Add(Run(adds[..|adds| - 1]), last.path, last.value).tree
  }

  function Accepted<V>(adds: seq<Insertion<V>>): bool
    requires adds != [] && Callable(adds)
  {
    var last := adds[|adds| - 1];
    Add(Run(adds[..|adds| - 1]), last.path, last.value).ok
  }

  // The plain map the accepted calls build up, one update per call.
  function Stored<V>(adds: seq<Insertion<V>>): map<Pattern, V>
    requires Callable(adds)
  {
    if adds == [] then map[]
    else
      var last := adds[|adds| - 1];
      var before := Stored(adds[..|adds| - 1]);
      var p := Compile(last.path[1..]);
      if Accepted(adds) && p.Some? then before[p.value := last.value] else before
  }

  function Lookup<V>(m: map<Pattern, V>, q: Pattern): Option<V> {
    if q in m then Some(m[q]) else None
  }

  lemma {:induction false} RunDenotesMap<V>(adds: seq<Insertion<V>>, q: Pattern)
    requires Callable(adds)
    ensures Get(Run(adds), q) == Lookup(Stored(adds), q)
  {
    if adds != [] {
      var before, last := adds[..|adds| - 1], adds[|adds| - 1];
      RunDenotesMap(before, q);
      AddPathUpdates(Run(before), true, last.path[1..], last.value, q);
    }
  }

  // Some call was refused at a catch-all of this pattern that is followed by more segments.
  ghost predicate Dangled<V>(adds: seq<Insertion<V>>, q: Pattern)
    requires Callable(adds)
  {
    exists k :: 0 <= k < |adds| && DanglesAt(adds[k], q)
  }

  ghost predicate DanglesAt<V>(add: Insertion<V>, q: Pattern)
    requires add.path != ""
  {
    Dangling(add.path[1..]).Some? && Dangling(add.path[1..]).value + [Rest] == q
  }

  // A catch-all node comes from an accepted call or from a dangling one.
  lemma {:induction false} NodesOfRun<V>(adds: seq<Insertion<V>>, q: Pattern)
    requires Callable(adds) && EndsInRest(q)
    ensures Reach(Run(adds), q).Some? <==> q in Stored(adds) || Dangled(adds, q)
  {
    if adds != [] {
      var n := |adds| - 1;
      var before, last := adds[..n], adds[n];
      NodesOfRun(before, q);
      AddPathNodes(Run(before), true, last.path[1..], last.value, q);
      DangledStep(adds, q);
      StoredStep(adds, q);
    } else {
      FreshReach<V>("", q);
    }
  }

  lemma DangledStep<V>(adds: seq<Insertion<V>>, q: Pattern)
    requires Callable(adds) && adds != []
    ensures Dangled(adds, q) <==> Dangled(adds[..|adds| - 1], q) || DanglesAt(adds[|adds| - 1], q)
  {
    var n := |adds| - 1;
    var before := adds[..n];
    assert forall k :: 0 <= k < n ==> before[k] == adds[k];
    if Dangled(before, q) {
      var k :| 0 <= k < n && DanglesAt(before[k], q);
      assert DanglesAt(adds[k], q);
    }
  }

  // The last call stores a well-formed catch-all unless its node is there under another name.
  lemma StoredStep<V>(adds: seq<Insertion<V>>, q: Pattern)
    requires Callable(adds) && adds != [] && EndsInRest(q)
    ensures
      var before, path := adds[..|adds| - 1], adds[|adds| - 1].path[1..];
      && (q in Stored(before) ==> q in Stored(adds))
      && (q in Stored(adds) ==> q in Stored(before) || Asked(path) == Some(q))
      && (Asked(path) == Some(q) && Dangling(path).None? && Reach(Run(before), q).None? ==> q in Stored(adds))
  {
    var before, last := adds[..|adds| - 1], adds[|adds| - 1];
    var path := last.path[1..];
    AddPathSucceeds(Run(before), true, path, last.value);
    if Compile(path).Some? { WellFormedDoesNotDangle(path); }
  }

  // Every refused catch-all with more segments after it has meanwhile got a value.
  ghost predicate Settled<V>(adds: seq<Insertion<V>>)
    requires Callable(adds)
  {
    forall k :: 0 <= k < |adds| && Dangling(adds[k].path[1..]).Some? ==>
      Dangling(adds[k].path[1..]).value + [Rest] in Stored(adds)
  }

  // After any calls, every catch-all node has a value exactly if the calls are settled.
  lemma {:induction false} SettledIsFilled<V>(adds: seq<Insertion<V>>)
    requires Callable(adds)
    ensures Filled(Run(adds)) <==> Settled(adds)
  {
    var t := Run(adds);
    if Filled(t) {
      forall k | 0 <= k < |adds| && Dangling(adds[k].path[1..]).Some?
        ensures Dangling(adds[k].path[1..]).value + [Rest] in Stored(adds)
      {
        var q := Dangling(adds[k].path[1..]).value + [Rest];
        assert DanglesAt(adds[k], q);
        NodesOfRun(adds, q);
        FilledIsValued(t, q);
        RunDenotesMap(adds, q);
      }
    } else {
      var q := UnfilledPattern(t, true);
      NodesOfRun(adds, q);
      RunDenotesMap(adds, q);
      var k :| 0 <= k < |adds| && DanglesAt(adds[k], q);
    }
  }

  // Calls that were all accepted are settled.
  lemma {:induction false} AcceptedRunIsSettled<V>(adds: seq<Insertion<V>>)
    requires Callable(adds)
    requires forall n :: 0 < n <= |adds| ==> Accepted(adds[..n])
    ensures Settled(adds)
  {
    forall k | 0 <= k < |adds| ensures Dangling(adds[k].path[1..]).None? {
      var calls := adds[..k + 1];
      assert Accepted(calls) && calls[..k] == adds[..k];
      AddPathSucceeds(Run(adds[..k]), true, adds[k].path[1..], adds[k].value);
      WellFormedDoesNotDangle(adds[k].path[1..]);
    }
  }

  // ---------- Lookups ----------

  // A stored pattern that matches and whose value is accepted.
  ghost predicate Eligible<V, R>(m: map<Pattern, V>, q: Pattern, path: string, matcher: Option<V> -> Option<R>) {
    q in m && Matches(q, path) && matcher(Some(m[q])).Some?
  }

  ghost predicate Prevails<V, R>(m: map<Pattern, V>, p: Pattern, path: string, matcher: Option<V> -> Option<R>) {
    Eligible(m, p, path, matcher) && forall q :: Eligible(m, q, path, matcher) && q != p ==> Better(p, q)
  }

  // A lookup answers from the plain map: the eligible pattern that takes precedence over all others,
  // with its value and captures, or nothing when none is eligible.
  ghost predicate AnswersFromMap<V, R>(adds: seq<Insertion<V>>, path: string, matcher: Option<V> -> Option<R>,
                                       unescape: string -> Option<string>)
    requires Callable(adds)
  {
    var m := Stored(adds);
    var rest := if path == "" then "" else path[1..];
    var h := LookupMatcher(Run(adds), path, matcher, unescape);
    if h.None? then forall q :: !Eligible(m, q, rest, matcher)
    else exists p :: Prevails(m, p, rest, matcher)
           && h.value == Hit(Some(m[p]), Captures(p, rest, unescape), matcher(Some(m[p])).value)
  }

  lemma {:induction false} SettledAnswers<V, R>(adds: seq<Insertion<V>>, path: string,
                                                matcher: Option<V> -> Option<R>, unescape: string -> Option<string>)
    requires Callable(adds) && Settled(adds)
    ensures AnswersFromMap(adds, path, matcher, unescape)
  {
    var t, m := Run(adds), Stored(adds);
    var rest := if path == "" then "" else path[1..];
    SettledIsFilled(adds);
    var p := SearchIsBest(t, true, rest, matcher, unescape);
    forall q ensures Candidate(t, q, rest, matcher) <==> Eligible(m, q, rest, matcher) {
      RunDenotesMap(adds, q);
    }
    RunDenotesMap(adds, p);
    if LookupMatcher(t, path, matcher, unescape).Some? {
      assert Prevails(m, p, rest, matcher);
    }
  }

  // Accepts a missing value and nothing else.
  function OnlyMissing<V, R>(result: R): Option<V> -> Option<R> {
    (o: Option<V>) => if o.None? then Some(result) else None
  }

  lemma {:induction false} MissingHit<V, R>(t: Tree<V>, path: string, result: R, unescape: string -> Option<string>)
    ensures
      var h := Search(t, path, OnlyMissing(result), unescape);
      h.Some? ==> h.value.leaf.None?
    decreases t
  {
    if path != "" {
      var o := StaticFor(t, path);
      if o.Some? { MissingHit(o.value, path[|o.value.path|..], result, unescape); }
      if t.wildcard.Some? { MissingHit(t.wildcard.value, path[SlashIndex(path)..], result, unescape); }
    }
  }

  // Below a catch-all without a value some path is answered with the missing value.
  lemma {:induction false} UnfilledHit<V, R>(t: Tree<V>, wildcardsAllowed: bool, result: R,
                                             unescape: string -> Option<string>) returns (path: string)
    requires Shape(t, wildcardsAllowed) && !Filled(t)
    ensures path != "" && Search(t, path, OnlyMissing(result), unescape).Some?
    ensures !wildcardsAllowed ==> path[0] in t.indices
    decreases t
  {
    if t.catchAll.Some? && t.catchAll.value.leaf.None? {
      return "x";
    }
    if t.wildcard.Some? && !Filled(t.wildcard.value) {
      var below := UnfilledHit(t.wildcard.value, false, result, unescape);
      assert below[0] == '/';
      path := "x" + below;
      assert SlashIndex(path) == 1 && path[1..] == below;
      return;
    }
    var i: nat :| i < |t.statics| && !Filled(t.statics[i]);
    var child := t.statics[i];
    var below := UnfilledHit(child, child.path == "/", result, unescape);
    path := child.path + below;
    SearchStatic(t, i, below, result, unescape);
  }

  lemma SearchStatic<V, R>(t: Tree<V>, i: nat, below: string, result: R, unescape: string -> Option<string>)
    requires InStep(t.indices, t.statics) && i < |t.statics|
    requires Search(t.statics[i], below, OnlyMissing(result), unescape).Some?
    ensures Search(t, t.statics[i].path + below, OnlyMissing(result), unescape).Some?
  {
    var child := t.statics[i];
    var path := child.path + below;
    assert path[|child.path|..] == below && child.path <= path;
    FindAt(t.indices, i, child.path[0]);
  }

  // Lookups answer from the plain map, for every path and matcher, exactly if the calls are settled.
  // The result is any value a matcher can return.
  lemma {:induction false} RunLookup<V, R>(adds: seq<Insertion<V>>, result: R, unescape: string -> Option<string>)
    requires Callable(adds)
    ensures Settled(adds) <==>
      forall path, matcher: Option<V> -> Option<R> :: AnswersFromMap(adds, path, matcher, unescape)
  {
    if Settled(adds) {
      forall path, matcher: Option<V> -> Option<R> ensures AnswersFromMap(adds, path, matcher, unescape) {
        SettledAnswers(adds, path, matcher, unescape);
      }
    } else {
      SettledIsFilled(adds);
      var rest := UnfilledHit(Run(adds), true, result, unescape);
      MissingHit(Run(adds), rest, result, unescape);
      var path := "/" + rest;
      assert path[1..] == rest;
      assert !AnswersFromMap(adds, path, OnlyMissing(result), unescape);
    }
  }

  // A refused catch-all does change later lookups: nothing is stored, and yet a lookup
  // reports a hit without a value.
  lemma DanglingCatchAllAnswers()
    ensures
      var adds := [Insertion("/*a/b", 1)];
      && Callable(adds) && !Accepted(adds) && Stored(adds) == map[]
      && LookupMatcher(Run(adds), "/x", (o: Option<int>) => Some(o), s => Some(s))
         == Some(Hit(None, ["x"], None))
  {
    var adds := [Insertion("/*a/b", 1)];
    assert adds[..0] == [];
    assert "/*a/b"[1..] == "*a/b";
    assert SlashIndex("*a/b") == 2;
    assert "/x"[1..] == "x";
    assert "*a/b"[1..2] == "a" && "*a/b"[2] == '/';
    assert "*a/b"[1..] == "a/b" && "a/b"[1] != "a"[0];
    assert Add(Empty<int>(), "/*a/b", 1) == AddCatchAll(Empty<int>(), "*a/b", 1);
    assert Run(adds) == Empty<int>().(catchAll := Some(Fresh("a", true)));
    assert SlashIndex("x") == 1;
  }
}
