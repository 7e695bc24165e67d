/**
 What the path tree means: it denotes a finite map from patterns to values, each insertion is
 one map update, and lookup returns the best stored pattern that matches and is accepted.
 */
module PathTreeMeaning {
  import opened Options
  import opened PathPattern
  import opened PathTree

  // ---------- The map a tree denotes ----------

  // The node a pattern leads to.
  function Reach<V>(t: Tree<V>, p: Pattern): Option<Tree<V>>
    decreases t, 0
  {
    if p == [] then Some(t)
    else match p[0]
      case Ch(c) =>
        var i := Find(t.indices, c);
        if i < |t.statics| then Into(t.statics[i], p) else None
      case Wild => if t.wildcard.Some? then Reach(t.wildcard.value, p[1..]) else None
      case Rest => if |p| == 1 then t.catchAll else None
  }

  // Through the text of a static child.
  function Into<V>(child: Tree<V>, p: Pattern): Option<Tree<V>>
    decreases child, 1
  {
    if Chars(child.path) <= p then Reach(child, p[|child.path|..]) else None
  }

  function Leaf<V>(o: Option<Tree<V>>): Option<V> {
    if o.Some? then o.value.leaf else None
  }

  // The value stored for a pattern.
  function Get<V>(t: Tree<V>, p: Pattern): Option<V> {
    Leaf(Reach(t, p))
  }

  // ---------- Restructuring children keeps the map ----------

  lemma FindAt(s: seq<char>, i: nat, c: char)
    requires Distinct(s) && i < |s| && s[i] == c
    ensures Find(s, c) == i
  {
  }

  lemma FindRotated(s: seq<char>, i: nat, j: nat, c: char)
    requires Distinct(s) && j <= i < |s|
    ensures
      var f := Find(Rotate(s, i, j), c);
      if f < |s| then From(f, i, j) == Find(s, c) else Find(s, c) == |s|
  {
    var r := Rotate(s, i, j);
    var f, g := Find(r, c), Find(s, c);
    if g < |s| {
      var at := if g == i then j else if j <= g < i then g + 1 else g;
      assert r[at] == s[g];
    }
    if f < |s| {
      FindAt(s, From(f, i, j), c);
    }
  }

  lemma FindAppended(s: seq<char>, x: char, c: char)
    requires x !in s
    ensures Find(s + [x], c) == if c == x then |s| else if Find(s, c) < |s| then Find(s, c) else |s| + 1
  {
    var f, g := Find(s + [x], c), Find(s, c);
    if f < |s| { assert s[f] == c; }
    assert (s + [x])[|s|] == x;
    if g < |s| { assert (s + [x])[g] == c; }
  }

  lemma ReorderReach<V>(t: Tree<V>, i: nat, child: Tree<V>, updated: Tree<V>, q: Pattern)
    requires InStep(t.indices, t.statics) && i < |t.indices|
    requires q != [] && q[0].Ch?
    ensures Reach(Reorder(t, i, child, updated), q)
         == if q[0].c == t.indices[i] then Into(updated, q) else Reach(t, q)
  {
    var bumped := t.statics[i := child];
    var j := Slot(child.priority, bumped, i);
    FindRotated(t.indices, i, j, q[0].c);
    if q[0].c == t.indices[i] { FindAt(t.indices, i, q[0].c); }
  }

  lemma AppendReach<V>(t: Tree<V>, child: Tree<V>, q: Pattern)
    requires InStep(t.indices, t.statics) && child.path != "" && child.path[0] !in t.indices
    requires q != [] && q[0].Ch?
    ensures Reach(Append(t, child), q)
         == if q[0].c == child.path[0] then Into(child, q) else Reach(t, q)
  {
    FindAppended(t.indices, child.path[0], q[0].c);
  }

  lemma CharsPrefix(a: string, b: string, q: Pattern)
    ensures Chars(a + b) <= q <==> Chars(a) <= q && Chars(b) <= q[|a|..]
    ensures Chars(a + b) <= q ==> q[|a|..][|b|..] == q[|a + b|..]
  {
    assert Chars(a + b) == Chars(a) + Chars(b);
    if Chars(a) <= q && Chars(b) <= q[|a|..] {
      assert q == q[..|a|] + q[|a|..] == Chars(a) + (q[|a|..][..|b|] + q[|a|..][|b|..]);
    }
  }

  // Splitting a node changes neither the value of a pattern nor its catch-all.
  lemma {:induction false} SplitInto<V>(child: Tree<V>, token: string, q: Pattern)
    requires child.path != "" && token != "" && child.path[0] == token[0]
    ensures
      var top := SplitCommonPrefix(child, token).0;
      && Leaf(Into(top, q)) == Leaf(Into(child, q))
      && (q != [] && q[|q| - 1] == Rest ==> Into(top, q) == Into(child, q))
  {
    if !(child.path <= token) {
      var top := SplitCommonPrefix(child, token).0;
      assert child.path == top.path + top.statics[0].path;
      SplitNodeInto(child, top, top.statics[0], q);
    }
  }

  // A node split in two.
  lemma {:induction false} SplitNodeInto<V>(child: Tree<V>, top: Tree<V>, low: Tree<V>, q: Pattern)
    requires low.path != "" && low == child.(path := low.path) && child.path == top.path + low.path
    requires top == Tree(top.path, top.priority, [low.path[0]], [low], None, None, false, None)
    ensures Leaf(Into(top, q)) == Leaf(Into(child, q))
    ensures q != [] && q[|q| - 1] == Rest ==> Into(top, q) == Into(child, q)
  {
    CharsPrefix(top.path, low.path, q);
    if Chars(top.path) <= q {
      SplitReach(top, low, q[|top.path|..]);
      if Chars(child.path) <= q {
        assert Into(child, q) == Reach(child, q[|child.path|..]);
        assert Into(low, q[|top.path|..]) == Reach(low, q[|child.path|..]);
        SamePosition(child, low, q[|child.path|..]);
        if q != [] && q[|child.path|..] == [] { StaticIsNotRest(child.path, q); }
      }
    }
  }

  lemma StaticIsNotRest(s: string, q: Pattern)
    requires Chars(s) <= q && q != [] && q[|s|..] == []
    ensures q[|q| - 1] != Rest
  {
    assert q == Chars(s);
  }

  lemma {:induction false} SplitReach<V>(top: Tree<V>, low: Tree<V>, q: Pattern)
    requires low.path != "" && top == Tree(top.path, top.priority, [low.path[0]], [low], None, None, false, None)
    ensures q == [] ==> Leaf(Reach(top, q)) == None
    ensures q != [] ==> Reach(top, q) == Into(low, q)
  {
    assert Chars(low.path)[0] == Ch(low.path[0]);
    if q != [] && q[0].Ch? {
      assert Find(top.indices, q[0].c) == if q[0].c == low.path[0] then 0 else 1;
    }
  }

  // What is below a node does not depend on the node's own text.
  lemma SamePosition<V>(a: Tree<V>, b: Tree<V>, q: Pattern)
    requires b == a.(path := b.path)
    ensures q != [] ==> Reach(a, q) == Reach(b, q)
    ensures Leaf(Reach(a, q)) == Leaf(Reach(b, q))
  {
  }

  // ---------- Insertion is one map update ----------

  // The name a path definition gives to its catch-all.
  function CatchAllName(path: string): Option<string>
    decreases |path|
  {
    if path == "" then None
    else if path[0] == '*' then Some(path[1..])
    else CatchAllName(path[TokenEnd(path)..])
  }

  // A catch-all definition must repeat the name already used at its position.
  ghost predicate NameFits<V>(t: Tree<V>, path: string)
    requires Compile(path).Some?
  {
    CatchAllName(path).Some? ==>
      var o := Reach(t, Compile(path).value);
      o.Some? ==> o.value.path == CatchAllName(path).value
  }

  lemma {:induction false} CatchAllIsLast(path: string)
    requires Compile(path).Some?
    ensures CatchAllName(path).Some? <==>
            Compile(path).value != [] && Compile(path).value[|Compile(path).value| - 1] == Rest
    decreases |path|
  {
    if path != "" && path[0] != '*' {
      var end := TokenEnd(path);
      CatchAllIsLast(path[end..]);
      var tail := Compile(path[end..]).value;
      assert exists head :: Compile(path).value == head + tail && head != [] && Rest !in head by {
        var head := if path[0] == '/' then [Ch('/')] else if path[0] == ':' then [Wild] else Chars(path[..end]);
        assert Compile(path).value == head + tail;
      }
      var head :| Compile(path).value == head + tail && head != [] && Rest !in head;
      if tail == [] {
        assert Compile(path).value == head;
        assert head[|head| - 1] in head;
      }
    }
  }

  // The value of a pattern after an insertion that succeeded, and after one that was refused.
  ghost predicate Updated<V>(before: Tree<V>, r: Added<V>, path: string, v: V, q: Pattern) {
    if r.ok && Compile(path) == Some(q) then Get(r.tree, q) == Some(v)
    else Get(r.tree, q) == Get(before, q)
  }

  lemma AddCatchAllUpdates<V>(t: Tree<V>, path: string, v: V, q: Pattern)
    requires Shape(t, true) && path != "" && path[0] == '*'
    ensures AddCatchAll(t, path, v).ok ==> Compile(path).Some?
    ensures Updated(t, AddCatchAll(t, path, v), path, v, q)
  {
    assert '/' in path <==> SlashIndex(path) < |path|;
    assert q != [] && q[0] == Rest && |q| == 1 ==> q == [Rest];
  }

  lemma WildcardUpdates<V>(t: Tree<V>, path: string, v: V, sub: Added<V>, q: Pattern)
    requires path != "" && path[0] == ':'
    requires sub.ok ==> Compile(path[TokenEnd(path)..]).Some?
    requires Updated(WildcardOf(t), sub, path[TokenEnd(path)..], v, if q == [] then [] else q[1..])
    ensures sub.ok ==> Compile(path).Some?
    ensures Updated(t, Added(t.(wildcard := Some(sub.tree)), sub.ok), path, v, q)
  {
    if q != [] {
      assert q == [q[0]] + q[1..];
      if Compile(path) == Some(q) {
        assert q[1..] == Compile(path[TokenEnd(path)..]).value;
      }
      assert t.wildcard.None? ==> Get(WildcardOf(t), q[1..]) == None;
    }
  }

  lemma {:induction false} AddPathUpdates<V>(t: Tree<V>, wildcardsAllowed: bool, path: string, v: V, q: Pattern)
    requires Shape(t, wildcardsAllowed) && Startable(path, wildcardsAllowed)
    ensures AddPath(t, wildcardsAllowed, path, v).ok ==> Compile(path).Some?
    ensures Updated(t, AddPath(t, wildcardsAllowed, path, v), path, v, q)
    decreases |path|, 1
  {
    if path == "" {
    } else if path[0] == '*' {
      AddCatchAllUpdates(t, path, v, q);
    } else if path[0] == ':' {
      var end := TokenEnd(path);
      AddPathUpdates(WildcardOf(t), false, path[end..], v, if q == [] then [] else q[1..]);
      WildcardUpdates(t, path, v, AddPath(WildcardOf(t), false, path[end..], v), q);
    } else if !HasMark(path[..TokenEnd(path)]) {
      AddStaticUpdates(t, wildcardsAllowed, path, v, q);
    }
  }

  lemma {:induction false} CompileToken(path: string, k: nat)
    requires path != "" && path[0] !in ":*" && !HasMark(path[..TokenEnd(path)]) && 0 < k <= TokenEnd(path)
    ensures Compile(path) == Prepend(Chars(path[..k]), Compile(path[k..]))
  {
    if path[0] == '/' {
      assert Chars(path[..1]) == [Ch('/')];
    } else {
      CompileSuffix(path, k);
    }
  }

  lemma {:induction false} AddStaticUpdates<V>(t: Tree<V>, wildcardsAllowed: bool, path: string, v: V, q: Pattern)
    requires Shape(t, wildcardsAllowed)
    requires path != "" && path[0] !in ":*" && !HasMark(path[..TokenEnd(path)])
    ensures AddStatic(t, wildcardsAllowed, path, v).ok ==> Compile(path).Some?
    ensures Updated(t, AddStatic(t, wildcardsAllowed, path, v), path, v, q)
    decreases |path|, 0
  {
    StaticToken(path);
    var token := path[..TokenEnd(path)];
    var i := Find(t.indices, path[0]);
    if i < |t.indices| {
      var (top, k) := SplitCommonPrefix(t.statics[i], token);
      SplitKeepsShape(t.statics[i], token);
      assert path[..k] == token[..k];
      var sub := AddPath(Bump(top), top.path == "/", path[k..], v);
      AddPathUpdates(Bump(top), top.path == "/", path[k..], v, if Chars(top.path) <= q then q[k..] else []);
      ReorderUpdates(t, i, path, v, sub, q);
    } else {
      var child := Fresh<V>(token, false);
      var sub := AddPath(child, token == "/", path[|token|..], v);
      AddPathUpdates(child, token == "/", path[|token|..], v, if Chars(token) <= q then q[|token|..] else []);
      AppendUpdates(t, path, v, sub, q);
    }
  }

  lemma ReorderUpdates<V>(t: Tree<V>, i: nat, path: string, v: V, sub: Added<V>, q: Pattern)
    requires InStep(t.indices, t.statics) && i < |t.indices|
    requires path != "" && path[0] !in ":*" && !HasMark(path[..TokenEnd(path)]) && path[0] == t.indices[i]
    requires
      var (top, k) := SplitCommonPrefix(t.statics[i], path[..TokenEnd(path)]);
      && sub.tree.path == top.path
      && (sub.ok ==> Compile(path[k..]).Some?)
      && (Chars(top.path) <= q ==> Updated(Bump(top), sub, path[k..], v, q[k..]))
    ensures
      var (top, k) := SplitCommonPrefix(t.statics[i], path[..TokenEnd(path)]);
      var r := Added(Reorder(t, i, Bump(top), sub.tree), sub.ok);
      (r.ok ==> Compile(path).Some?) && Updated(t, r, path, v, q)
  {
    var token := path[..TokenEnd(path)];
    var (top, k) := SplitCommonPrefix(t.statics[i], token);
    assert path[..k] == token[..k];
    CompileToken(path, k);
    if q != [] && q[0] == Ch(path[0]) {
      IntoUpdates(Bump(top), sub, path, k, v, q);
      ReorderReach(t, i, Bump(top), sub.tree, q);
      SplitInto(t.statics[i], token, q);
      BumpInto(top, q);
      FindAt(t.indices, i, path[0]);
    } else {
      CompileStartsWith(path, q);
      ReorderElsewhere(t, i, Bump(top), sub.tree, q);
    }
  }

  lemma CompileStartsWith(path: string, q: Pattern)
    requires path != "" && path[0] !in ":*" && (q == [] || q[0] != Ch(path[0]))
    ensures Compile(path) != Some(q)
  {
  }

  lemma ReorderElsewhere<V>(t: Tree<V>, i: nat, child: Tree<V>, updated: Tree<V>, q: Pattern)
    requires InStep(t.indices, t.statics) && i < |t.indices|
    requires q == [] || q[0] != Ch(t.indices[i])
    ensures Get(Reorder(t, i, child, updated), q) == Get(t, q)
  {
    if q != [] && q[0].Ch? { ReorderReach(t, i, child, updated, q); }
  }

  lemma AppendUpdates<V>(t: Tree<V>, path: string, v: V, sub: Added<V>, q: Pattern)
    requires InStep(t.indices, t.statics)
    requires path != "" && path[0] !in ":*" && !HasMark(path[..TokenEnd(path)]) && path[0] !in t.indices
    requires
      var token := path[..TokenEnd(path)];
      && sub.tree.path == token
      && (sub.ok ==> Compile(path[|token|..]).Some?)
      && (Chars(token) <= q ==> Updated(Fresh<V>(token, false), sub, path[|token|..], v, q[|token|..]))
    ensures
      var r := Added(Append(t, sub.tree), sub.ok);
      (r.ok ==> Compile(path).Some?) && Updated(t, r, path, v, q)
  {
    var token := path[..TokenEnd(path)];
    CompileToken(path, |token|);
    IntoUpdates(Fresh<V>(token, false), sub, path, |token|, v, q);
    if Compile(path) == Some(q) { assert q[0] == Ch(path[0]); }
    FreshIsEmpty<V>(token, q);
    if q != [] && q[0].Ch? {
      AppendReach(t, sub.tree, q);
      if q[0].c == path[0] { assert Find(t.indices, path[0]) == |t.indices|; }
    }
  }

  lemma FreshIsEmpty<V>(path: string, q: Pattern)
    ensures Leaf(Into(Fresh<V>(path, false), q)) == None
  {
  }

  lemma BumpInto<V>(t: Tree<V>, q: Pattern)
    ensures Leaf(Into(Bump(t), q)) == Leaf(Into(t, q))
    ensures q != [] && q[|q| - 1] == Rest ==> Into(Bump(t), q) == Into(t, q)
  {
  }

  // The update below a static child, seen through its text.
  lemma IntoUpdates<V>(child: Tree<V>, sub: Added<V>, path: string, k: nat, v: V, q: Pattern)
    requires k <= |path| && child.path == path[..k] == sub.tree.path
    requires Compile(path) == Prepend(Chars(path[..k]), Compile(path[k..]))
    requires Chars(child.path) <= q ==> Updated(child, sub, path[k..], v, q[k..])
    ensures if sub.ok && Compile(path) == Some(q) then Leaf(Into(sub.tree, q)) == Some(v)
            else Leaf(Into(sub.tree, q)) == Leaf(Into(child, q))
  {
    if Chars(child.path) <= q {
      assert q == Chars(child.path) + q[k..];
      if Compile(path[k..]).Some? {
        assert (Chars(child.path) + Compile(path[k..]).value)[k..] == Compile(path[k..]).value;
      }
    }
  }
}
