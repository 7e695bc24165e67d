/**
 The path tree as a value: insertion with node splitting and priority reordering, lookup with
 backtracking, and the structural invariant. The mutable nodes refine these functions in
 module PathNode; what they mean in terms of patterns is proved in module PathTreeMeaning.
 */
module PathTree {
  import opened Options
  import opened PathPattern

  datatype Tree<+V> = Tree(
    path: string,
    priority: nat,
    indices: seq<char>,
    statics: seq<Tree<V>>,
    wildcard: Option<Tree<V>>,
    catchAll: Option<Tree<V>>,
    isCatchAll: bool,
    leaf: Option<V>)

  function Fresh<V>(path: string, isCatchAll: bool): Tree<V> {
    Tree(path, 0, [], [], None, None, isCatchAll, None)
  }

  // The outcome of an insertion: the tree is changed even when the path is refused.
  datatype Added<+V> = Added(tree: Tree<V>, ok: bool)

  // ---------- Helpers of insertion ----------

  // The position of a byte, or the length when it is absent.
  function Find(s: seq<char>, c: char): (i: nat)
    ensures i <= |s|
    ensures i < |s| ==> s[i] == c
    ensures forall k :: 0 <= k < i ==> s[k] != c
  {
    if s == [] || s[0] == c then 0 else 1 + Find(s[1..], c)
  }

  function TokenEnd(path: string): (end: nat)
    requires path != ""
    ensures 0 < end <= |path|
  {
    if path[0] == '/' then 1 else SlashIndex(path)
  }

  function CommonPrefixLen(x: string, y: string): (n: nat)
    ensures n <= |x| && n <= |y| && x[..n] == y[..n]
    ensures n < |x| && n < |y| ==> x[n] != y[n]
  {
    if x == "" || y == "" || x[0] != y[0] then 0
    else
      var n := CommonPrefixLen(x[1..], y[1..]);
      assert x[..n + 1] == [x[0]] + x[1..][..n] && y[..n + 1] == [y[0]] + y[1..][..n];
      n + 1
  }

  // The node under which the rest of the token belongs, and how much of the token it covers.
  function SplitCommonPrefix<V>(child: Tree<V>, token: string): (r: (Tree<V>, nat))
    requires child.path != "" && token != "" && child.path[0] == token[0]
    ensures 0 < r.1 <= |token| && r.0.path == token[..r.1] && r.0.priority == child.priority
  {
    if child.path <= token then (child, |child.path|)
    else
      var k := CommonPrefixLen(child.path, token);
      (Tree(token[..k], child.priority, [child.path[k]], [child.(path := child.path[k..])],
            None, None, false, None), k)
  }

  // Where bubbling leaves an element of the given priority that stands at position i.
  function Slot<V>(priority: nat, statics: seq<Tree<V>>, i: nat): (j: nat)
    requires i <= |statics|
    ensures j <= i
    ensures forall k :: j <= k < i ==> priority > statics[k].priority
    ensures j > 0 ==> priority <= statics[j - 1].priority
  {
    if i > 0 && priority > statics[i - 1].priority then Slot(priority, statics, i - 1) else i
  }

  // The position in s of the element that Rotate(s, i, j) has at k.
  function From(k: nat, i: nat, j: nat): nat
    requires j <= i
  {
    if k == j then i else if j < k <= i then k - 1 else k
  }

  // s with the element at i moved up to j.
  function Rotate<T>(s: seq<T>, i: nat, j: nat): (r: seq<T>)
    requires j <= i < |s|
    ensures |r| == |s|
    ensures forall k :: 0 <= k < |s| ==> r[k] == s[From(k, i, j)]
  {
    seq(|s|, k requires 0 <= k < |s| => s[From(k, i, j)])
  }

  // ---------- Invariant ----------

  // The text of a static node: a single "/", or text without separators and wildcard marks.
  predicate StaticText(s: string) {
    s == "/" || (s != "" && '/' !in s && !HasMark(s))
  }

  ghost predicate Distinct(s: seq<char>) {
    forall i, j :: 0 <= i < j < |s| ==> s[i] != s[j]
  }

  ghost predicate ByPriority<V>(s: seq<Tree<V>>) {
    forall i, j :: 0 <= i < j < |s| ==> s[i].priority >= s[j].priority
  }

  // staticIndices holds the distinct first bytes of the children, which stand by priority.
  ghost predicate InStep<V>(indices: seq<char>, statics: seq<Tree<V>>) {
    && |indices| == |statics|
    && Distinct(indices)
    && (forall i :: 0 <= i < |statics| ==>
          StaticText(statics[i].path) && statics[i].path[0] == indices[i])
    && ByPriority(statics)
  }

  ghost predicate CatchAllNode<V>(t: Tree<V>) {
    t == Fresh<V>(t.path, true).(leaf := t.leaf) && '/' !in t.path
  }

  // The structural invariant; wildcards may hang only off the root and off "/" nodes.
  ghost predicate Shape<V>(t: Tree<V>, wildcardsAllowed: bool)
    decreases t
  {
    && InStep(t.indices, t.statics)
    && (forall i :: 0 <= i < |t.statics| ==> Shape(t.statics[i], t.statics[i].path == "/"))
    && (t.wildcard.Some? ==>
          && wildcardsAllowed
          && (forall i :: 0 <= i < |t.wildcard.value.indices| ==> t.wildcard.value.indices[i] == '/')
          && Shape(t.wildcard.value, false))
    && (t.catchAll.Some? ==> wildcardsAllowed && CatchAllNode(t.catchAll.value))
  }

  // A path may start with a wildcard only where one may be hung.
  predicate Startable(path: string, wildcardsAllowed: bool) {
    path != "" && path[0] in ":*" ==> wildcardsAllowed
  }

  // ---------- The invariant through the helpers ----------

  lemma StaticPiece(s: string, a: nat, b: nat)
    requires StaticText(s) && a < b <= |s|
    ensures StaticText(s[a..b])
  {
    assert forall c :: c in s[a..b] ==> c in s;
    assert |s| == 1 ==> s[a..b] == s;
  }

  lemma SplitKeepsShape<V>(child: Tree<V>, token: string)
    requires StaticText(child.path) && StaticText(token) && child.path[0] == token[0]
    requires Shape(child, child.path == "/")
    ensures
      var (top, k) := SplitCommonPrefix(child, token);
      && StaticText(top.path)
      && Shape(top, top.path == "/")
      && (child.path == "/" <==> top.path == "/")
  {
    if !(child.path <= token) {
      SplitTexts(child.path, token);
      var k := CommonPrefixLen(child.path, token);
      var low := child.(path := child.path[k..]);
      assert Shape(low, false);
    }
  }

  // Where two static texts part, both halves of the first are static texts other than "/".
  lemma SplitTexts(s: string, token: string)
    requires StaticText(s) && StaticText(token) && s[0] == token[0] && !(s <= token)
    ensures
      var k := CommonPrefixLen(s, token);
      && 0 < k < |s| && s != "/"
      && StaticText(s[k..]) && s[k..] != "/" && StaticText(token[..k]) && token[..k] != "/"
  {
    var k := CommonPrefixLen(s, token);
    assert s[..k] == token[..k];
    assert s[..|s|] == s;
    StaticPiece(s, k, |s|);
    StaticPiece(token, 0, k);
    assert s[k] in s[k..] && s[0] == token[..k][0];
  }

  lemma RotateKeepsPriority<V>(statics: seq<Tree<V>>, i: nat, child: Tree<V>)
    requires ByPriority(statics) && i < |statics| && child.priority >= statics[i].priority
    ensures
      var bumped := statics[i := child];
      ByPriority(Rotate(bumped, i, Slot(child.priority, bumped, i)))
  {
    var bumped := statics[i := child];
    var j := Slot(child.priority, bumped, i);
    var r := Rotate(bumped, i, j);
    forall a, b | 0 <= a < b < |r| ensures r[a].priority >= r[b].priority {
      var x, y := From(a, i, j), From(b, i, j);
      assert r[a] == bumped[x] && r[b] == bumped[y];
      if a < j && j > 0 { assert bumped[a].priority >= bumped[j - 1].priority; }
    }
  }

  lemma RotateKeepsInStep<V>(indices: seq<char>, statics: seq<Tree<V>>, i: nat, child: Tree<V>)
    requires InStep(indices, statics) && i < |statics|
    requires StaticText(child.path) && child.path[0] == indices[i]
    requires child.priority >= statics[i].priority
    ensures
      var bumped := statics[i := child];
      var j := Slot(child.priority, bumped, i);
      InStep(Rotate(indices, i, j), Rotate(bumped, i, j))
  {
    var bumped := statics[i := child];
    var j := Slot(child.priority, bumped, i);
    RotateKeepsPriority(statics, i, child);
    var r, ix := Rotate(bumped, i, j), Rotate(indices, i, j);
    forall k | 0 <= k < |r| ensures StaticText(r[k].path) && r[k].path[0] == ix[k] {
      assert r[k] == bumped[From(k, i, j)] && ix[k] == indices[From(k, i, j)];
    }
    forall a, b | 0 <= a < b < |ix| ensures ix[a] != ix[b] {
      assert ix[a] == indices[From(a, i, j)] && ix[b] == indices[From(b, i, j)];
    }
  }

  // A child may be replaced by one of the same text and priority.
  lemma ReplaceKeepsInStep<V>(indices: seq<char>, statics: seq<Tree<V>>, j: nat, child: Tree<V>)
    requires InStep(indices, statics) && j < |statics|
    requires child.path == statics[j].path && child.priority == statics[j].priority
    ensures InStep(indices, statics[j := child])
  {
  }

  lemma AppendKeepsInStep<V>(indices: seq<char>, statics: seq<Tree<V>>, child: Tree<V>)
    requires InStep(indices, statics)
    requires StaticText(child.path) && child.path[0] !in indices && child.priority == 0
    ensures InStep(indices + [child.path[0]], statics + [child])
  {
  }

  // ---------- Insertion ----------

  function Bump<V>(t: Tree<V>): Tree<V> {
    t.(priority := t.priority + 1)
  }

  // The children after the one at i became child, moved by priority, and was then replaced by
  // its descendant-updated form.
  function Reorder<V>(t: Tree<V>, i: nat, child: Tree<V>, updated: Tree<V>): (r: Tree<V>)
    requires i < |t.indices| == |t.statics|
  {
    var bumped := t.statics[i := child];
    var j := Slot(child.priority, bumped, i);
    t.(indices := Rotate(t.indices, i, j), statics := Rotate(bumped, i, j)[j := updated])
  }

  lemma ReorderKeepsShape<V>(t: Tree<V>, wildcardsAllowed: bool, i: nat, child: Tree<V>, updated: Tree<V>)
    requires Shape(t, wildcardsAllowed) && i < |t.indices|
    requires StaticText(child.path) && child.path[0] == t.indices[i]
    requires child.priority >= t.statics[i].priority
    requires updated.path == child.path && updated.priority == child.priority
    requires Shape(updated, updated.path == "/")
    ensures Shape(Reorder(t, i, child, updated), wildcardsAllowed)
    ensures forall k :: 0 <= k < |t.indices| ==> Reorder(t, i, child, updated).indices[k] in t.indices
  {
    ReorderKeepsInStep(t, i, child, updated);
    var r := Reorder(t, i, child, updated);
    forall k | 0 <= k < |r.statics| ensures Shape(r.statics[k], r.statics[k].path == "/") {
      ReorderedAt(t, i, child, updated, k);
    }
  }

  // A child of the reordered node is the updated one or an old one.
  lemma ReorderedAt<V>(t: Tree<V>, i: nat, child: Tree<V>, updated: Tree<V>, k: nat)
    requires i < |t.indices| == |t.statics| && k < |t.statics|
    ensures var c := Reorder(t, i, child, updated).statics[k]; c == updated || c in t.statics
  {
    var bumped := t.statics[i := child];
    var j := Slot(child.priority, bumped, i);
    if k != j { assert Rotate(bumped, i, j)[k] == bumped[From(k, i, j)] == t.statics[From(k, i, j)]; }
  }

  lemma ReorderKeepsInStep<V>(t: Tree<V>, i: nat, child: Tree<V>, updated: Tree<V>)
    requires InStep(t.indices, t.statics) && i < |t.indices|
    requires StaticText(child.path) && child.path[0] == t.indices[i]
    requires child.priority >= t.statics[i].priority
    requires updated.path == child.path && updated.priority == child.priority
    ensures var r := Reorder(t, i, child, updated); InStep(r.indices, r.statics)
  {
    var bumped := t.statics[i := child];
    var j := Slot(child.priority, bumped, i);
    var rotated := Rotate(bumped, i, j);
    RotateKeepsInStep(t.indices, t.statics, i, child);
    assert rotated[j] == bumped[From(j, i, j)];
    ReplaceKeepsInStep(Rotate(t.indices, i, j), rotated, j, updated);
  }

  function Append<V>(t: Tree<V>, child: Tree<V>): Tree<V>
    requires child.path != ""
  {
    t.(indices := t.indices + [child.path[0]], statics := t.statics + [child])
  }

  lemma AppendKeepsShape<V>(t: Tree<V>, wildcardsAllowed: bool, child: Tree<V>)
    requires Shape(t, wildcardsAllowed)
    requires StaticText(child.path) && child.path[0] !in t.indices && child.priority == 0
    requires Shape(child, child.path == "/")
    ensures Shape(Append(t, child), wildcardsAllowed)
  {
    AppendKeepsInStep(t.indices, t.statics, child);
  }

  function CatchAllOf<V>(t: Tree<V>, name: string): Tree<V> {
    if t.catchAll.Some? then t.catchAll.value else Fresh(name, true)
  }

  function WildcardOf<V>(t: Tree<V>): Tree<V> {
    if t.wildcard.Some? then t.wildcard.value else Fresh("wildcard", false)
  }

  lemma StaticToken(path: string)
    requires path != "" && path[0] !in ":*" && !HasMark(path[..TokenEnd(path)])
    ensures StaticText(path[..TokenEnd(path)])
    ensures forall k :: 0 < k <= TokenEnd(path) ==> Startable(path[k..], path[..k] == "/")
  {
    forall k | 0 < k <= TokenEnd(path) ensures Startable(path[k..], path[..k] == "/") {
      if k < TokenEnd(path) { assert path[k] == path[..TokenEnd(path)][k]; }
    }
  }

  // What every insertion keeps of the node it starts from.
  ghost predicate Grown<V>(t: Tree<V>, r: Tree<V>, wildcardsAllowed: bool, path: string) {
    && Shape(r, wildcardsAllowed)
    && r.path == t.path && r.priority == t.priority
    && (forall k :: 0 <= k < |r.indices| ==>
          r.indices[k] in t.indices || (path != "" && r.indices[k] == path[0]))
  }

  function AddCatchAll<V>(t: Tree<V>, path: string, v: V): (r: Added<V>)
    requires Shape(t, true) && path != "" && path[0] == '*'
    ensures Grown(t, r.tree, true, path)
  {
    var node := CatchAllOf(t, path[1..TokenEnd(path)]);
    if path[1..] != node.path || '/' in path then Added(t.(catchAll := Some(node)), false)
    else Added(t.(catchAll := Some(node.(leaf := Some(v)))), true)
  }

  // Inserts a value at a path below t, as the source does with the node it returns. A refused
  // path can leave new nodes behind.
  function AddPath<V>(t: Tree<V>, wildcardsAllowed: bool, path: string, v: V): (r: Added<V>)
    requires Shape(t, wildcardsAllowed) && Startable(path, wildcardsAllowed)
    ensures Grown(t, r.tree, wildcardsAllowed, path)
    decreases |path|, 1
  {
    if path == "" then Added(t.(leaf := Some(v)), true)
    else if path[0] == '*' then AddCatchAll(t, path, v)
    else if path[0] == ':' then
      var sub := AddPath(WildcardOf(t), false, path[TokenEnd(path)..], v);
      Added(t.(wildcard := Some(sub.tree)), sub.ok)
    else if HasMark(path[..TokenEnd(path)]) then Added(t, false)
    else AddStatic(t, wildcardsAllowed, path, v)
  }

  function AddStatic<V>(t: Tree<V>, wildcardsAllowed: bool, path: string, v: V): (r: Added<V>)
    requires Shape(t, wildcardsAllowed)
    requires path != "" && path[0] !in ":*" && !HasMark(path[..TokenEnd(path)])
    ensures Grown(t, r.tree, wildcardsAllowed, path)
    decreases |path|, 0
  {
    StaticToken(path);
    var token := path[..TokenEnd(path)];
    var i := Find(t.indices, path[0]);
    if i < |t.indices| then
      var (top, k) := SplitCommonPrefix(t.statics[i], token);
      SplitKeepsShape(t.statics[i], token);
      assert path[..k] == token[..k];
      var sub := AddPath(Bump(top), top.path == "/", path[k..], v);
      ReorderKeepsShape(t, wildcardsAllowed, i, Bump(top), sub.tree);
      Added(Reorder(t, i, Bump(top), sub.tree), sub.ok)
    else
      var sub := AddPath(Fresh<V>(token, false), token == "/", path[|token|..], v);
      AppendKeepsShape(t, wildcardsAllowed, sub.tree);
      Added(Append(t, sub.tree), sub.ok)
  }

  // ---------- Lookup ----------

  // The value stored at the node found, the captured parameters and the matcher's result.
  datatype Hit<+V, +R> = Hit(leaf: Option<V>, params: seq<string>, value: R)

  function OrElse<T>(a: Option<T>, b: Option<T>): Option<T> {
    if a.Some? then a else b
  }

  // Depth-first search with backtracking: the static child, then the wildcard, then the
  // catch-all. The matcher returns None for a value it refuses.
  function Search<V, R>(t: Tree<V>, path: string, matcher: Option<V> -> Option<R>,
                        unescape: string -> Option<string>): Option<Hit<V, R>>
    decreases t
  {
    if path == "" then
      if t.leaf.None? || matcher(t.leaf).None? then None else Some(Hit(t.leaf, [], matcher(t.leaf).value))
    else
      var i := Find(t.indices, path[0]);
      var viaStatic := if i < |t.statics| && t.statics[i].path <= path
                    then Search(t.statics[i], path[|t.statics[i].path|..], matcher, unescape) else None;
      var end := SlashIndex(path);
      var viaWildcard := if t.wildcard.Some? && end > 0
                      then WithParam(Search(t.wildcard.value, path[end..], matcher, unescape),
                                     Capture(unescape, path[..end])) else None;
      var viaCatchAll := if t.catchAll.Some? && matcher(t.catchAll.value.leaf).Some?
                      then Some(Hit(t.catchAll.value.leaf, [Capture(unescape, path)],
                                    matcher(t.catchAll.value.leaf).value)) else None;
      OrElse(viaStatic, OrElse(viaWildcard, viaCatchAll))
  }

  function WithParam<V, R>(hit: Option<Hit<V, R>>, param: string): Option<Hit<V, R>> {
    if hit.None? then None else Some(hit.value.(params := hit.value.params + [param]))
  }

  // ---------- The exported operations ----------

  function Empty<V>(): (t: Tree<V>)
    ensures Shape(t, true)
  {
    Fresh("", false)
  }

  // The first byte of a path is not looked at; an empty path makes the source panic.
  function Add<V>(t: Tree<V>, path: string, v: V): (r: Added<V>)
    requires Shape(t, true) && path != ""
    ensures Shape(r.tree, true)
  {
    AddPath(t, true, path[1..], v)
  }

  function LookupMatcher<V, R>(t: Tree<V>, path: string, matcher: Option<V> -> Option<R>,
                               unescape: string -> Option<string>): Option<Hit<V, R>> {
    Search(t, if path == "" then "" else path[1..], matcher, unescape)
  }
}
