/**
 The mutable nodes of the path tree. Each method changes the linked nodes in place and is proved
 to have the effect of the function of the same name in module PathTree on the value the node
 stands for.
 */
module PathNode {
  import opened Options
  import opened PathPattern
  import opened PathTree
  import opened PathTreeRuns

  class Node<V> {
    var path: string
    var priority: nat
    var staticIndices: seq<char>
    var staticChild: seq<Node<V>>
    var wildcardChild: Node?<V>
    var catchAllChild: Node?<V>
    var isCatchAll: bool
    var leafValue: Option<V>

    ghost var kids: set<Node<V>>  // the direct children
    ghost var Repr: set<object>   // the nodes of this subtree
    ghost var tree: Tree<V>       // the value of this subtree

    // The children are different nodes.
    ghost predicate Linked()
      reads this
    {
      && (forall i :: 0 <= i < |staticChild| ==> staticChild[i] in kids)
      && (forall i, j :: 0 <= i < j < |staticChild| ==> staticChild[i] != staticChild[j])
      && (wildcardChild != null ==> wildcardChild in kids && wildcardChild !in staticChild)
      && (catchAllChild != null ==>
            catchAllChild in kids && catchAllChild !in staticChild && catchAllChild != wildcardChild)
    }

    // tree is the value of the fields.
    ghost predicate Mirrors()
      requires Linked()
      reads this, kids
    {
      && |tree.statics| == |staticChild|
      && (forall i :: 0 <= i < |staticChild| ==> tree.statics[i] == staticChild[i].tree)
      && tree == Tree(path, priority, staticIndices, tree.statics,
                      if wildcardChild == null then None else Some(wildcardChild.tree),
                      if catchAllChild == null then None else Some(catchAllChild.tree),
                      isCatchAll, leafValue)
    }

    // The children head valid, pairwise disjoint subtrees apart from this node.
    ghost predicate Sound()
      reads this, kids, set c, o | c in kids && o in c.Repr :: o
    {
      Apart(this, kids) && Linked()
    }

    static ghost predicate Apart(node: Node<V>, kids: set<Node<V>>)
      reads kids, set c, o | c in kids && o in c.Repr :: o
    {
      && (forall c :: c in kids ==> node !in c.Repr && c.Valid())
      && (forall c, d :: c in kids && d in kids && c != d ==> c.Repr !! d.Repr)
    }

    ghost predicate Valid()
      reads this, Repr
      decreases Repr
      ensures Valid() ==> this in Repr
    {
      && this in Repr
      && (forall c :: c in kids ==> c in Repr && c.Repr <= Repr && this !in c.Repr && c.Valid())
      && (forall c, d :: c in kids && d in kids && c != d ==> c.Repr !! d.Repr)
      && Linked() && Mirrors()
    }

    constructor (path: string, isCatchAll: bool)
      ensures Valid() && fresh(Repr)
      ensures tree == Fresh<V>(path, isCatchAll)
    {
      this.path, this.isCatchAll := path, isCatchAll;
      priority, staticIndices, staticChild := 0, [], [];
      wildcardChild, catchAllChild, leafValue := null, null, None;
      kids, Repr, tree := {}, {this}, Fresh<V>(path, isCatchAll);
    }

    // A node with a single static child.
    constructor Over(path: string, child: Node<V>)
      requires child.Valid() && child.path != ""
      ensures Valid() && child.Repr <= Repr && fresh(Repr - child.Repr)
      ensures tree == Tree(path, child.tree.priority, [child.tree.path[0]], [child.tree], None, None, false, None)
    {
      this.path, isCatchAll := path, false;
      priority, staticIndices, staticChild := child.priority, [child.path[0]], [child];
      wildcardChild, catchAllChild, leafValue := null, null, None;
      kids, Repr := {child}, {this} + child.Repr;
      tree := Tree(path, child.tree.priority, [child.tree.path[0]], [child.tree], None, None, false, None);
    }

    // Field updates, with the value of the subtree kept in step.
    method SetPath(path: string)
      requires Valid()
      modifies this`path, this`tree
      ensures Valid() && tree == old(tree).(path := path)
    {
      this.path, tree := path, tree.(path := path);
    }

    method SetLeaf(v: V)
      requires Valid()
      modifies this`leafValue, this`tree
      ensures Valid() && tree == old(tree).(leaf := Some(v))
    {
      leafValue, tree := Some(v), tree.(leaf := Some(v));
    }

    method Promote()
      requires Valid()
      modifies this`priority, this`tree
      ensures Valid() && tree == Bump(old(tree))
    {
      priority, tree := priority + 1, Bump(tree);
    }

    // Bubbles the child at i up past smaller priorities; statics are the values of the children.
    method SortStaticChild(i: nat, ghost statics: seq<Tree<V>>)
      requires i < |staticChild| == |staticIndices| == |statics|
      requires forall k :: 0 <= k < |statics| ==> staticChild[k].priority == statics[k].priority
      modifies this`staticChild, this`staticIndices
      ensures var j := Slot(statics[i].priority, statics, i);
              && staticChild == Rotate(old(staticChild), i, j)
              && staticIndices == Rotate(old(staticIndices), i, j)
    {
      var k := i;
      while k > 0 && staticChild[k].priority > staticChild[k - 1].priority
        invariant 0 <= k <= i
        invariant MovedUp(old(staticChild), staticChild, i, k) && MovedUp(old(staticIndices), staticIndices, i, k)
        invariant forall x :: k <= x < i ==> statics[i].priority > statics[x].priority
        decreases k
      {
        MovedUpStep(old(staticChild), staticChild, i, k);
        MovedUpStep(old(staticIndices), staticIndices, i, k);
        staticChild := Swapped(staticChild, k);
        staticIndices := Swapped(staticIndices, k);
        k := k - 1;
      }
      SlotIs(statics[i].priority, statics, i, k);
      MovedUpIsRotate(old(staticChild), staticChild, i, k);
      MovedUpIsRotate(old(staticIndices), staticIndices, i, k);
    }

    // The node that covers exactly the prefix this node shares with the token: this node itself,
    // or a new one above it.
    method SplitAbove(token: string) returns (top: Node<V>, k: nat)
      requires Valid() && path != "" && token != "" && path[0] == token[0]
      modifies this`path, this`tree
      ensures top.Valid() && (top.tree, k) == PathTree.SplitCommonPrefix(old(tree), token)
      ensures old(Repr) <= top.Repr && fresh(top.Repr - old(Repr))
      ensures top == this || fresh(top)
    {
      if path <= token {
        return this, |path|;
      }
      k := CommonPrefix(path, token);
      SetPath(path[k..]);
      top := new Node.Over(token[..k], this);
    }

    // Puts a node that took over the subtree of the child at i in its place.
    method ReplaceStatic(i: nat, top: Node<V>)
      requires i < |staticChild| && staticChild[i] in kids && Linked()
      requires top.Valid() && this !in top.Repr && top !in kids - {staticChild[i]}
      requires Apart(this, kids - {staticChild[i]})
      requires forall c :: c in kids && c != staticChild[i] ==> c.Repr !! top.Repr
      modifies this`staticChild, this`kids
      ensures Sound()
      ensures staticChild == old(staticChild)[i := top] && kids == old(kids) - {old(staticChild)[i]} + {top}
    {
      kids := kids - {staticChild[i]} + {top};
      staticChild := staticChild[i := top];
    }

    method SplitChild(i: nat, token: string) returns (child: Node<V>, k: nat)
      requires Sound() && i < |staticChild|
      requires staticChild[i].path != "" && token != "" && staticChild[i].path[0] == token[0]
      modifies this`staticChild, this`kids, staticChild[i]
      ensures Sound()
      ensures staticChild == old(staticChild)[i := child] && kids == old(kids) - {old(staticChild)[i]} + {child}
      ensures (child.tree, k) == PathTree.SplitCommonPrefix(old(staticChild[i].tree), token)
      ensures Grew(old(staticChild[i].Repr), child.Repr) && fresh(child.Repr - old(staticChild[i].Repr))
      ensures child == old(staticChild)[i] || fresh(child)
      ensures forall c :: c in kids && c != child ==> c in old(kids) && c.Repr == old(c.Repr) && c.tree == old(c.tree)
    {
      child, k := SplitStatic(i, token);
      ReplaceStatic(i, child);
    }

    // Splits the child at i without linking the node above it; the other children are not touched.
    method SplitStatic(i: nat, token: string) returns (top: Node<V>, k: nat)
      requires Sound() && i < |staticChild|
      requires staticChild[i].path != "" && token != "" && staticChild[i].path[0] == token[0]
      modifies staticChild[i]
      ensures top.Valid() && this !in top.Repr && top !in kids - {staticChild[i]}
      ensures Apart(this, kids - {staticChild[i]})
      ensures forall c :: c in kids && c != staticChild[i] ==> c.Repr !! top.Repr
      ensures (top.tree, k) == PathTree.SplitCommonPrefix(old(staticChild[i].tree), token)
      ensures Grew(old(staticChild[i].Repr), top.Repr) && fresh(top.Repr - old(staticChild[i].Repr))
      ensures top == staticChild[i] || fresh(top)
    {
      assert Apart(this, kids - {staticChild[i]});
      top, k := staticChild[i].SplitAbove(token);
    }

    // Makes the child at i cover exactly the prefix it shares with the token.
    method SplitCommonPrefix(i: nat, token: string) returns (child: Node<V>, k: nat)
      requires Valid() && i < |staticChild|
      requires tree.statics[i].path != "" && token != "" && tree.statics[i].path[0] == token[0]
      modifies this`staticChild, this`kids, staticChild[i]
      ensures i < |staticChild| && child == staticChild[i] && (child == old(staticChild)[i] || fresh(child))
      ensures var (top, n) := PathTree.SplitCommonPrefix(old(tree).statics[i], token);
              k == n && Ready(child, WithStatic(old(tree), i, top))
      ensures Grew(old(staticChild[i].Repr), child.Repr) && fresh(child.Repr - old(staticChild[i].Repr))
    {
      child, k := SplitChild(i, token);
    }

    method PromoteChild(i: nat, child: Node<V>, ghost t: Tree<V>)
      requires Ready(child, t) && i < |staticChild| && child == staticChild[i]
      modifies child`priority, child`tree
      ensures Ready(child, WithStatic(t, i, Bump(t.statics[i])))
    {
      child.Promote();
    }

    // Moves the child at i by priority.
    method SortChild(i: nat, child: Node<V>, ghost t: Tree<V>)
      requires Ready(child, t) && i < |staticChild| == |staticIndices| && child == staticChild[i]
      modifies this`staticChild, this`staticIndices
      ensures Ready(child, Moved(t, i))
      ensures var j := Slot(t.statics[i].priority, t.statics, i); j < |staticChild| && child == staticChild[j]
    {
      ghost var before, j := staticChild, Slot(t.statics[i].priority, t.statics, i);
      SortStaticChild(i, t.statics);
      LinkedRotated(before, staticChild, i, j);
      RotatedTrees(before, t.statics, i, j);
    }

    // Splits the child at i, raises its priority and moves it.
    method MakeRoom(i: nat, token: string) returns (child: Node<V>, k: nat)
      requires Valid() && i < |staticChild| == |staticIndices|
      requires tree.statics[i].path != "" && token != "" && tree.statics[i].path[0] == token[0]
      modifies this`staticChild, this`staticIndices, this`kids, staticChild[i]
      ensures Ready(child, Roomy(old(tree), i, token))
      ensures k == PathTree.SplitCommonPrefix(old(tree).statics[i], token).1
      ensures var bumped := Bump(PathTree.SplitCommonPrefix(old(tree).statics[i], token).0);
              var j := Slot(bumped.priority, old(tree).statics[i := bumped], i);
              j < |staticChild| && child == staticChild[j]
      ensures Grew(old(staticChild[i].Repr), child.Repr) && fresh(child.Repr - old(staticChild[i].Repr))
    {
      ghost var top := PathTree.SplitCommonPrefix(tree.statics[i], token).0;
      ghost var t := tree;
      child, k := SplitCommonPrefix(i, token);
      assert t.statics[i := top][i := Bump(top)] == t.statics[i := Bump(top)];
      RaiseChild(i, child, WithStatic(t, i, top), WithStatic(t, i, Bump(top)));
    }

    // Raises the priority of the child at i and moves it.
    method RaiseChild(i: nat, child: Node<V>, ghost t: Tree<V>, ghost raised: Tree<V>)
      requires Ready(child, t) && i < |staticChild| == |staticIndices| && child == staticChild[i]
      requires raised == WithStatic(t, i, Bump(t.statics[i]))
      modifies this`staticChild, this`staticIndices, child`priority, child`tree
      ensures Ready(child, Moved(raised, i)) && child.Repr == old(child.Repr)
      ensures var j := Slot(raised.statics[i].priority, raised.statics, i); j < |staticChild| && child == staticChild[j]
    {
      PromoteChild(i, child, t);
      SortChild(i, child, raised);
    }

    // Inserts below the static child at j and takes up the change.
    method AddBelowStatic(ghost j: nat, child: Node<V>, path: string, v: V, ghost t: Tree<V>) returns (ok: bool)
      requires Ready(child, t) && j < |staticChild| && child == staticChild[j]
      requires Shape(t.statics[j], t.statics[j].path == "/") && Startable(path, t.statics[j].path == "/")
      modifies this`Repr, this`tree, child.Repr
      ensures Valid() && Grew(old(Repr), Repr) && fresh(Repr - old(Repr) - old(child.Repr))
      ensures var r := PathTree.AddPath(t.statics[j], t.statics[j].path == "/", path, v);
              tree == WithStatic(t, j, r.tree) && ok == r.ok
      decreases |path|, 3
    {
      ok := AddBelow(child, path, v, child.path == "/");
      Adopt(child, WithStatic(t, j, child.tree));
    }

    // Inserts below a child; this node itself is not touched.
    method AddBelow(child: Node<V>, path: string, v: V, ghost wildcardsAllowed: bool) returns (ok: bool)
      requires Sound() && child in kids
      requires Shape(child.tree, wildcardsAllowed) && Startable(path, wildcardsAllowed)
      modifies child.Repr
      ensures Sound()
      ensures Grew(old(child.Repr), child.Repr) && fresh(child.Repr - old(child.Repr))
      ensures forall c :: c in kids && c != child ==> c.Repr == old(c.Repr) && c.tree == old(c.tree)
      ensures Added(child.tree, ok) == PathTree.AddPath(old(child.tree), wildcardsAllowed, path, v)
      decreases |path|, 2
    {
      ok := child.AddPath(path, v, wildcardsAllowed);
    }

    // t is the value of the fields, and only the subtree of child may have outgrown this node.
    ghost predicate Ready(child: Node<V>, t: Tree<V>)
      reads this, kids, set c, o | c in kids && o in c.Repr :: o
    {
      && Sound() && this in Repr && child in kids
      && (forall c :: c in kids && c != child ==> c in Repr && c.Repr <= Repr)
      && |t.statics| == |staticChild| && (forall x :: 0 <= x < |staticChild| ==> t.statics[x] == staticChild[x].tree)
      && t == Tree(path, priority, staticIndices, t.statics,
                   if wildcardChild == null then None else Some(wildcardChild.tree),
                   if catchAllChild == null then None else Some(catchAllChild.tree),
                   isCatchAll, leafValue)
    }

    // Takes up the changed subtree of a child.
    ghost method Adopt(child: Node<V>, t: Tree<V>)
      requires Ready(child, t)
      modifies this`Repr, this`tree
      ensures Valid() && tree == t && Repr == old(Repr) + child.Repr
    {
      Repr, tree := Repr + child.Repr, t;
    }

    // Inserts below the static child at i, which starts with the first byte of the path.
    method AddToStatic(i: nat, path: string, end: nat, v: V, ghost wildcardsAllowed: bool) returns (ok: bool)
      requires Valid() && Shape(tree, wildcardsAllowed)
      requires path != "" && path[0] !in ":*" && end == TokenEnd(path) && !HasMark(path[..end])
      requires i < |staticIndices| && i == Find(staticIndices, path[0])
      modifies Repr
      ensures Valid() && Grew(old(Repr), Repr) && fresh(Repr - old(Repr))
      ensures Added(tree, ok) == AddStatic(old(tree), wildcardsAllowed, path, v)
      decreases |path|, 0
    {
      ghost var t := tree;
      ghost var j := StaticStep(t, wildcardsAllowed, path, v, i);
      var child, k := MakeRoom(i, path[..end]);
      ok := AddBelowStatic(j, child, path[k..], v, Roomy(t, i, path[..end]));
    }

    // Counts a new subtree among the children, before a field links it.
    ghost method Admit(child: Node<V>)
      requires Sound() && child.Valid() && this !in child.Repr
      requires forall c :: c in kids ==> c.Repr !! child.Repr
      modifies this`kids
      ensures Sound() && kids == old(kids) + {child}
    {
      kids := kids + {child};
    }

    ghost method Enroll(child: Node<V>)
      requires Valid() && child.Valid() && child.Repr !! Repr
      modifies this`kids
      ensures Ready(child, tree) && Unlinked(child)
    {
      Admit(child);
    }

    ghost predicate Unlinked(child: Node<V>)
      reads this
    {
      child !in staticChild && child != wildcardChild && child != catchAllChild
    }

    method LinkStatic(child: Node<V>)
      requires Sound() && child in kids && Unlinked(child) && child.path != ""
      modifies this`staticChild, this`staticIndices
      ensures Sound()
      ensures staticChild == old(staticChild) + [child] && staticIndices == old(staticIndices) + [child.path[0]]
    {
      staticIndices := staticIndices + [child.path[0]];
      staticChild := staticChild + [child];
      assert Apart(this, kids);
    }

    // Adds a new last static child.
    method AppendStatic(child: Node<V>)
      requires Valid() && child.Valid() && child.Repr !! Repr && child.path != ""
      modifies this`staticChild, this`staticIndices, this`kids
      ensures Ready(child, Append(old(tree), child.tree))
      ensures staticChild == old(staticChild) + [child]
    {
      Enroll(child);
      LinkStatic(child);
    }

    method AddNewStatic(path: string, end: nat, v: V, ghost wildcardsAllowed: bool) returns (ok: bool)
      requires Valid() && Shape(tree, wildcardsAllowed)
      requires path != "" && path[0] !in ":*" && end == TokenEnd(path) && !HasMark(path[..end])
      requires |staticIndices| == Find(staticIndices, path[0])
      modifies Repr
      ensures Valid() && Grew(old(Repr), Repr) && fresh(Repr - old(Repr))
      ensures Added(tree, ok) == AddStatic(old(tree), wildcardsAllowed, path, v)
      decreases |path|, 0
    {
      ghost var t := tree;
      NewStaticStep(t, wildcardsAllowed, path, v);
      var child := new Node(path[..end], false);
      AppendStatic(child);
      ok := AddBelowStatic(|t.statics|, child, path[end..], v, Append(t, Fresh<V>(path[..end], false)));
    }

    method LinkWildcard(child: Node<V>)
      requires Valid() && wildcardChild == null && child.Valid() && child.Repr !! Repr
      modifies this`wildcardChild, this`kids
      ensures Ready(child, old(tree).(wildcard := Some(child.tree))) && child == wildcardChild
    {
      Enroll(child);
      wildcardChild := child;
      assert Apart(this, kids);
    }

    method LinkCatchAll(child: Node<V>)
      requires Valid() && catchAllChild == null && child.Valid() && child.Repr !! Repr
      modifies this`catchAllChild, this`kids
      ensures Ready(child, old(tree).(catchAll := Some(child.tree))) && child == catchAllChild
    {
      Enroll(child);
      catchAllChild := child;
      assert Apart(this, kids);
    }

    // Makes sure there is a wildcard child.
    method EnsureWildcard() returns (child: Node<V>)
      requires Valid()
      modifies this`wildcardChild, this`kids
      ensures Ready(child, old(tree).(wildcard := Some(WildcardOf(old(tree))))) && child == wildcardChild
      ensures child.Repr <= Repr || fresh(child.Repr)
    {
      if wildcardChild == null {
        child := new Node("wildcard", false);
        LinkWildcard(child);
      } else {
        child := wildcardChild;
      }
    }

    method AddToWildcard(path: string, end: nat, v: V) returns (ok: bool)
      requires Valid() && Shape(tree, true) && path != "" && path[0] == ':' && end == TokenEnd(path)
      modifies Repr
      ensures Valid() && Grew(old(Repr), Repr) && fresh(Repr - old(Repr))
      ensures Added(tree, ok) == PathTree.AddPath(old(tree), true, path, v)
      decreases |path|, 0
    {
      ghost var t := tree;
      var child := EnsureWildcard();
      ok := AddBelowWildcard(child, path[end..], v, t.(wildcard := Some(WildcardOf(t))));
    }

    // Inserts below the wildcard child and takes up the change.
    method AddBelowWildcard(child: Node<V>, path: string, v: V, ghost t: Tree<V>) returns (ok: bool)
      requires Ready(child, t) && child == wildcardChild
      requires Shape(t.wildcard.value, false) && Startable(path, false)
      modifies this`Repr, this`tree, child.Repr
      ensures Valid() && Grew(old(Repr), Repr) && fresh(Repr - old(Repr) - old(child.Repr))
      ensures var r := PathTree.AddPath(t.wildcard.value, false, path, v);
              tree == t.(wildcard := Some(r.tree)) && ok == r.ok
      decreases |path|, 3
    {
      ok := AddBelow(child, path, v, false);
      Adopt(child, t.(wildcard := Some(child.tree)));
    }

    // Makes sure there is a catch-all child, named if it is new.
    method EnsureCatchAll(name: string) returns (child: Node<V>)
      requires Valid()
      modifies this`catchAllChild, this`kids
      ensures Ready(child, old(tree).(catchAll := Some(CatchAllOf(old(tree), name)))) && child == catchAllChild
      ensures child.Repr <= Repr || fresh(child.Repr)
    {
      if catchAllChild == null {
        child := new Node(name, true);
        LinkCatchAll(child);
      } else {
        child := catchAllChild;
      }
    }

    method SetCatchAllLeaf(child: Node<V>, v: V, ghost t: Tree<V>)
      requires Ready(child, t) && child == catchAllChild
      modifies child`leafValue, child`tree
      ensures Ready(child, t.(catchAll := Some(t.catchAll.value.(leaf := Some(v)))))
    {
      child.SetLeaf(v);
    }

    method AddToCatchAll(path: string, end: nat, v: V) returns (ok: bool)
      requires Valid() && Shape(tree, true) && path != "" && path[0] == '*' && end == TokenEnd(path)
      modifies Repr
      ensures Valid() && Grew(old(Repr), Repr) && fresh(Repr - old(Repr))
      ensures Added(tree, ok) == AddCatchAll(old(tree), path, v)
    {
      ghost var t := tree;
      var child := EnsureCatchAll(path[1..end]);
      t := t.(catchAll := Some(CatchAllOf(t, path[1..end])));
      if path[1..] != child.path || '/' in path {
        Adopt(child, t);
        return false;
      }
      SetCatchAllLeaf(child, v, t);
      Adopt(child, t.(catchAll := Some(t.catchAll.value.(leaf := Some(v)))));
      ok := true;
    }

    // Inserts a value at a path below this node; false stands for the source's errors.
    method AddPath(path: string, v: V, ghost wildcardsAllowed: bool) returns (ok: bool)
      requires Valid() && Shape(tree, wildcardsAllowed) && Startable(path, wildcardsAllowed)
      modifies Repr
      ensures Valid() && Grew(old(Repr), Repr) && fresh(Repr - old(Repr))
      ensures Added(tree, ok) == PathTree.AddPath(old(tree), wildcardsAllowed, path, v)
      decreases |path|, 1
    {
      if path == "" {
        SetLeaf(v);
        return true;
      }
      var end := TokenEnd(path);
      if path[0] == '*' {
        ok := AddToCatchAll(path, end, v);
      } else if path[0] == ':' {
        ok := AddToWildcard(path, end, v);
      } else if HasMark(path[..end]) {
        ok := false;
      } else {
        var i := FindIndex(staticIndices, path[0]);
        if i < |staticIndices| {
          ok := AddToStatic(i, path, end, v, wildcardsAllowed);
        } else {
          ok := AddNewStatic(path, end, v, wildcardsAllowed);
        }
      }
    }

    // Depth-first search with backtracking below this node.
    method Search<R>(path: string, matcher: Option<V> -> Option<R>, unescape: string -> Option<string>)
      returns (found: Option<Hit<V, R>>)
      requires Valid()
      ensures found == PathTree.Search(tree, path, matcher, unescape)
      decreases Repr, 1
    {
      if path == "" {
        if leafValue.None? || matcher(leafValue).None? {
          return None;
        }
        return Some(Hit(leafValue, [], matcher(leafValue).value));
      }
      found := SearchStatic(path, matcher, unescape);
      if found.Some? {
        return;
      }
      found := SearchWildcard(path, matcher, unescape);
      if found.Some? {
        return;
      }
      if catchAllChild != null {
        var m := matcher(catchAllChild.leafValue);
        if m.None? {
          return None;
        }
        return Some(Hit(catchAllChild.leafValue, [Capture(unescape, path)], m.value));
      }
      return None;
    }

    // Through the static child that the path starts with.
    method SearchStatic<R>(path: string, matcher: Option<V> -> Option<R>, unescape: string -> Option<string>)
      returns (found: Option<Hit<V, R>>)
      requires Valid() && path != ""
      ensures var i := Find(tree.indices, path[0]);
              found == if i < |tree.statics| && tree.statics[i].path <= path
                       then PathTree.Search(tree.statics[i], path[|tree.statics[i].path|..], matcher, unescape)
                       else None
      decreases Repr, 0
    {
      found := None;
      var i := FindIndex(staticIndices, path[0]);
      if i < |staticChild| && staticChild[i].path <= path {
        found := staticChild[i].Search(path[|staticChild[i].path|..], matcher, unescape);
      }
    }

    // Through the wildcard child, which takes a non-empty segment.
    method SearchWildcard<R>(path: string, matcher: Option<V> -> Option<R>, unescape: string -> Option<string>)
      returns (found: Option<Hit<V, R>>)
      requires Valid()
      ensures found == if tree.wildcard.None? || SlashIndex(path) == 0 then None
                       else WithParam(PathTree.Search(tree.wildcard.value, path[SlashIndex(path)..], matcher, unescape),
                                      Capture(unescape, path[..SlashIndex(path)]))
      decreases Repr, 0
    {
      found := None;
      if wildcardChild != null {
        var end := SlashIndex(path);
        if end > 0 {
          found := wildcardChild.Search(path[end..], matcher, unescape);
          found := WithParam(found, Capture(unescape, path[..end]));
        }
      }
    }
  }

  method FindIndex(s: seq<char>, c: char) returns (i: nat)
    ensures i == Find(s, c)
  {
    i := 0;
    while i < |s| && s[i] != c
      invariant i <= |s|
      invariant forall k :: 0 <= k < i ==> s[k] != c
    {
      i := i + 1;
    }
  }

  ghost predicate Grew(before: set<object>, after: set<object>) {
    before <= after
  }

  ghost function WithStatic<V>(t: Tree<V>, i: nat, child: Tree<V>): Tree<V>
    requires i < |t.statics|
  {
    t.(statics := t.statics[i := child])
  }

  // t with its child at i moved by priority.
  ghost function Moved<V>(t: Tree<V>, i: nat): Tree<V>
    requires i < |t.statics| == |t.indices|
  {
    var j := Slot(t.statics[i].priority, t.statics, i);
    t.(indices := Rotate(t.indices, i, j), statics := Rotate(t.statics, i, j))
  }

  // t after MakeRoom at i.
  ghost function Roomy<V>(t: Tree<V>, i: nat, token: string): Tree<V>
    requires i < |t.statics| == |t.indices|
    requires t.statics[i].path != "" && token != "" && t.statics[i].path[0] == token[0]
  {
    Moved(WithStatic(t, i, Bump(PathTree.SplitCommonPrefix(t.statics[i], token).0)), i)
  }

  // What AddStatic does, in the steps of the methods.
  lemma StaticStep<V>(t: Tree<V>, wildcardsAllowed: bool, path: string, v: V, i: nat) returns (j: nat)
    requires Shape(t, wildcardsAllowed)
    requires path != "" && path[0] !in ":*" && !HasMark(path[..TokenEnd(path)])
    requires i < |t.indices| && i == Find(t.indices, path[0])
    ensures
      var token := path[..TokenEnd(path)];
      var (top, k) := PathTree.SplitCommonPrefix(t.statics[i], token);
      var room := Roomy(t, i, token);
      && j == Slot(Bump(top).priority, t.statics[i := Bump(top)], i)
      && room.statics[j] == Bump(top)
      && Shape(Bump(top), top.path == "/") && Startable(path[k..], top.path == "/")
      && var sub := PathTree.AddPath(Bump(top), top.path == "/", path[k..], v);
         AddStatic(t, wildcardsAllowed, path, v) == Added(WithStatic(room, j, sub.tree), sub.ok)
  {
    var token := path[..TokenEnd(path)];
    StaticToken(path);
    SplitKeepsShape(t.statics[i], token);
    var (top, k) := PathTree.SplitCommonPrefix(t.statics[i], token);
    assert path[..k] == token[..k];
    j := Slot(Bump(top).priority, t.statics[i := Bump(top)], i);
    MovedTo(WithStatic(t, i, Bump(top)), i);
  }

  // Where a moved child stands.
  lemma MovedTo<V>(t: Tree<V>, i: nat)
    requires i < |t.statics| == |t.indices|
    ensures Moved(t, i).statics[Slot(t.statics[i].priority, t.statics, i)] == t.statics[i]
  {
    var j := Slot(t.statics[i].priority, t.statics, i);
    assert Moved(t, i).statics[j] == t.statics[From(j, i, j)];
  }

  lemma NewStaticStep<V>(t: Tree<V>, wildcardsAllowed: bool, path: string, v: V)
    requires Shape(t, wildcardsAllowed)
    requires path != "" && path[0] !in ":*" && !HasMark(path[..TokenEnd(path)])
    requires |t.indices| == Find(t.indices, path[0])
    ensures
      var token := path[..TokenEnd(path)];
      var child := Fresh<V>(token, false);
      && Shape(child, token == "/") && Startable(path[|token|..], token == "/")
      && var sub := PathTree.AddPath(child, token == "/", path[|token|..], v);
         AddStatic(t, wildcardsAllowed, path, v)
         == Added(WithStatic(Append(t, child), |t.statics|, sub.tree), sub.ok)
  {
    StaticToken(path);
    var child := Fresh<V>(path[..TokenEnd(path)], false);
    var sub := AddStatic(t, wildcardsAllowed, path, v);
    assert (t.statics + [child])[|t.statics| := sub.tree.statics[|t.statics|]] == sub.tree.statics;
  }

  method CommonPrefix(x: string, y: string) returns (n: nat)
    ensures n == CommonPrefixLen(x, y)
  {
    n := 0;
    while n < |x| && n < |y| && x[n] == y[n]
      invariant n <= |x| && n <= |y|
      invariant CommonPrefixLen(x, y) == n + CommonPrefixLen(x[n..], y[n..])
    {
      n := n + 1;
    }
  }

  lemma LinkedRotated<T>(s: seq<T>, r: seq<T>, i: nat, j: nat)
    requires j <= i < |s| && r == Rotate(s, i, j)
    requires forall a, b :: 0 <= a < b < |s| ==> s[a] != s[b]
    ensures forall a, b :: 0 <= a < b < |r| ==> r[a] != r[b]
    ensures forall x :: x in r <==> x in s
  {
    forall a, b | 0 <= a < b < |r| ensures r[a] != r[b] {
      assert r[a] == s[From(a, i, j)] && r[b] == s[From(b, i, j)];
    }
    forall x | x in s ensures x in r {
      var g :| 0 <= g < |s| && s[g] == x;
      var at := if g == i then j else if j <= g < i then g + 1 else g;
      assert r[at] == s[From(at, i, j)];
    }
  }

  lemma RotatedTrees<V>(nodes: seq<Node<V>>, trees: seq<Tree<V>>, i: nat, j: nat)
    requires j <= i < |nodes| == |trees| && forall x :: 0 <= x < |nodes| ==> trees[x] == nodes[x].tree
    ensures forall x :: 0 <= x < |nodes| ==> Rotate(trees, i, j)[x] == Rotate(nodes, i, j)[x].tree
    ensures Rotate(nodes, i, j)[j] == nodes[i]
  {
  }

  // r is s with the element at i moved up to k.
  ghost predicate MovedUp<T>(s: seq<T>, r: seq<T>, i: nat, k: nat)
    requires k <= i < |s|
  {
    && |r| == |s| && r[k] == s[i]
    && (forall x :: 0 <= x < |s| && (x < k || x > i) ==> r[x] == s[x])
    && (forall x :: k < x <= i ==> r[x] == s[x - 1])
  }

  // s with the elements at k - 1 and k exchanged.
  function Swapped<T>(s: seq<T>, k: nat): seq<T>
    requires 0 < k < |s|
  {
    s[k := s[k - 1]][k - 1 := s[k]]
  }

  lemma MovedUpStep<T>(s: seq<T>, r: seq<T>, i: nat, k: nat)
    requires 0 < k <= i < |s| && MovedUp(s, r, i, k)
    ensures MovedUp(s, Swapped(r, k), i, k - 1)
  {
  }

  lemma MovedUpIsRotate<T>(s: seq<T>, r: seq<T>, i: nat, k: nat)
    requires k <= i < |s| && MovedUp(s, r, i, k)
    ensures r == Rotate(s, i, k)
  {
  }

  lemma {:induction false} SlotIs<V>(priority: nat, statics: seq<Tree<V>>, i: nat, k: nat)
    requires k <= i < |statics|
    requires forall x :: k <= x < i ==> priority > statics[x].priority
    requires k > 0 ==> priority <= statics[k - 1].priority
    ensures Slot(priority, statics, i) == k
  {
    if k < i { SlotIs(priority, statics, i - 1, k); }
  }

  // The exported tree: a root node, with the calls of Add it has seen.
  class Mux<V> {
    const root: Node<V>
    ghost var calls: seq<Insertion<V>>

    ghost predicate Valid()
      reads this, root, root.Repr
    {
      this !in root.Repr && root.Valid() && Callable(calls) && root.tree == Run(calls)
    }

    constructor ()
      ensures Valid() && fresh(root.Repr) && calls == []
    {
      root := new Node("", false);
      calls := [];
    }

    method Add(path: string, v: V) returns (ok: bool)
      requires Valid() && path != ""
      modifies this`calls, root.Repr
      ensures Valid() && fresh(root.Repr - old(root.Repr))
      ensures calls == old(calls) + [Insertion(path, v)] && ok == Accepted(calls)
    {
      ok := root.AddPath(path[1..], v, true);
      calls := calls + [Insertion(path, v)];
      assert calls[..|calls| - 1] == old(calls);
    }

    // The answer is the one of module PathTreeRuns: see RunLookup.
    method LookupMatcher<R>(path: string, matcher: Option<V> -> Option<R>, unescape: string -> Option<string>)
      returns (found: Option<Hit<V, R>>)
      requires Valid()
      ensures found == PathTree.LookupMatcher(Run(calls), path, matcher, unescape)
    {
      found := root.Search(if path == "" then "" else path[1..], matcher, unescape);
    }
  }
}
