/**
 Lookup against the map a tree denotes: the search returns the value of the best stored pattern
 that matches the path and whose value the matcher accepts, and nothing exactly when there is
 no such pattern.
 */
module PathTreeSearch {
  import opened Options
  import opened PathPattern
  import opened PathTree
  import opened PathTreeMeaning

  // Every catch-all node carries a value, as after insertions that all succeeded.
  ghost predicate Filled<V>(t: Tree<V>)
    decreases t
  {
    && (forall i :: 0 <= i < |t.statics| ==> Filled(t.statics[i]))
    && (t.wildcard.Some? ==> Filled(t.wildcard.value))
    && (t.catchAll.Some? ==> t.catchAll.value.leaf.Some?)
  }

  // A stored pattern that matches the path and whose value is accepted.
  ghost predicate Candidate<V, R>(t: Tree<V>, q: Pattern, path: string, matcher: Option<V> -> Option<R>) {
    Get(t, q).Some? && Matches(q, path) && matcher(Get(t, q)).Some?
  }

  ghost predicate Best<V, R>(t: Tree<V>, p: Pattern, path: string, matcher: Option<V> -> Option<R>) {
    && Candidate(t, p, path, matcher)
    && (forall q: Pattern :: Candidate(t, q, path, matcher) && q != p ==> Better(p, q))
  }

  // The result of a search: None without a candidate, otherwise the value, the captures and the
  // matcher's result of the best one.
  ghost predicate Answers<V, R>(h: Option<Hit<V, R>>, t: Tree<V>, p: Pattern, path: string,
                                matcher: Option<V> -> Option<R>, unescape: string -> Option<string>) {
    if h.None? then forall q: Pattern :: !Candidate(t, q, path, matcher)
    else
      && Best(t, p, path, matcher)
      && h.value == Hit(Get(t, p), Captures(p, path, unescape), matcher(Get(t, p)).value)
  }

  // ---------- Candidates by the kind of their first token ----------

  function StaticFor<V>(t: Tree<V>, path: string): Option<Tree<V>>
    requires path != ""
  {
    var i := Find(t.indices, path[0]);
    if i < |t.statics| && t.statics[i].path <= path then Some(t.statics[i]) else None
  }

  lemma StaticCandidate<V, R>(t: Tree<V>, q: Pattern, path: string, matcher: Option<V> -> Option<R>)
    requires q != [] && q[0].Ch? && path != "" && InStep(t.indices, t.statics)
    ensures Candidate(t, q, path, matcher) <==>
            var o := StaticFor(t, path);
            && o.Some? && Chars(o.value.path) <= q
            && Candidate(o.value, q[|o.value.path|..], path[|o.value.path|..], matcher)
  {
    var i := Find(t.indices, path[0]);
    if i < |t.statics| {
      var child := t.statics[i];
      assert Chars(child.path)[0] == Ch(path[0]);
      if q[0].c == path[0] { assert Reach(t, q) == Into(child, q); }
      if Chars(child.path) <= q { MatchesChars(child.path, q, path); }
    }
  }

  lemma WildCandidate<V, R>(t: Tree<V>, q: Pattern, path: string, matcher: Option<V> -> Option<R>)
    requires q != [] && q[0].Wild? && path != ""
    ensures Candidate(t, q, path, matcher) <==>
            && t.wildcard.Some? && SlashIndex(path) > 0
            && Candidate(t.wildcard.value, q[1..], path[SlashIndex(path)..], matcher)
  {
  }

  lemma RestCandidate<V, R>(t: Tree<V>, q: Pattern, path: string, matcher: Option<V> -> Option<R>)
    requires q != [] && q[0].Rest? && path != ""
    ensures Candidate(t, q, path, matcher) <==>
            && q == [Rest] && t.catchAll.Some? && t.catchAll.value.leaf.Some?
            && matcher(t.catchAll.value.leaf).Some?
  {
    assert |q| == 1 ==> q == [Rest];
  }

  // ---------- The three sources of an answer ----------

  lemma StaticAnswers<V, R>(t: Tree<V>, child: Tree<V>, p: Pattern, path: string,
                            matcher: Option<V> -> Option<R>, unescape: string -> Option<string>)
    requires path != "" && InStep(t.indices, t.statics) && StaticFor(t, path) == Some(child)
    requires Best(child, p, path[|child.path|..], matcher)
    ensures Best(t, Chars(child.path) + p, path, matcher)
    ensures Get(t, Chars(child.path) + p) == Get(child, p)
    ensures Captures(Chars(child.path) + p, path, unescape) == Captures(p, path[|child.path|..], unescape)
  {
    var k := |child.path|;
    var full := Chars(child.path) + p;
    assert full[k..] == p;
    assert full[0] == Chars(child.path)[0];
    assert Reach(t, full) == Into(child, full);
    StaticCandidate(t, full, path, matcher);
    CapturesChars(child.path, full, path, unescape);
    forall q: Pattern | Candidate(t, q, path, matcher) && q != full ensures Better(full, q) {
      if q != [] && q[0].Ch? {
        StaticCandidate(t, q, path, matcher);
        assert q == Chars(child.path) + q[k..];
        BetterPrefix(Chars(child.path), p, q[k..]);
      }
    }
  }

  lemma WildAnswers<V, R>(t: Tree<V>, p: Pattern, path: string,
                          matcher: Option<V> -> Option<R>, unescape: string -> Option<string>)
    requires path != "" && t.wildcard.Some? && SlashIndex(path) > 0
    requires Best(t.wildcard.value, p, path[SlashIndex(path)..], matcher)
    requires forall q: Pattern :: Candidate(t, q, path, matcher) ==> q == [] || !q[0].Ch?
    ensures Best(t, [Wild] + p, path, matcher)
    ensures Get(t, [Wild] + p) == Get(t.wildcard.value, p)
    ensures Captures([Wild] + p, path, unescape)
         == Captures(p, path[SlashIndex(path)..], unescape) + [Capture(unescape, path[..SlashIndex(path)])]
  {
    var full := [Wild] + p;
    assert full[1..] == p;
    WildCandidate(t, full, path, matcher);
    forall q: Pattern | Candidate(t, q, path, matcher) && q != full ensures Better(full, q) {
      if q != [] && q[0].Wild? {
        WildCandidate(t, q, path, matcher);
        assert q == [Wild] + q[1..];
      }
    }
  }

  lemma RestAnswers<V, R>(t: Tree<V>, path: string, matcher: Option<V> -> Option<R>)
    requires path != "" && t.catchAll.Some? && t.catchAll.value.leaf.Some?
    requires matcher(t.catchAll.value.leaf).Some?
    requires forall q: Pattern :: Candidate(t, q, path, matcher) ==> q == [] || q[0].Rest?
    ensures Best(t, [Rest], path, matcher) && Get(t, [Rest]) == t.catchAll.value.leaf
  {
    RestCandidate(t, [Rest], path, matcher);
    forall q: Pattern | Candidate(t, q, path, matcher) ensures q == [Rest] {
      if q != [] { RestCandidate(t, q, path, matcher); }
    }
  }

  lemma {:induction false} EmptyPathAnswers<V, R>(t: Tree<V>, matcher: Option<V> -> Option<R>,
                                                 unescape: string -> Option<string>)
    ensures Answers(Search(t, "", matcher, unescape), t, [], "", matcher, unescape)
  {
    forall q: Pattern | Candidate(t, q, "", matcher) ensures q == [] {
    }
  }

  // The search is right: p is the pattern of the answer.
  lemma {:induction false} SearchIsBest<V, R>(t: Tree<V>, wildcardsAllowed: bool, path: string,
                                              matcher: Option<V> -> Option<R>,
                                              unescape: string -> Option<string>)
    returns (p: Pattern)
    requires Shape(t, wildcardsAllowed) && Filled(t)
    ensures Answers(Search(t, path, matcher, unescape), t, p, path, matcher, unescape)
    decreases t
  {
    if path == "" {
      EmptyPathAnswers(t, matcher, unescape);
      return [];
    }
    var viaStatic: Option<Hit<V, R>> := None;
    var o := StaticFor(t, path);
    if o.Some? {
      var child := o.value;
      var below := SearchIsBest(child, child.path == "/", path[|child.path|..], matcher, unescape);
      viaStatic := Search(child, path[|child.path|..], matcher, unescape);
      if viaStatic.Some? {
        StaticAnswers(t, child, below, path, matcher, unescape);
        return Chars(child.path) + below;
      }
    }
    NoStaticCandidate(t, path, matcher, unescape);
    var end := SlashIndex(path);
    if t.wildcard.Some? && end > 0 {
      var below := SearchIsBest(t.wildcard.value, false, path[end..], matcher, unescape);
      if Search(t.wildcard.value, path[end..], matcher, unescape).Some? {
        WildAnswers(t, below, path, matcher, unescape);
        return [Wild] + below;
      }
    }
    NoWildCandidate(t, path, matcher, unescape);
    if t.catchAll.Some? && matcher(t.catchAll.value.leaf).Some? {
      RestAnswers(t, path, matcher);
      return [Rest];
    }
    forall q: Pattern ensures !Candidate(t, q, path, matcher) {
      if q != [] && q[0].Rest? { RestCandidate(t, q, path, matcher); }
    }
    p := [];
  }

  lemma NoStaticCandidate<V, R>(t: Tree<V>, path: string, matcher: Option<V> -> Option<R>,
                                unescape: string -> Option<string>)
    requires path != "" && InStep(t.indices, t.statics)
    requires var o := StaticFor(t, path);
             o.Some? ==> forall q: Pattern :: !Candidate(o.value, q, path[|o.value.path|..], matcher)
    ensures forall q: Pattern :: Candidate(t, q, path, matcher) ==> q == [] || !q[0].Ch?
  {
    forall q: Pattern | Candidate(t, q, path, matcher) ensures q == [] || !q[0].Ch? {
      if q != [] && q[0].Ch? { StaticCandidate(t, q, path, matcher); }
    }
  }

  lemma NoWildCandidate<V, R>(t: Tree<V>, path: string, matcher: Option<V> -> Option<R>,
                              unescape: string -> Option<string>)
    requires path != ""
    requires forall q: Pattern :: Candidate(t, q, path, matcher) ==> q == [] || !q[0].Ch?
    requires t.wildcard.Some? && SlashIndex(path) > 0 ==>
               forall q: Pattern :: !Candidate(t.wildcard.value, q, path[SlashIndex(path)..], matcher)
    ensures forall q: Pattern :: Candidate(t, q, path, matcher) ==> q == [] || q[0].Rest?
  {
    forall q: Pattern | Candidate(t, q, path, matcher) ensures q == [] || q[0].Rest? {
      if q != [] && q[0].Wild? { WildCandidate(t, q, path, matcher); }
    }
  }
}
