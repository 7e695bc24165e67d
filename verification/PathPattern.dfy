/**
 The path patterns accepted by the path tree, independent of any tree: how a path
 definition compiles to tokens, which request paths a pattern matches, what it captures
 and which of two patterns takes precedence.
 */
module PathPattern {
  import opened Options

  // A static character, a ':name' wildcard, or a '*name' catch-all. Names are dropped.
  datatype Token = Ch(c: char) | Wild | Rest

  type Pattern = seq<Token>

  // The index of the first '/', or the length when there is none.
  function SlashIndex(s: string): (i: nat)
    ensures i <= |s|
    ensures forall k :: 0 <= k < i ==> s[k] != '/'
    ensures i < |s| ==> s[i] == '/'
  {
    if s == "" || s[0] == '/' then 0 else 1 + SlashIndex(s[1..])
  }

  // A ':' or '*' somewhere in a token.
  predicate HasMark(s: string) {
    ':' in s || '*' in s
  }

  function Chars(s: string): (p: Pattern)
    ensures |p| == |s|
    ensures forall k :: 0 <= k < |s| ==> p[k] == Ch(s[k])
  {
    seq(|s|, i requires 0 <= i < |s| => Ch(s[i]))
  }

  function Prepend(prefix: Pattern, o: Option<Pattern>): Option<Pattern> {
    if o.Some? then Some(prefix + o.value) else None
  }

  // The pattern a path definition stands for; None when the definition is malformed.
  function Compile(path: string): Option<Pattern>
    decreases |path|
  {
    if path == "" then Some([])
    else if path[0] == '/' then Prepend([Ch('/')], Compile(path[1..]))
    else
      var end := SlashIndex(path);
      if path[0] == '*' then (if end == |path| then Some([Rest]) else None)
      else if path[0] == ':' then Prepend([Wild], Compile(path[end..]))
      else if HasMark(path[..end]) then None
      else Prepend(Chars(path[..end]), Compile(path[end..]))
  }

  // Whether a request path matches: a wildcard takes a whole non-empty token, a catch-all any
  // non-empty remainder.
  predicate Matches(p: Pattern, path: string) {
    if p == [] then path == ""
    else match p[0]
      case Ch(c) => path != "" && path[0] == c && Matches(p[1..], path[1..])
      case Wild => SlashIndex(path) > 0 && Matches(p[1..], path[SlashIndex(path)..])
      case Rest => |p| == 1 && path != ""
  }

  // A captured token is query-unescaped, or taken as it is when that fails.
  function Capture(unescape: string -> Option<string>, token: string): string {
    match unescape(token)
    case Some(s) => s
    case None => token
  }

  // The captured values, the last wildcard first.
  function Captures(p: Pattern, path: string, unescape: string -> Option<string>): seq<string>
    requires Matches(p, path)
  {
    if p == [] then []
    else match p[0]
      case Ch(_) => Captures(p[1..], path[1..], unescape)
      case Wild =>
        var end := SlashIndex(path);
        Captures(p[1..], path[end..], unescape) + [Capture(unescape, path[..end])]
      case Rest => [Capture(unescape, path)]
  }

  function Rank(t: Token): nat {
    match t
    case Ch(_) => 2
    case Wild => 1
    case Rest => 0
  }

  // p takes precedence over q: at the first token where they differ, static beats wildcard
  // beats catch-all.
  predicate Better(p: Pattern, q: Pattern) {
    p != [] && q != [] &&
    if p[0] == q[0] then Better(p[1..], q[1..]) else Rank(p[0]) > Rank(q[0])
  }

  // Precedence is a strict total order on the patterns that match one path, so there is at
  // most one best pattern.
  lemma {:induction false} PrecedenceIsTotal(p: Pattern, q: Pattern, path: string)
    requires Matches(p, path) && Matches(q, path) && p != q
    ensures Better(p, q) != Better(q, p)
  {
    if p != [] && q != [] && p[0] == q[0] {
      assert p == [p[0]] + p[1..] && q == [q[0]] + q[1..];
      match p[0]
      case Ch(_) => PrecedenceIsTotal(p[1..], q[1..], path[1..]);
      case Wild => PrecedenceIsTotal(p[1..], q[1..], path[SlashIndex(path)..]);
      case Rest =>
    }
  }

  lemma {:induction false} PrecedenceIsTransitive(p: Pattern, q: Pattern, r: Pattern)
    requires Better(p, q) && Better(q, r)
    ensures Better(p, r)
  {
    if p[0] == q[0] && q[0] == r[0] {
      PrecedenceIsTransitive(p[1..], q[1..], r[1..]);
    }
  }

  // ---------- Static text at the head of patterns ----------

  lemma {:induction false} MatchesChars(s: string, p: Pattern, path: string)
    requires Chars(s) <= p
    ensures Matches(p, path) <==> s <= path && Matches(p[|s|..], path[|s|..])
    decreases |s|
  {
    if s == "" {
      assert p[0..] == p && path[0..] == path;
    } else {
      assert p[0] == Chars(s)[0] == Ch(s[0]);
      assert forall k :: 0 <= k < |s| - 1 ==> p[1..][k] == Chars(s)[k + 1] == Chars(s[1..])[k];
      if path != "" && path[0] == s[0] {
        MatchesChars(s[1..], p[1..], path[1..]);
        assert p[1..][|s| - 1..] == p[|s|..];
        assert s <= path <==> s[1..] <= path[1..];
        if s <= path { assert path[1..][|s| - 1..] == path[|s|..]; }
      }
    }
  }

  lemma {:induction false} CapturesChars(s: string, p: Pattern, path: string, unescape: string -> Option<string>)
    requires Chars(s) <= p && Matches(p, path)
    ensures s <= path && Matches(p[|s|..], path[|s|..])
    ensures Captures(p, path, unescape) == Captures(p[|s|..], path[|s|..], unescape)
    decreases |s|
  {
    MatchesChars(s, p, path);
    if s == "" {
      assert p[0..] == p && path[0..] == path;
    } else {
      assert p[0] == Chars(s)[0] == Ch(s[0]);
      assert forall k :: 0 <= k < |s| - 1 ==> p[1..][k] == Chars(s)[k + 1] == Chars(s[1..])[k];
      CapturesChars(s[1..], p[1..], path[1..], unescape);
      assert p[1..][|s| - 1..] == p[|s|..];
      assert path[1..][|s| - 1..] == path[|s|..];
    }
  }

  lemma {:induction false} BetterPrefix(s: Pattern, p: Pattern, q: Pattern)
    ensures Better(s + p, s + q) == Better(p, q)
    decreases |s|
  {
    if s == [] {
      assert s + p == p && s + q == q;
    } else {
      assert (s + p)[1..] == s[1..] + p && (s + q)[1..] == s[1..] + q;
      BetterPrefix(s[1..], p, q);
    }
  }

  // A path cut inside its first static token starts with the rest of that token.
  lemma CutToken(path: string, k: nat)
    requires path != "" && path[0] !in "/:*" && k < SlashIndex(path) && !HasMark(path[..SlashIndex(path)])
    ensures
      var rest, n := path[k..], SlashIndex(path) - k;
      && rest != "" && rest[0] !in "/:*" && SlashIndex(rest) == n && !HasMark(rest[..n])
      && path[..SlashIndex(path)] == path[..k] + rest[..n]
      && rest[n..] == path[SlashIndex(path)..]
  {
    var end := SlashIndex(path);
    SlashIndexSuffix(path, k);
    CutSlices(path, end, k);
    SuffixMarks(path[..end], k);
  }

  lemma CutSlices(path: string, end: nat, k: nat)
    requires k < end <= |path|
    ensures path[k..][..end - k] == path[..end][k..] && path[k..][end - k..] == path[end..]
    ensures path[..end] == path[..k] + path[..end][k..] && path[k] == path[..end][k]
  {
  }

  lemma SuffixMarks(token: string, k: nat)
    requires k < |token| && !HasMark(token)
    ensures !HasMark(token[k..]) && token[k] !in ":*"
  {
    assert token[k] in token;
    assert forall c :: c in token[k..] ==> c in token;
  }

  lemma CharsConcat(a: string, b: string)
    ensures Chars(a + b) == Chars(a) + Chars(b)
  {
  }

  lemma PrependTwice(a: Pattern, b: Pattern, o: Option<Pattern>)
    ensures Prepend(a, Prepend(b, o)) == Prepend(a + b, o)
  {
    if o.Some? { assert a + (b + o.value) == a + b + o.value; }
  }

  lemma CompileStatic(path: string)
    requires path != "" && path[0] !in "/:*" && !HasMark(path[..SlashIndex(path)])
    ensures Compile(path) == Prepend(Chars(path[..SlashIndex(path)]), Compile(path[SlashIndex(path)..]))
  {
  }

  // A path cut inside its first static token compiles to the rest of its pattern.
  lemma {:induction false} CompileSuffix(path: string, k: nat)
    requires path != "" && path[0] !in "/:*" && k <= SlashIndex(path) && !HasMark(path[..SlashIndex(path)])
    ensures Compile(path).Some? <==> Compile(path[k..]).Some?
    ensures Compile(path) == Prepend(Chars(path[..k]), Compile(path[k..]))
  {
    var end := SlashIndex(path);
    if k < end {
      CutToken(path, k);
      CharsConcat(path[..k], path[k..][..end - k]);
      CompileStatic(path);
      CompileStatic(path[k..]);
      PrependTwice(Chars(path[..k]), Chars(path[k..][..end - k]), Compile(path[end..]));
    } else {
      CompileStatic(path);
    }
  }

  lemma {:induction false} SlashIndexSuffix(path: string, k: nat)
    requires k <= SlashIndex(path)
    ensures SlashIndex(path[k..]) == SlashIndex(path) - k
  {
    if k > 0 {
      SlashIndexSuffix(path[1..], k - 1);
      assert path[1..][k - 1..] == path[k..];
    } else {
      assert path[0..] == path;
    }
  }
}
