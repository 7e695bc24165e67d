/**
 Filter chains as a token grammar, one predicate per nonterminal of the generated parser, and a
 parser loop that is proved to accept exactly the derivable token lists.
 */
module EskipGrammar {
  import opened Options
  import opened EskipLexer

  // A number keeps its text: the conversion to a float is not modelled.
  datatype Arg = Text(value: string) | Num(text: string)

  datatype Filter = Filter(name: string, args: seq<Arg>)

  // Strings and regular expressions both become plain string arguments.
  function ArgOf(t: Token): Option<Arg> {
    match t
    case Number(s) => Some(Num(s))
    case StringLiteral(s) => Some(Arg.Text(s))
    case RegexpLiteral(s) => Some(Arg.Text(s))
    case _ => None
  }

  // ---------- The productions ----------

  // args: (empty) | arg | args comma arg
  ghost predicate DerivesArgs(ts: seq<Token>, args: seq<Arg>) {
    || (ts == [] && args == [])
    || (|ts| == 1 && |args| == 1 && ArgOf(ts[0]) == Some(args[0]))
    || (&& |ts| >= 2 && args != [] && ts[|ts| - 2] == Comma
        && ArgOf(ts[|ts| - 1]) == Some(args[|args| - 1])
        && DerivesArgs(ts[..|ts| - 2], args[..|args| - 1]))
  }

  // filter: symbol openparen args closeparen
  ghost predicate DerivesFilter(ts: seq<Token>, f: Filter) {
    && |ts| >= 3 && ts[0] == Symbol(f.name) && ts[1] == OpenParen && ts[|ts| - 1] == CloseParen
    && DerivesArgs(ts[2..|ts| - 1], f.args)
  }

  // filters: filter | filters arrow filter
  ghost predicate DerivesFilters(ts: seq<Token>, fs: seq<Filter>)
    decreases |fs|
  {
    || (|fs| == 1 && DerivesFilter(ts, fs[0]))
    || (|fs| >= 2 && exists k: nat :: ArrowAt(ts, k, fs))
  }

  ghost predicate ArrowAt(ts: seq<Token>, k: nat, fs: seq<Filter>)
    requires |fs| >= 2
    decreases |fs|, 0
  {
    && k < |ts| && ts[k] == Arrow
    && DerivesFilters(ts[..k], fs[..|fs| - 1]) && DerivesFilter(ts[k + 1..], fs[|fs| - 1])
  }

  // start: (empty) | filters
  ghost predicate Derives(ts: seq<Token>, fs: seq<Filter>) {
    (ts == [] && fs == []) || DerivesFilters(ts, fs)
  }

  // ---------- The parser ----------

  // What has been recognized and what may come next.
  datatype Config =
    | AtFilter(fs: seq<Filter>)
    | AtOpen(fs: seq<Filter>, name: string)
    | AtArgs(fs: seq<Filter>, name: string)
    | AfterComma(fs: seq<Filter>, name: string, args: seq<Arg>)
    | AfterArg(fs: seq<Filter>, name: string, args: seq<Arg>)
    | AfterFilter(fs: seq<Filter>)
    | Failed

  function Step(c: Config, t: Token): Config {
    match c
    case AtFilter(fs) => if t.Symbol? then AtOpen(fs, t.val) else Failed
    case AtOpen(fs, name) => if t == OpenParen then AtArgs(fs, name) else Failed
    case AtArgs(fs, name) =>
      if t == CloseParen then AfterFilter(fs + [Filter(name, [])])
      else if t == Comma then AfterComma(fs, name, [])
      else if ArgOf(t).Some? then AfterArg(fs, name, [ArgOf(t).value])
      else Failed
    case AfterComma(fs, name, args) =>
      if ArgOf(t).Some? then AfterArg(fs, name, args + [ArgOf(t).value]) else Failed
    case AfterArg(fs, name, args) =>
      if t == CloseParen then AfterFilter(fs + [Filter(name, args)])
      else if t == Comma then AfterComma(fs, name, args)
      else Failed
    case AfterFilter(fs) => if t == Arrow then AtFilter(fs) else Failed
    case Failed => Failed
  }

  function Feed(c: Config, ts: seq<Token>): Config {
    if ts == [] then c else Step(Feed(c, ts[..|ts| - 1]), ts[|ts| - 1])
  }

  // The end of input completes a chain, or an input without any token.
  function Result(c: Config): Option<seq<Filter>> {
    match c
    case AfterFilter(fs) => Some(fs)
    case AtFilter(fs) => if fs == [] then Some([]) else None
    case _ => None
  }

  function Parse(ts: seq<Token>): Option<seq<Filter>> {
    Result(Feed(AtFilter([]), ts))
  }

  method ParseTokens(ts: seq<Token>) returns (r: Option<seq<Filter>>)
    ensures r == Parse(ts)
    ensures forall fs :: r == Some(fs) <==> Derives(ts, fs)
  {
    var c := AtFilter([]);
    for i := 0 to |ts|
      invariant c == Feed(AtFilter([]), ts[..i])
    {
      assert ts[..i + 1][..i] == ts[..i];
      c := Step(c, ts[i]);
    }
    assert ts[..|ts|] == ts;
    r := Result(c);
    forall fs ensures r == Some(fs) <==> Derives(ts, fs) {
      ParseIsDerivation(ts, fs);
    }
  }

  // ---------- Accepted inputs are derivable ----------

  // The tokens before the next filter: nothing, or a chain and an arrow.
  ghost predicate Leads(ts: seq<Token>, fs: seq<Filter>) {
    || (ts == [] && fs == [])
    || (ts != [] && ts[|ts| - 1] == Arrow && DerivesFilters(ts[..|ts| - 1], fs))
  }

  // A filter's name and opening parenthesis stand at k.
  ghost predicate OpensAt(ts: seq<Token>, k: nat, fs: seq<Filter>, name: string) {
    k + 2 <= |ts| && ts[k] == Symbol(name) && ts[k + 1] == OpenParen && Leads(ts[..k], fs)
  }

  // The arguments after that parenthesis are read up to the end.
  ghost predicate InArgs(ts: seq<Token>, k: nat, fs: seq<Filter>, name: string, args: seq<Arg>) {
    OpensAt(ts, k, fs, name) && DerivesArgs(ts[k + 2..], args)
  }

  ghost predicate ReadsArgs(ts: seq<Token>, fs: seq<Filter>, name: string, args: seq<Arg>) {
    exists k: nat :: InArgs(ts, k, fs, name, args)
  }

  // What the tokens read so far derive.
  ghost predicate Explains(c: Config, ts: seq<Token>) {
    match c
    case AtFilter(fs) => Leads(ts, fs)
    case AtOpen(fs, name) => ts != [] && ts[|ts| - 1] == Symbol(name) && Leads(ts[..|ts| - 1], fs)
    case AtArgs(fs, name) => exists k: nat :: InArgs(ts, k, fs, name, []) && k + 2 == |ts|
    case AfterComma(fs, name, args) =>
      ts != [] && ts[|ts| - 1] == Comma && ReadsArgs(ts[..|ts| - 1], fs, name, args)
    case AfterArg(fs, name, args) => ReadsArgs(ts, fs, name, args)
    case AfterFilter(fs) => DerivesFilters(ts, fs)
    case Failed => true
  }

  lemma CloseExplains(ts: seq<Token>, k: nat, fs: seq<Filter>, name: string, args: seq<Arg>)
    requires InArgs(ts, k, fs, name, args)
    ensures DerivesFilters(ts + [CloseParen], fs + [Filter(name, args)])
  {
    var all := ts + [CloseParen];
    var f := Filter(name, args);
    var last := all[k..];
    assert last[2..|last| - 1] == ts[k + 2..];
    assert DerivesFilter(last, f);
    if ts[..k] == [] {
      assert last == all && fs + [f] == [f];
    } else {
      assert all[..k - 1] == ts[..k][..k - 1] && all[k - 1] == ts[..k][k - 1];
      assert (fs + [f])[..|fs|] == fs && all[(k - 1) + 1..] == last;
      assert ArrowAt(all, k - 1, fs + [f]);
    }
  }

  lemma ArgExplains(before: seq<Token>, k: nat, fs: seq<Filter>, name: string, args: seq<Arg>, t: Token)
    requires InArgs(before, k, fs, name, args) && ArgOf(t).Some?
    ensures Explains(AfterArg(fs, name, args + [ArgOf(t).value]), before + [Comma] + [t])
  {
    var ts := before + [Comma] + [t];
    var args' := args + [ArgOf(t).value];
    var tail := ts[k + 2..];
    assert tail == before[k + 2..] + [Comma] + [t];
    assert tail[..|tail| - 2] == before[k + 2..] && args'[..|args'| - 1] == args;
    assert ts[..k] == before[..k];
    assert InArgs(ts, k, fs, name, args');
  }

  lemma StepExplains(c: Config, ts: seq<Token>, t: Token)
    requires Explains(c, ts)
    ensures Explains(Step(c, t), ts + [t])
  {
    var ts' := ts + [t];
    assert ts'[..|ts'| - 1] == ts;
    match c
    case AtFilter(fs) =>
    case AtOpen(fs, name) =>
      if t == OpenParen { OpenExplains(fs, name, ts); }
    case AtArgs(fs, name) =>
      OpenArgsExplain(fs, name, ts, t);
    case AfterComma(fs, name, args) =>
      var before := ts[..|ts| - 1];
      var k: nat :| InArgs(before, k, fs, name, args);
      assert ts == before + [Comma];
      if ArgOf(t).Some? { ArgExplains(before, k, fs, name, args, t); }
    case AfterArg(fs, name, args) =>
      var k: nat :| InArgs(ts, k, fs, name, args);
      if t == CloseParen { CloseExplains(ts, k, fs, name, args); }
    case AfterFilter(fs) =>
    case Failed =>
  }

  lemma OpenExplains(fs: seq<Filter>, name: string, ts: seq<Token>)
    requires Explains(AtOpen(fs, name), ts)
    ensures Explains(AtArgs(fs, name), ts + [OpenParen])
  {
    var all := ts + [OpenParen];
    assert all[..|ts| - 1] == ts[..|ts| - 1] && all[|ts| + 1..] == [];
    assert InArgs(all, |ts| - 1, fs, name, []);
  }

  lemma OpenArgsExplain(fs: seq<Filter>, name: string, ts: seq<Token>, t: Token)
    requires Explains(AtArgs(fs, name), ts)
    ensures Explains(Step(AtArgs(fs, name), t), ts + [t])
  {
    var ts' := ts + [t];
    assert ts'[..|ts'| - 1] == ts;
    var k: nat :| InArgs(ts, k, fs, name, []) && k + 2 == |ts|;
    if t == CloseParen {
      CloseExplains(ts, k, fs, name, []);
    } else if ArgOf(t).Some? {
      assert ts'[k + 2..] == [t] && ts'[..k] == ts[..k];
      assert InArgs(ts', k, fs, name, [ArgOf(t).value]);
    }
  }

  lemma {:induction false} FeedExplains(ts: seq<Token>)
    ensures Explains(Feed(AtFilter([]), ts), ts)
  {
    if ts != [] {
      var before := ts[..|ts| - 1];
      FeedExplains(before);
      StepExplains(Feed(AtFilter([]), before), before, ts[|ts| - 1]);
      assert ts == before + [ts[|ts| - 1]];
    }
  }

  // ---------- Derivable inputs are accepted ----------

  lemma {:induction false} FeedConcat(c: Config, a: seq<Token>, b: seq<Token>)
    ensures Feed(c, a + b) == Feed(Feed(c, a), b)
    decreases |b|
  {
    if b == [] {
      assert a + b == a;
    } else {
      assert (a + b)[..|a + b| - 1] == a + b[..|b| - 1];
      FeedConcat(c, a, b[..|b| - 1]);
    }
  }

  lemma FeedTwo(c: Config, t: Token, u: Token)
    ensures Feed(c, [t, u]) == Step(Step(c, t), u)
  {
    assert [t, u][..1] == [t] && [t][..0] == [];
    assert Feed(c, [t]) == Step(Feed(c, []), t);
  }

  lemma {:induction false} FeedArgs(ts: seq<Token>, fs: seq<Filter>, name: string, args: seq<Arg>)
    requires DerivesArgs(ts, args)
    ensures Feed(AtArgs(fs, name), ts) == if ts == [] then AtArgs(fs, name) else AfterArg(fs, name, args)
    decreases |ts|
  {
    if ts == [] {
    } else if |ts| == 1 {
      assert ts[..0] == [] && args == [args[0]];
      assert Feed(AtArgs(fs, name), ts[..0]) == AtArgs(fs, name);
    } else {
      FeedArgs(ts[..|ts| - 2], fs, name, args[..|args| - 1]);
      FeedNextArg(ts, fs, name, args);
    }
  }

  lemma FeedNextArg(ts: seq<Token>, fs: seq<Filter>, name: string, args: seq<Arg>)
    requires |ts| >= 2 && args != [] && ts[|ts| - 2] == Comma && ArgOf(ts[|ts| - 1]) == Some(args[|args| - 1])
    requires
      var c := Feed(AtArgs(fs, name), ts[..|ts| - 2]);
      c == AfterArg(fs, name, args[..|args| - 1]) || (c == AtArgs(fs, name) && |args| == 1)
    ensures Feed(AtArgs(fs, name), ts) == AfterArg(fs, name, args)
  {
    var n := |ts| - 2;
    FeedConcat(AtArgs(fs, name), ts[..n], ts[n..]);
    assert ts == ts[..n] + ts[n..] && ts[n..] == [Comma, ts[n + 1]];
    FeedTwo(Feed(AtArgs(fs, name), ts[..n]), Comma, ts[n + 1]);
    StepsCommaArg(Feed(AtArgs(fs, name), ts[..n]), ts[n + 1], fs, name, args);
  }

  lemma StepsCommaArg(c: Config, t: Token, fs: seq<Filter>, name: string, args: seq<Arg>)
    requires args != [] && ArgOf(t) == Some(args[|args| - 1])
    requires c == AfterArg(fs, name, args[..|args| - 1]) || (c == AtArgs(fs, name) && |args| == 1)
    ensures Step(Step(c, Comma), t) == AfterArg(fs, name, args)
  {
    assert args == args[..|args| - 1] + [args[|args| - 1]];
  }

  lemma {:induction false} FeedFilter(ts: seq<Token>, fs: seq<Filter>, f: Filter)
    requires DerivesFilter(ts, f)
    ensures Feed(AtFilter(fs), ts) == AfterFilter(fs + [f])
  {
    var inner := ts[2..|ts| - 1];
    assert ts[..|ts| - 1] == [ts[0], ts[1]] + inner;
    FeedConcat(AtFilter(fs), [ts[0], ts[1]], inner);
    FeedTwo(AtFilter(fs), ts[0], ts[1]);
    FeedArgs(inner, fs, f.name, f.args);
  }

  lemma {:induction false} FeedFilters(ts: seq<Token>, fs: seq<Filter>)
    requires DerivesFilters(ts, fs)
    ensures Feed(AtFilter([]), ts) == AfterFilter(fs)
    decreases |fs|
  {
    if |fs| == 1 {
      FeedFilter(ts, [], fs[0]);
      assert [] + [fs[0]] == fs;
    } else {
      var k: nat :| ArrowAt(ts, k, fs);
      FeedFilters(ts[..k], fs[..|fs| - 1]);
      FeedNextFilter(ts, k, fs[..|fs| - 1], fs[|fs| - 1]);
      assert fs == fs[..|fs| - 1] + [fs[|fs| - 1]];
    }
  }

  lemma {:induction false} FeedNextFilter(ts: seq<Token>, k: nat, before: seq<Filter>, f: Filter)
    requires k < |ts| && ts[k] == Arrow && DerivesFilter(ts[k + 1..], f)
    requires Feed(AtFilter([]), ts[..k]) == AfterFilter(before)
    ensures Feed(AtFilter([]), ts) == AfterFilter(before + [f])
  {
    FeedConcat(AtFilter([]), ts[..k + 1], ts[k + 1..]);
    assert ts == ts[..k + 1] + ts[k + 1..] && ts[..k + 1][..k] == ts[..k];
    FeedFilter(ts[k + 1..], before, f);
  }

  // The parser accepts exactly what the productions derive, with the same filters.
  lemma {:induction false} ParseIsDerivation(ts: seq<Token>, fs: seq<Filter>)
    ensures Parse(ts) == Some(fs) <==> Derives(ts, fs)
  {
    if Derives(ts, fs) {
      if !(ts == [] && fs == []) { FeedFilters(ts, fs); }
    }
    if Parse(ts) == Some(fs) {
      FeedExplains(ts);
    }
  }
}
