/**
 Printing of filter chains, and the round trip: lexing and parsing a printed chain gives back the
 same filters.
 */
module EskipPrinter {
  import opened Options
  import opened EskipEscape
  import opened EskipLexer
  import opened EskipLiterals
  import opened EskipGrammar

  datatype PrettyPrintInfo = PrettyPrintInfo(pretty: bool, indentStr: string)

  // ---------- Printing ----------

  function Join(parts: seq<string>, sep: string): string {
    if parts == [] then "" else if |parts| == 1 then parts[0] else parts[0] + sep + Join(parts[1..], sep)
  }

  function Quoted(s: string): string {
    "\"" + EscapeText(s, "\"") + "\""
  }

  // String arguments only: how numbers are formatted is not modelled.
  predicate Strings(args: seq<Arg>) {
    forall i :: 0 <= i < |args| ==> args[i].Text?
  }

  function ArgParts(args: seq<Arg>): (parts: seq<string>)
    requires Strings(args)
    ensures |parts| == |args| && forall i :: 0 <= i < |args| ==> parts[i] == Quoted(args[i].value)
  {
    seq(|args|, i requires 0 <= i < |args| => Quoted(args[i].value))
  }

  function ArgsText(args: seq<Arg>): string
    requires Strings(args)
  {
    Join(ArgParts(args), ", ")
  }

  lemma QuoteIsPlain()
    ensures Plain("\"")
  {
    assert forall c :: c in "\"" ==> c == '"';
  }

  method Quote(s: string) returns (q: string)
    ensures q == Quoted(s)
  {
    var e := Escape(s, "\"");
    QuoteIsPlain();
    q := "\"" + e + "\"";
  }

  lemma ArgPartsSnoc(args: seq<Arg>, i: nat)
    requires Strings(args) && i < |args|
    ensures ArgParts(args[..i + 1]) == ArgParts(args[..i]) + [Quoted(args[i].value)]
  {
  }

  lemma ArgsTextOne(args: seq<Arg>)
    requires Strings(args) && |args| == 1
    ensures ArgsText(args) == Quoted(args[0].value)
  {
  }

  lemma ArgsTextStep(args: seq<Arg>, tail: string)
    requires Strings(args) && |args| >= 2
    ensures ArgsText(args) + tail == Quoted(args[0].value) + (", " + (ArgsText(args[1..]) + tail))
  {
    assert ArgParts(args)[1..] == ArgParts(args[1..]);
    var q, rest := Quoted(args[0].value), ArgsText(args[1..]);
    assert ArgsText(args) == q + ", " + rest;
    assert q + ", " + rest + tail == q + (", " + (rest + tail));
  }

  method ArgsString(args: seq<Arg>) returns (s: string)
    requires Strings(args)
    ensures s == ArgsText(args)
  {
    var parts: seq<string> := [];
    for i := 0 to |args|
      invariant parts == ArgParts(args[..i])
    {
      var quoted := Quote(args[i].value);
      parts := parts + [quoted];
      ArgPartsSnoc(args, i);
    }
    assert args[..|args|] == args;
    s := Join(parts, ", ");
  }

  function FilterText(f: Filter): string
    requires Strings(f.args)
  {
    f.name + "(" + ArgsText(f.args) + ")"
  }

  predicate Printable(fs: seq<Filter>) {
    forall i :: 0 <= i < |fs| ==> Strings(fs[i].args)
  }

  function FilterParts(fs: seq<Filter>): (parts: seq<string>)
    requires Printable(fs)
    ensures |parts| == |fs| && forall i :: 0 <= i < |fs| ==> parts[i] == FilterText(fs[i])
  {
    seq(|fs|, i requires 0 <= i < |fs| => FilterText(fs[i]))
  }

  function Separator(info: PrettyPrintInfo): string {
    if info.pretty then "\n" + info.indentStr + "-> " else " -> "
  }

  function ChainText(fs: seq<Filter>, info: PrettyPrintInfo): string
    requires Printable(fs)
  {
    Join(FilterParts(fs), Separator(info))
  }

  method FilterString(fs: seq<Filter>, info: PrettyPrintInfo) returns (s: string)
    requires Printable(fs)
    ensures s == ChainText(fs, info)
  {
    var parts: seq<string> := [];
    for i := 0 to |fs|
      invariant parts == FilterParts(fs[..i])
    {
      var args := ArgsString(fs[i].args);
      parts := parts + [fs[i].name + "(" + args + ")"];
      assert fs[..i + 1][..i] == fs[..i];
    }
    assert fs[..|fs|] == fs;
    if info.pretty {
      return Join(parts, "\n" + info.indentStr + "-> ");
    }
    s := Join(parts, " -> ");
  }

  // ---------- Lexing printed text ----------

  // Tokens followed by what the rest of the text lexes to.
  function Then(ts: seq<Token>, o: Option<seq<Token>>): Option<seq<Token>> {
    if o.Some? then Some(ts + o.value) else None
  }

  lemma ThenThen(a: seq<Token>, b: seq<Token>, o: Option<seq<Token>>)
    ensures Then(a, Then(b, o)) == Then(a + b, o)
  {
    if o.Some? { assert a + (b + o.value) == a + b + o.value; }
  }

  lemma SkipsSpace(w: string, code: string)
    requires forall i :: 0 <= i < |w| ==> IsWhitespace(w[i])
    ensures Tokens(w + code) == Tokens(code)
  {
    var n := Span(IsWhitespace, code);
    SpanIs(IsWhitespace, w + code, |w| + n);
    assert (w + code)[|w| + n..] == code[n..];
    assert SkipWhitespace(w + code) == SkipWhitespace(code);
    assert NextToken(w + code) == NextToken(code);
  }

  lemma LexesTo(code: string, t: Token, rest: string)
    requires code != "" && !IsWhitespace(code[0]) && ScanToken(code) == Scan(t, rest)
    ensures Tokens(code) == Then([t], Tokens(rest))
  {
    assert Span(IsWhitespace, code) == 0 && code[0..] == code;
    assert NextToken(code) == Scan(t, rest);
  }

  predicate IsSymbol(name: string) {
    name != "" && IsSymbolStart(name[0]) && forall i :: 0 <= i < |name| ==> IsSymbolChar(name[i])
  }

  lemma LexesSymbol(name: string, tail: string)
    requires IsSymbol(name) && tail != "" && !IsSymbolChar(tail[0])
    ensures Tokens(name + tail) == Then([Symbol(name)], Tokens(tail))
  {
    var code := name + tail;
    SpanIs(IsSymbolChar, code, |name|);
    assert code[..|name|] == name && code[|name|..] == tail;
    assert code[0] == name[0];
    assert SymbolToken(code) == Scan(Symbol(name), tail);
    assert ScanToken(code) == SymbolToken(code);
    LexesTo(code, Symbol(name), tail);
  }

  lemma LexesByte(c: char, t: Token, tail: string)
    requires (c == '(' && t == OpenParen) || (c == ')' && t == CloseParen) || (c == ',' && t == Comma)
    ensures Tokens([c] + tail) == Then([t], Tokens(tail))
  {
    assert ([c] + tail)[1..] == tail;
    LexesTo([c] + tail, t, tail);
  }

  lemma LexesArrow(tail: string)
    ensures Tokens("->" + tail) == Then([Arrow], Tokens(tail))
  {
    assert ("->" + tail)[2..] == tail;
    LexesTo("->" + tail, Arrow, tail);
  }

  lemma LexesQuoted(s: string, tail: string)
    ensures Tokens(Quoted(s) + tail) == Then([StringLiteral(s)], Tokens(tail))
  {
    StringTokenRoundTrip('"', s, tail);
    assert Quoted(s) + tail == ['"'] + EscapeText(s, ['"']) + ['"'] + tail;
    LexesTo(Quoted(s) + tail, StringLiteral(s), tail);
  }

  // What the proof below needs to know of lexing, for any lexer of that kind; it holds of Tokens.
  ghost predicate Laws(lex: string -> Option<seq<Token>>, arrow: string) {
    && lex("") == Some([])
    && (forall s, tail :: lex(Quoted(s) + tail) == Then([StringLiteral(s)], lex(tail)))
    && (forall tail :: lex(", " + tail) == Then([Comma], lex(tail)))
    && (forall tail :: lex(")" + tail) == Then([CloseParen], lex(tail)))
    && (forall name, tail :: IsSymbol(name) ==>
          lex(name + ("(" + tail)) == Then([Symbol(name)], lex("(" + tail)))
    && (forall tail :: lex("(" + tail) == Then([OpenParen], lex(tail)))
    && (forall tail :: lex(arrow + tail) == Then([Arrow], lex(tail)))
  }

  // The separator is an arrow between blanks when the indentation is blank.
  predicate BlankIndent(info: PrettyPrintInfo) {
    info.pretty ==> forall i :: 0 <= i < |info.indentStr| ==> IsWhitespace(info.indentStr[i])
  }

  lemma LexesSeparator(info: PrettyPrintInfo, tail: string)
    requires BlankIndent(info)
    ensures Tokens(Separator(info) + tail) == Then([Arrow], Tokens(tail))
  {
    var lead := if info.pretty then "\n" + info.indentStr else " ";
    assert Separator(info) + tail == lead + ("->" + (" " + tail));
    SkipsSpace(lead, "->" + (" " + tail));
    LexesArrow(" " + tail);
    SkipsSpace(" ", tail);
  }

  lemma LexesComma(tail: string)
    ensures Tokens(", " + tail) == Then([Comma], Tokens(tail))
  {
    assert ", " + tail == [','] + (" " + tail);
    LexesByte(',', Comma, " " + tail);
    SkipsSpace(" ", tail);
  }

  lemma TokensObeysLaws(info: PrettyPrintInfo)
    requires BlankIndent(info)
    ensures Laws(Tokens, Separator(info))
  {
    assert NextToken("") == Bad(Eof, "");
    forall s, tail ensures Tokens(Quoted(s) + tail) == Then([StringLiteral(s)], Tokens(tail)) { LexesQuoted(s, tail); }
    forall tail ensures Tokens(", " + tail) == Then([Comma], Tokens(tail)) { LexesComma(tail); }
    forall tail ensures Tokens(")" + tail) == Then([CloseParen], Tokens(tail)) { LexesByte(')', CloseParen, tail); }
    forall tail ensures Tokens("(" + tail) == Then([OpenParen], Tokens(tail)) { LexesByte('(', OpenParen, tail); }
    forall name, tail | IsSymbol(name) ensures Tokens(name + ("(" + tail)) == Then([Symbol(name)], Tokens("(" + tail)) {
      LexesSymbol(name, "(" + tail);
    }
    forall tail ensures Tokens(Separator(info) + tail) == Then([Arrow], Tokens(tail)) { LexesSeparator(info, tail); }
  }

  // ---------- The tokens of a chain ----------

  function ArgTokens(args: seq<Arg>): seq<Token>
    requires Strings(args)
  {
    if args == [] then []
    else if |args| == 1 then [StringLiteral(args[0].value)]
    else [StringLiteral(args[0].value), Comma] + ArgTokens(args[1..])
  }

  function FilterTokens(f: Filter): seq<Token>
    requires Strings(f.args)
  {
    [Symbol(f.name), OpenParen] + ArgTokens(f.args) + [CloseParen]
  }

  function ChainTokens(fs: seq<Filter>): seq<Token>
    requires Printable(fs)
  {
    if fs == [] then []
    else if |fs| == 1 then FilterTokens(fs[0])
    else FilterTokens(fs[0]) + [Arrow] + ChainTokens(fs[1..])
  }

  lemma {:induction false} LexesArgs(lex: string -> Option<seq<Token>>, arrow: string, args: seq<Arg>, tail: string)
    requires Laws(lex, arrow) && Strings(args)
    ensures lex(ArgsText(args) + tail) == Then(ArgTokens(args), lex(tail))
    decreases |args|
  {
    if args == [] {
      LexesNoArgs(lex, tail);
    } else if |args| == 1 {
      assert lex(Quoted(args[0].value) + tail) == Then([StringLiteral(args[0].value)], lex(tail));
      LexesOneArg(lex, args, tail);
    } else {
      var s, rest := args[0].value, ArgsText(args[1..]) + tail;
      assert lex(Quoted(s) + (", " + rest)) == Then([StringLiteral(s)], lex(", " + rest));
      assert lex(", " + rest) == Then([Comma], lex(rest));
      LexesArgs(lex, arrow, args[1..], tail);
      LexesLongArgs(lex, args, tail);
    }
  }

  lemma LexesNoArgs(lex: string -> Option<seq<Token>>, tail: string)
    ensures lex(ArgsText([]) + tail) == Then(ArgTokens([]), lex(tail))
  {
    assert ArgsText([]) + tail == tail;
    ThenNothing(lex(tail));
  }

  lemma LexesOneArg(lex: string -> Option<seq<Token>>, args: seq<Arg>, tail: string)
    requires Strings(args) && |args| == 1
    requires lex(Quoted(args[0].value) + tail) == Then([StringLiteral(args[0].value)], lex(tail))
    ensures lex(ArgsText(args) + tail) == Then(ArgTokens(args), lex(tail))
  {
    ArgsTextOne(args);
  }

  lemma ThenNothing(o: Option<seq<Token>>)
    ensures Then([], o) == o
  {
    if o.Some? { assert [] + o.value == o.value; }
  }

  lemma LexesLongArgs(lex: string -> Option<seq<Token>>, args: seq<Arg>, tail: string)
    requires Strings(args) && |args| >= 2
    requires
      var s, rest := args[0].value, ArgsText(args[1..]) + tail;
      && lex(Quoted(s) + (", " + rest)) == Then([StringLiteral(s)], lex(", " + rest))
      && lex(", " + rest) == Then([Comma], lex(rest))
      && lex(rest) == Then(ArgTokens(args[1..]), lex(tail))
    ensures lex(ArgsText(args) + tail) == Then(ArgTokens(args), lex(tail))
  {
    var s, rest := args[0].value, ArgsText(args[1..]) + tail;
    ArgsTextStep(args, tail);
    LexesTwo(lex, Quoted(s) + (", " + rest), StringLiteral(s), ", " + rest, Comma, rest);
    ThenThen([StringLiteral(s), Comma], ArgTokens(args[1..]), lex(tail));
  }

  lemma LexesTwo(lex: string -> Option<seq<Token>>, a: string, t: Token, b: string, u: Token, c: string)
    requires lex(a) == Then([t], lex(b)) && lex(b) == Then([u], lex(c))
    ensures lex(a) == Then([t, u], lex(c))
  {
    ThenThen([t], [u], lex(c));
    assert [t] + [u] == [t, u];
  }

  lemma FilterTextIs(f: Filter, tail: string)
    requires Strings(f.args)
    ensures FilterText(f) + tail == f.name + ("(" + (ArgsText(f.args) + (")" + tail)))
  {
  }

  lemma {:induction false} LexesFilter(lex: string -> Option<seq<Token>>, arrow: string, f: Filter, tail: string)
    requires Laws(lex, arrow) && Strings(f.args) && IsSymbol(f.name)
    ensures lex(FilterText(f) + tail) == Then(FilterTokens(f), lex(tail))
  {
    var close := ")" + tail;
    var args := ArgsText(f.args) + close;
    FilterTextIs(f, tail);
    LexesArgs(lex, arrow, f.args, close);
    var head, inner := [Symbol(f.name), OpenParen], ArgTokens(f.args);
    LexesTwo(lex, f.name + ("(" + args), Symbol(f.name), "(" + args, OpenParen, args);
    ThenThen(head, inner, lex(close));
    ThenThen(head + inner, [CloseParen], lex(tail));
  }

  predicate Named(fs: seq<Filter>) {
    forall i :: 0 <= i < |fs| ==> IsSymbol(fs[i].name)
  }

  lemma {:induction false} LexesChain(lex: string -> Option<seq<Token>>, fs: seq<Filter>, info: PrettyPrintInfo)
    requires Laws(lex, Separator(info)) && Printable(fs) && Named(fs)
    ensures lex(ChainText(fs, info)) == Some(ChainTokens(fs))
    decreases |fs|
  {
    if |fs| == 1 {
      assert FilterText(fs[0]) + "" == ChainText(fs, info);
      LexesFilter(lex, Separator(info), fs[0], "");
      assert FilterTokens(fs[0]) + [] == FilterTokens(fs[0]);
    } else if |fs| >= 2 {
      assert FilterParts(fs)[1..] == FilterParts(fs[1..]);
      var rest := ChainText(fs[1..], info);
      assert ChainText(fs, info) == FilterText(fs[0]) + (Separator(info) + rest);
      LexesFilter(lex, Separator(info), fs[0], Separator(info) + rest);
      LexesChain(lex, fs[1..], info);
      assert FilterTokens(fs[0]) + ([Arrow] + ChainTokens(fs[1..])) == ChainTokens(fs);
    }
  }

  // ---------- The tokens derive the chain ----------

  lemma {:induction false} FeedsMoreArgs(args: seq<Arg>, fs: seq<Filter>, name: string, done: seq<Arg>)
    requires Strings(args) && args != []
    ensures Feed(AfterComma(fs, name, done), ArgTokens(args)) == AfterArg(fs, name, done + args)
    decreases |args|
  {
    var t, c := StringLiteral(args[0].value), AfterComma(fs, name, done);
    if |args| == 1 {
      assert args == [args[0]];
      FeedOne(c, t);
      assert Step(c, t) == AfterArg(fs, name, done + [args[0]]);
    } else {
      FeedsArgComma(c, args[0].value, ArgTokens(args[1..]));
      assert Arg.Text(args[0].value) == args[0];
      FeedsMoreArgs(args[1..], fs, name, done + [args[0]]);
      assert done + [args[0]] + args[1..] == done + args;
    }
  }

  // An argument and the comma after it.
  lemma FeedsArgComma(c: Config, s: string, rest: seq<Token>)
    requires c.AfterComma? || c.AtArgs?
    ensures
      var done := if c.AfterComma? then c.args else [];
      Feed(c, [StringLiteral(s), Comma] + rest) == Feed(AfterComma(c.fs, c.name, done + [Arg.Text(s)]), rest)
  {
    FeedTwo(c, StringLiteral(s), Comma);
    FeedConcat(c, [StringLiteral(s), Comma], rest);
    StepsArgComma(c, s);
  }

  lemma StepsArgComma(c: Config, s: string)
    requires c.AfterComma? || c.AtArgs?
    ensures
      var done := if c.AfterComma? then c.args else [];
      Step(Step(c, StringLiteral(s)), Comma) == AfterComma(c.fs, c.name, done + [Arg.Text(s)])
  {
    assert [] + [Arg.Text(s)] == [Arg.Text(s)];
  }

  lemma {:induction false} FeedsArgs(args: seq<Arg>, fs: seq<Filter>, name: string)
    requires Strings(args) && args != []
    ensures Feed(AtArgs(fs, name), ArgTokens(args)) == AfterArg(fs, name, args)
  {
    var t, c := StringLiteral(args[0].value), AtArgs(fs, name);
    if |args| == 1 {
      assert args == [args[0]];
      FeedOne(c, t);
    } else {
      FeedsArgComma(c, args[0].value, ArgTokens(args[1..]));
      assert [] + [args[0]] == [args[0]];
      FeedsMoreArgs(args[1..], fs, name, [args[0]]);
      assert [args[0]] + args[1..] == args;
    }
  }

  lemma FeedOne(c: Config, t: Token)
    ensures Feed(c, [t]) == Step(c, t)
  {
    assert [t][..0] == [];
  }

  lemma {:induction false} FeedsFilter(f: Filter, fs: seq<Filter>)
    requires Strings(f.args)
    ensures Feed(AtFilter(fs), FilterTokens(f)) == AfterFilter(fs + [f])
  {
    var head := [Symbol(f.name), OpenParen];
    FeedTwo(AtFilter(fs), Symbol(f.name), OpenParen);
    FeedConcat(AtFilter(fs), head, ArgTokens(f.args));
    FeedConcat(AtFilter(fs), head + ArgTokens(f.args), [CloseParen]);
    if f.args != [] { FeedsArgs(f.args, fs, f.name); }
    FeedOne(Feed(AtFilter(fs), head + ArgTokens(f.args)), CloseParen);
  }

  lemma FeedsFilterArrow(f: Filter, done: seq<Filter>, rest: seq<Token>)
    requires Strings(f.args)
    ensures Feed(AtFilter(done), FilterTokens(f) + [Arrow] + rest) == Feed(AtFilter(done + [f]), rest)
  {
    FeedsFilter(f, done);
    FeedConcat(AtFilter(done), FilterTokens(f), [Arrow]);
    FeedOne(AfterFilter(done + [f]), Arrow);
    FeedConcat(AtFilter(done), FilterTokens(f) + [Arrow], rest);
  }

  lemma {:induction false} FeedsChain(fs: seq<Filter>, done: seq<Filter>)
    requires Printable(fs) && fs != []
    ensures Feed(AtFilter(done), ChainTokens(fs)) == AfterFilter(done + fs)
    decreases |fs|
  {
    if |fs| == 1 {
      assert fs == [fs[0]];
      FeedsFilter(fs[0], done);
    } else {
      FeedsFilterArrow(fs[0], done, ChainTokens(fs[1..]));
      FeedsChain(fs[1..], done + [fs[0]]);
      assert done + [fs[0]] + fs[1..] == done + fs;
    }
  }

  // ---------- The round trip ----------

  // Lexing and parsing a text as a filter chain.
  function ParseFilters(code: string): Option<seq<Filter>> {
    var ts := Tokens(code);
    if ts.Some? then Parse(ts.value) else None
  }

  // Pulls tokens from a lexer until the end of the text, then parses them. A lexing error fails the
  // whole parse.
  method ParseFilterText(code: string) returns (r: Option<seq<Filter>>)
    ensures r == ParseFilters(code)
  {
    var lexer := new Lexer(code);
    var ts: seq<Token> := [];
    ThenNothing(Tokens(code));
    while true
      invariant Tokens(code) == Then(ts, Tokens(lexer.code))
      decreases |lexer.code|
    {
      ghost var before := lexer.code;
      var next := lexer.Next();
      if next.Bad? {
        if next.error != Eof {
          return None;
        }
        assert ts + [] == ts;
        break;
      }
      assert Tokens(before) == Then([next.token], Tokens(next.rest));
      ThenThen(ts, [next.token], Tokens(next.rest));
      ts := ts + [next.token];
    }
    r := ParseTokens(ts);
  }

  // A printed chain lexes to the tokens of its filters.
  lemma PrintedTokens(fs: seq<Filter>, info: PrettyPrintInfo)
    requires Printable(fs) && Named(fs) && BlankIndent(info)
    ensures Tokens(ChainText(fs, info)) == Some(ChainTokens(fs))
  {
    TokensObeysLaws(info);
    LexesChain(Tokens, fs, info);
  }

  // And these tokens parse to it.
  lemma ParsedTokens(fs: seq<Filter>)
    requires Printable(fs)
    ensures Parse(ChainTokens(fs)) == Some(fs)
  {
    if fs != [] {
      FeedsChain(fs, []);
      assert [] + fs == fs;
    }
  }

  // Printing, lexing and parsing a chain of named filters with string arguments is the identity.
  lemma {:induction false} FilterChainRoundTrip(fs: seq<Filter>, info: PrettyPrintInfo)
    requires Printable(fs) && Named(fs) && BlankIndent(info)
    ensures ParseFilters(ChainText(fs, info)) == Some(fs)
  {
    PrintedTokens(fs, info);
    ParsedTokens(fs);
  }

  // Hence two chains never print alike.
  lemma {:induction false} PrintingIsInjective(fs: seq<Filter>, gs: seq<Filter>, info: PrettyPrintInfo)
    requires Printable(fs) && Named(fs) && Printable(gs) && Named(gs) && BlankIndent(info)
    requires ChainText(fs, info) == ChainText(gs, info)
    ensures fs == gs
  {
    FilterChainRoundTrip(fs, info);
    FilterChainRoundTrip(gs, info);
  }
}
