/**
 The eskip lexer: scanners for literals, symbols, numbers and comments, the dispatch on the first
 byte, and the lexer object. Each scanning loop is proved against a recursive reading of the text.
 */
module EskipLexer {
  import opened Options
  import opened EskipEscape

  datatype Token =
    | And | Any | Arrow | CloseParen | Colon | Comma | Number(text: string) | OpenParen
    | RegexpLiteral(val: string) | Semicolon | Shunt | Loopback | Dynamic | Forward
    | StringLiteral(val: string) | Symbol(val: string) | OpenArrow | CloseArrow

  datatype LexError = InvalidCharacter | IncompleteToken | UnexpectedToken | Eof

  // What a scanner makes of the head of the text: a token, a comment, or an error; rest is what
  // the lexer continues with.
  datatype Scanned =
    | Scan(token: Token, rest: string)
    | Void(rest: string)
    | Bad(error: LexError, rest: string)

  // ---------- Character classes ----------

  predicate IsAlpha(c: char) { 'a' <= c <= 'z' || 'A' <= c <= 'Z' }
  predicate IsDigit(c: char) { '0' <= c <= '9' }
  predicate IsSymbolStart(c: char) { IsAlpha(c) || c == '_' }
  predicate IsSymbolChar(c: char) { IsAlpha(c) || IsDigit(c) || c == '_' }
  predicate IsNumberChar(c: char) { IsDigit(c) || c == '.' }
  predicate IsWhitespace(c: char) {
    c == ' ' || c == '\n' || c == '\t' || c == '\U{B}' || c == '\U{C}' || c == '\r' || c == '\U{85}' || c == '\U{A0}'
  }

  // The length of the longest prefix of bytes that satisfy p.
  function Span(p: char -> bool, code: string): (n: nat)
    ensures n <= |code|
    ensures forall k :: 0 <= k < n ==> p(code[k])
    ensures n < |code| ==> !p(code[n])
  {
    if code == "" || !p(code[0]) then 0 else 1 + Span(p, code[1..])
  }

  lemma {:induction false} SpanIs(p: char -> bool, code: string, n: nat)
    requires n <= |code| && (forall k :: 0 <= k < n ==> p(code[k])) && (n < |code| ==> !p(code[n]))
    ensures Span(p, code) == n
  {
    if n > 0 { SpanIs(p, code[1..], n - 1); }
  }

  method ScanWhile(code: string, p: char -> bool) returns (head: string, rest: string)
    ensures head == code[..Span(p, code)] && rest == code[Span(p, code)..]
  {
    for i := 0 to |code|
      invariant forall k :: 0 <= k < i ==> p(code[k])
    {
      if !p(code[i]) {
        SpanIs(p, code, i);
        return code[..i], code[i..];
      }
    }
    SpanIs(p, code, |code|);
    head, rest := code, "";
    assert code[..|code|] == code;
  }

  function SkipWhitespace(code: string): string {
    code[Span(IsWhitespace, code)..]
  }

  method ScanWhitespace(code: string) returns (rest: string)
    ensures rest == SkipWhitespace(code)
  {
    var start := 0;
    while start < |code| && IsWhitespace(code[start])
      invariant start <= |code|
      invariant forall k :: 0 <= k < start ==> IsWhitespace(code[k])
    {
      start := start + 1;
    }
    SpanIs(IsWhitespace, code, start);
    rest := code[start..];
  }

  // ---------- String literals ----------

  // What an escaped byte stands for.
  function Unescaped(c: char, delimiter: char): string {
    if c in LETTERS then [Control(c)]
    else if c == delimiter || c == '\\' then [c]
    else ['\\', c]
  }

  // The text up to the first unescaped delimiter, unescaped, and what follows from there on.
  function ReadEscaped(delimiter: char, code: string, escaped: bool): (string, string) {
    if code == "" then ("", "")
    else if escaped then Before(Unescaped(code[0], delimiter), ReadEscaped(delimiter, code[1..], false))
    else if code[0] == delimiter then ("", code)
    else if code[0] == '\\' then ReadEscaped(delimiter, code[1..], true)
    else Before([code[0]], ReadEscaped(delimiter, code[1..], false))
  }

  function Before(prefix: string, r: (string, string)): (string, string) {
    (prefix + r.0, r.1)
  }

  lemma BeforeConcat(a: string, b: string, r: (string, string))
    ensures Before(a, Before(b, r)) == Before(a + b, r)
    ensures Before("", r) == r
  {
    assert a + (b + r.0) == (a + b) + r.0;
    assert "" + r.0 == r.0;
  }

  lemma {:induction false} ReadVerbatim(delimiter: char, code: string, i: nat)
    requires i <= |code| && forall k :: 0 <= k < i ==> code[k] != delimiter && code[k] != '\\'
    ensures ReadEscaped(delimiter, code, false) == Before(code[..i], ReadEscaped(delimiter, code[i..], false))
    decreases i
  {
    if i == 0 {
      assert code[0..] == code;
      BeforeConcat("", "", ReadEscaped(delimiter, code, false));
    } else {
      ReadVerbatim(delimiter, code[1..], i - 1);
      assert code[1..][i - 1..] == code[i..];
      assert code[..i] == [code[0]] + code[1..][..i - 1];
      BeforeConcat([code[0]], code[1..][..i - 1], ReadEscaped(delimiter, code[i..], false));
    }
  }

  // The fast path returns the text before a delimiter that no backslash precedes; otherwise the
  // text is unescaped byte by byte. Both read the same.
  method ScanEscaped(delimiter: char, code: string) returns (val: string, rest: string)
    ensures (val, rest) == ReadEscaped(delimiter, code, false)
  {
    for i := 0 to |code|
      invariant forall k :: 0 <= k < i ==> code[k] != delimiter && code[k] != '\\'
    {
      if code[i] == delimiter {
        ReadVerbatim(delimiter, code, i);
        assert code[..i] + "" == code[..i];
        return code[..i], code[i..];
      } else if code[i] == '\\' {
        break;
      }
    }
    val, rest := "", code;
    var escaped := false;
    BeforeConcat("", "", ReadEscaped(delimiter, code, false));
    while |rest| > 0
      invariant ReadEscaped(delimiter, code, false) == Before(val, ReadEscaped(delimiter, rest, escaped))
      decreases |rest|
    {
      var c := rest[0];
      BeforeConcat(val, Unescaped(c, delimiter), ReadEscaped(delimiter, rest[1..], false));
      BeforeConcat(val, [c], ReadEscaped(delimiter, rest[1..], false));
      assert val + ['\\', c] == val + ['\\'] + [c] && val + "" == val;
      if escaped {
        if c in LETTERS {
          c := Control(c);
        } else if c == delimiter || c == '\\' {
        } else {
          val := val + ['\\'];
        }
        val := val + [c];
        escaped := false;
      } else {
        if c == delimiter {
          return val, rest;
        }
        if c == '\\' {
          escaped := true;
        } else {
          val := val + [c];
        }
      }
      rest := rest[1..];
    }
    assert val + "" == val;
  }

  function StringToken(delimiter: char, code: string): Scanned
    requires code != ""
  {
    var (val, rest) := ReadEscaped(delimiter, code[1..], false);
    if rest == "" then Bad(IncompleteToken, "") else Scan(StringLiteral(val), rest[1..])
  }

  // ---------- Regular expression literals ----------

  // A '[' opens and a ']' closes a group.
  function GroupAfter(inside: bool, c: char): bool {
    if c == '[' then true else if c == ']' then false else inside
  }

  // The text up to the first '/' that is neither escaped nor inside a group. Only escaped
  // backslashes and slashes lose their backslash.
  function ReadRegexp(code: string, escaped: bool, inside: bool): (string, string) {
    if code == "" then ("", "")
    else
      var c := code[0];
      if escaped then
        Before(if c == '/' || c == '\\' then [c] else ['\\', c], ReadRegexp(code[1..], false, inside))
      else if c == '/' && !inside then ("", code)
      else if c == '\\' then ReadRegexp(code[1..], true, inside)
      else Before([c], ReadRegexp(code[1..], false, GroupAfter(inside, c)))
  }

  method ScanRegexp(code: string) returns (val: string, rest: string)
    ensures (val, rest) == ReadRegexp(code, false, false)
  {
    val, rest := "", code;
    var escaped, insideGroup := false, false;
    BeforeConcat("", "", ReadRegexp(code, false, false));
    while |rest| > 0
      invariant ReadRegexp(code, false, false) == Before(val, ReadRegexp(rest, escaped, insideGroup))
      decreases |rest|
    {
      var c := rest[0];
      BeforeConcat(val, ['\\', c], ReadRegexp(rest[1..], false, insideGroup));
      BeforeConcat(val, [c], ReadRegexp(rest[1..], false, insideGroup));
      BeforeConcat(val, [c], ReadRegexp(rest[1..], false, GroupAfter(insideGroup, c)));
      assert val + ['\\', c] == val + ['\\'] + [c] && val + "" == val;
      if !escaped && !insideGroup && c == '[' {
        insideGroup := true;
      } else if !escaped && insideGroup && c == ']' {
        insideGroup := false;
      }
      if escaped {
        if c != '/' && c != '\\' {
          val := val + ['\\'];
        }
        val := val + [c];
        escaped := false;
      } else {
        if c == '/' && !insideGroup {
          return val, rest;
        }
        if c == '\\' {
          escaped := true;
        } else {
          val := val + [c];
        }
      }
      rest := rest[1..];
    }
    assert val + "" == val;
  }

  function RegexpOrComment(code: string): Scanned
    requires code != ""
  {
    if |code| < 2 then Bad(InvalidCharacter, code)
    else if code[1] == '/' then Void(code[Span(c => c != '\n', code)..])
    else
      var (val, rest) := ReadRegexp(code[1..], false, false);
      if rest == "" then Bad(IncompleteToken, "") else Scan(RegexpLiteral(val), rest[1..])
  }

  // ---------- Numbers and symbols ----------

  // The number of digits at the head, with at most one decimal point among them.
  function NumberSpan(code: string, decimal: bool): (n: nat)
    ensures n <= |code|
    ensures code != "" && IsNumberChar(code[0]) && !decimal ==> n > 0
  {
    if code == "" then 0
    else if code[0] == '.' then (if decimal then 0 else 1 + NumberSpan(code[1..], true))
    else if IsDigit(code[0]) then 1 + NumberSpan(code[1..], decimal)
    else 0
  }

  // The longest head of digits with at most one decimal point, or none after one was seen.
  lemma {:induction false} NumberSpanIsLongest(code: string, decimal: bool)
    ensures
      var n := NumberSpan(code, decimal);
      && (forall k :: 0 <= k < n ==> IsNumberChar(code[k]))
      && (forall j, k :: 0 <= j < k < n ==> code[j] != '.' || code[k] != '.')
      && (decimal ==> '.' !in code[..n])
      && (n < |code| && IsNumberChar(code[n]) ==> code[n] == '.' && (decimal || '.' in code[..n]))
  {
    var n := NumberSpan(code, decimal);
    if n > 0 {
      var seen := decimal || code[0] == '.';
      NumberSpanIsLongest(code[1..], seen);
      assert code[..n] == [code[0]] + code[1..][..n - 1];
      forall k | 0 < k < n ensures code[k] == code[1..][k - 1] == code[1..][..n - 1][k - 1] {
      }
    }
  }

  // A number, with an optional sign that the caller has seen to be followed by a number byte.
  function NumberToken(code: string): (r: Scanned)
    requires code != "" && (IsNumberChar(code[0]) || (code[0] == '-' && |code| >= 2 && IsNumberChar(code[1])))
    ensures |r.rest| < |code|
  {
    var start := if code[0] == '-' then 1 else 0;
    var n := start + NumberSpan(code[start..], false);
    if code[n - 1] == '.' then Bad(IncompleteToken, code[n..]) else Scan(Number(code[..n]), code[n..])
  }

  // The loop over the bytes of a number; a second decimal point ends it.
  method ScanNumber(code: string) returns (r: Scanned)
    requires code != "" && (IsNumberChar(code[0]) || (code[0] == '-' && |code| >= 2 && IsNumberChar(code[1])))
    ensures r == NumberToken(code)
  {
    var decimal := false;
    var start := if code[0] == '-' then 1 else 0;
    var n := start;
    while n < |code| && (IsDigit(code[n]) || (code[n] == '.' && !decimal))
      invariant start <= n <= |code|
      invariant NumberSpan(code[start..], false) == n - start + NumberSpan(code[n..], decimal)
    {
      assert code[n..][1..] == code[n + 1..];
      if code[n] == '.' { decimal := true; }
      n := n + 1;
    }
    if code[n - 1] == '.' {
      return Bad(IncompleteToken, code[n..]);
    }
    r := Scan(Number(code[..n]), code[n..]);
  }

  function SymbolToken(code: string): Scanned {
    var n := Span(IsSymbolChar, code);
    Scan(Symbol(code[..n]), code[n..])
  }

  // ---------- Dispatch on the first byte ----------

  function Prefixed(code: string): Scanned
    requires code != "" && code[0] == '<'
  {
    if "<shunt>" <= code then Scan(Shunt, code[7..])
    else if "<loopback>" <= code then Scan(Loopback, code[10..])
    else if "<dynamic>" <= code then Scan(Dynamic, code[9..])
    else if "<forward>" <= code then Scan(Forward, code[9..])
    else Scan(OpenArrow, code[1..])
  }

  function ScanToken(code: string): Scanned
    requires code != ""
  {
    var c := code[0];
    var two := |code| >= 2;
    if c == ',' then Scan(Comma, code[1..])
    else if c == ')' then Scan(CloseParen, code[1..])
    else if c == '(' then Scan(OpenParen, code[1..])
    else if c == ':' then Scan(Colon, code[1..])
    else if c == ';' then Scan(Semicolon, code[1..])
    else if c == '>' then Scan(CloseArrow, code[1..])
    else if c == '*' then Scan(Any, code[1..])
    else if c == '&' && two && code[1] == '&' then Scan(And, code[2..])
    else if c == '-' && two && code[1] == '>' then Scan(Arrow, code[2..])
    else if c == '-' && two && IsNumberChar(code[1]) then NumberToken(code)
    else if c == '/' then RegexpOrComment(code)
    else if c == '"' then StringToken('"', code)
    else if c == '`' then StringToken('`', code)
    else if c == '<' then Prefixed(code)
    else if IsNumberChar(c) then NumberToken(code)
    else if IsSymbolStart(c) then SymbolToken(code)
    else Bad(UnexpectedToken, code)
  }

  lemma {:induction false} ReadEscapedShrinks(delimiter: char, code: string, escaped: bool)
    ensures |ReadEscaped(delimiter, code, escaped).1| <= |code|
    decreases |code|
  {
    if code != "" {
      ReadEscapedShrinks(delimiter, code[1..], false);
      ReadEscapedShrinks(delimiter, code[1..], true);
    }
  }

  lemma {:induction false} ReadRegexpShrinks(code: string, escaped: bool, inside: bool)
    ensures |ReadRegexp(code, escaped, inside).1| <= |code|
    decreases |code|
  {
    if code != "" {
      ReadRegexpShrinks(code[1..], false, inside);
      ReadRegexpShrinks(code[1..], true, inside);
      ReadRegexpShrinks(code[1..], false, GroupAfter(inside, code[0]));
    }
  }

  // Tokens and comments are never empty, so the lexer always advances.
  lemma ScanTokenAdvances(code: string)
    requires code != ""
    ensures !ScanToken(code).Bad? ==> |ScanToken(code).rest| < |code|
  {
    ReadEscapedShrinks('"', code[1..], false);
    ReadEscapedShrinks('`', code[1..], false);
    ReadRegexpShrinks(code[1..], false, false);
  }

  // ---------- The lexer ----------

  // The next token, comments skipped, and the text the lexer is left with.
  function NextToken(code: string): (r: Scanned)
    ensures r.Scan? ==> |r.rest| < |code|
    ensures !r.Void?
    decreases |code|
  {
    var text := SkipWhitespace(code);
    if text == "" then Bad(Eof, "")
    else
      var r := ScanToken(text);
      ScanTokenAdvances(text);
      match r
      case Void(rest) => NextToken(rest)
      case _ => r
  }

  // All tokens of a text, or None when lexing fails.
  function Tokens(code: string): Option<seq<Token>>
    decreases |code|
  {
    match NextToken(code)
    case Scan(t, rest) =>
      var tail := Tokens(rest);
      if tail.Some? then Some([t] + tail.value) else None
    case Bad(error, _) => if error == Eof then Some([]) else None
  }

  class Lexer {
    var code: string
    var lastToken: string

    constructor (code: string)
      ensures this.code == code && lastToken == ""
    {
      this.code, lastToken := code, "";
    }

    // Yields the next token or an error and leaves the rest of the text in code.
    method Next() returns (r: Scanned)
      modifies this
      ensures r == NextToken(old(code)) && code == r.rest
      decreases |code|
    {
      code := ScanWhitespace(code);
      if |code| == 0 {
        return Bad(Eof, "");
      }
      r := ScanAt();
      if r == Bad(UnexpectedToken, code) {
        return;
      }
      ScanTokenAdvances(code);
      code := r.rest;
      if r.Void? {
        r := Next();
      } else if r.Scan? {
        lastToken := Text(r.token);
      }
    }

    // Scans the token the text starts with, without consuming it.
    method ScanAt() returns (r: Scanned)
      requires code != ""
      ensures r == ScanToken(code)
    {
      if code[0] == '"' || code[0] == '`' {
        var val, rest := ScanEscaped(code[0], code[1..]);
        r := if rest == "" then Bad(IncompleteToken, "") else Scan(StringLiteral(val), rest[1..]);
      } else if code[0] == '/' && |code| >= 2 && code[1] != '/' {
        var val, rest := ScanRegexp(code[1..]);
        r := if rest == "" then Bad(IncompleteToken, "") else Scan(RegexpLiteral(val), rest[1..]);
      } else if IsNumberChar(code[0]) || (code[0] == '-' && |code| >= 2 && IsNumberChar(code[1])) {
        r := ScanNumber(code);
      } else if IsSymbolStart(code[0]) {
        var val, rest := ScanWhile(code, IsSymbolChar);
        r := Scan(Symbol(val), rest);
      } else {
        r := ScanToken(code);
      }
    }
  }

  function Text(t: Token): string {
    match t
    case Number(s) => s
    case RegexpLiteral(s) => s
    case StringLiteral(s) => s
    case Symbol(s) => s
    case And => "&&"
    case Any => "*"
    case Arrow => "->"
    case CloseParen => ")"
    case Colon => ":"
    case Comma => ","
    case OpenParen => "("
    case Semicolon => ";"
    case Shunt => "<shunt>"
    case Loopback => "<loopback>"
    case Dynamic => "<dynamic>"
    case Forward => "<forward>"
    case OpenArrow => "<"
    case CloseArrow => ">"
  }
}
