/**
 Printing a literal and scanning it back. The printer's escaping and the scanners' unescaping are
 written separately; for string literals they always undo each other, for regular expressions
 under an exact condition.
 */
module EskipLiterals {
  import opened EskipEscape
  import opened EskipLexer

  // ---------- String literals ----------

  // A delimiter is neither a backslash nor an escape letter; both string delimiters qualify.
  predicate IsDelimiter(d: char) {
    d != '\\' && d !in LETTERS
  }

  lemma ReadEscapedByte(d: char, c: char, tail: string)
    requires IsDelimiter(d)
    ensures ReadEscaped(d, EscapeByte(c, [d]) + tail, false) == Before([c], ReadEscaped(d, tail, false))
  {
    var e := EscapeByte(c, [d]);
    assert (e + tail)[0] == e[0];
    if |e| == 1 {
      assert (e + tail)[1..] == tail;
    } else {
      assert (e + tail)[1..] == [e[1]] + tail;
      assert ([e[1]] + tail)[1..] == tail;
    }
  }

  // Any byte string printed between delimiters is read back, up to the closing delimiter.
  lemma {:induction false} StringRoundTrip(d: char, s: string, rest: string)
    requires IsDelimiter(d)
    ensures ReadEscaped(d, EscapeText(s, [d]) + [d] + rest, false) == (s, [d] + rest)
  {
    if s == "" {
      assert EscapeText(s, [d]) + [d] + rest == [d] + rest;
    } else {
      var tail := EscapeText(s[1..], [d]) + [d] + rest;
      assert EscapeText(s, [d]) + [d] + rest == EscapeByte(s[0], [d]) + tail;
      ReadEscapedByte(d, s[0], tail);
      StringRoundTrip(d, s[1..], rest);
      assert s == [s[0]] + s[1..];
    }
  }

  // The quoted form is one token with the original text as its value.
  lemma StringTokenRoundTrip(d: char, s: string, rest: string)
    requires d == '"' || d == '`'
    ensures ScanToken([d] + EscapeText(s, [d]) + [d] + rest) == Scan(StringLiteral(s), rest)
  {
    StringRoundTrip(d, s, rest);
    var code := [d] + EscapeText(s, [d]) + [d] + rest;
    assert code[1..] == EscapeText(s, [d]) + [d] + rest;
    assert ([d] + rest)[1..] == rest;
  }

  // ---------- Regular expression literals ----------

  // The bracket state after a text, backslashes ignored.
  function GroupState(s: string, inside: bool): bool {
    if s == "" then inside else GroupState(s[1..], GroupAfter(inside, s[0]))
  }

  // What scanning makes of an escaped text: control characters stay two bytes.
  function ScannedRegexp(s: string): string {
    if s == "" then ""
    else (if s[0] in CONTROLS then ['\\', Letter(s[0])] else [s[0]]) + ScannedRegexp(s[1..])
  }

  lemma {:induction false} ScannedRegexpLength(s: string)
    ensures |ScannedRegexp(s)| >= |s|
    ensures (forall c :: c in s ==> c !in CONTROLS) <==> ScannedRegexp(s) == s
    ensures ScannedRegexp(s) != s ==> |ScannedRegexp(s)| > |s|
  {
    if s != "" {
      ScannedRegexpLength(s[1..]);
      assert s == [s[0]] + s[1..];
      if s[0] !in CONTROLS {
        assert ScannedRegexp(s)[1..] == ScannedRegexp(s[1..]);
        assert forall c :: c in s <==> c == s[0] || c in s[1..];
      } else {
        assert s[0] in s;
      }
    }
  }

  lemma ReadRegexpByte(c: char, tail: string, inside: bool)
    ensures ReadRegexp(EscapeByte(c, "/") + tail, false, inside)
         == Before(if c in CONTROLS then ['\\', Letter(c)] else [c], ReadRegexp(tail, false, GroupAfter(inside, c)))
  {
    var e := EscapeByte(c, "/");
    assert (e + tail)[0] == e[0];
    if |e| == 1 {
      assert (e + tail)[1..] == tail;
    } else {
      assert (e + tail)[1..] == [e[1]] + tail;
      assert ([e[1]] + tail)[1..] == tail;
    }
  }

  lemma {:induction false} ReadRegexpText(s: string, tail: string, inside: bool)
    ensures ReadRegexp(EscapeText(s, "/") + tail, false, inside)
         == Before(ScannedRegexp(s), ReadRegexp(tail, false, GroupState(s, inside)))
    decreases |s|
  {
    if s == "" {
      assert EscapeText(s, "/") + tail == tail;
      BeforeConcat("", "", ReadRegexp(tail, false, inside));
    } else {
      var rest := EscapeText(s[1..], "/") + tail;
      assert EscapeText(s, "/") + tail == EscapeByte(s[0], "/") + rest;
      ReadRegexpByte(s[0], rest, inside);
      ReadRegexpText(s[1..], tail, GroupAfter(inside, s[0]));
      BeforeConcat(if s[0] in CONTROLS then ['\\', Letter(s[0])] else [s[0]], ScannedRegexp(s[1..]),
                   ReadRegexp(tail, false, GroupState(s, inside)));
    }
  }

  // An expression survives printing and scanning exactly when it is not empty, has none of the
  // escaped control characters and leaves no bracket group open.
  lemma {:induction false} RegexpRoundTrip(s: string, rest: string)
    ensures ScanToken("/" + EscapeText(s, "/") + "/" + rest) == Scan(RegexpLiteral(s), rest)
       <==> s != "" && (forall c :: c in s ==> c !in CONTROLS) && !GroupState(s, false)
  {
    var code := "/" + EscapeText(s, "/") + "/" + rest;
    if s == "" {
      assert code[1] == '/';
    } else {
      assert code[1..] == EscapeText(s, "/") + ("/" + rest);
      assert EscapeText(s, "/")[0] == EscapeByte(s[0], "/")[0] != '/';
      assert code[1] == EscapeText(s, "/")[0];
      ReadRegexpText(s, "/" + rest, false);
      ScannedRegexpLength(s);
      assert ("/" + rest)[0] == '/' && ("/" + rest)[1..] == rest;
      assert ScannedRegexp(s) + "" == ScannedRegexp(s);
    }
  }

  // One expression of each kind that is not read back.
  lemma NotReadBack(rest: string)
    ensures forall s :: s in ["", "\n", "["] ==>
      ScanToken("/" + EscapeText(s, "/") + "/" + rest) != Scan(RegexpLiteral(s), rest)
  {
    forall s | s in ["", "\n", "["]
      ensures ScanToken("/" + EscapeText(s, "/") + "/" + rest) != Scan(RegexpLiteral(s), rest)
    {
      RegexpRoundTrip(s, rest);
      assert s == "\n" ==> s[0] in CONTROLS;
      assert s == "[" ==> s[1..] == "" && GroupState(s, false);
    }
  }
}
