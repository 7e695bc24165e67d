/**
 Escaping of string and regular-expression literals in printed routes. A char stands for one
 byte of the source's strings.
 */
module EskipEscape {

  // The control characters with an escape letter, in the order they are replaced.
  const CONTROLS: string := "\U{7}\U{8}\U{C}\n\r\t\U{B}"
  const LETTERS: string := "abfnrtv"

  function Letter(c: char): (l: char)
    requires c in CONTROLS
    ensures l in LETTERS && Control(l) == c
  {
    if c == '\U{7}' then 'a' else if c == '\U{8}' then 'b' else if c == '\U{C}' then 'f'
    else if c == '\n' then 'n' else if c == '\r' then 'r' else if c == '\t' then 't' else 'v'
  }

  function Control(l: char): (c: char)
    requires l in LETTERS
    ensures c in CONTROLS
  {
    if l == 'a' then '\U{7}' else if l == 'b' then '\U{8}' else if l == 'f' then '\U{C}'
    else if l == 'n' then '\n' else if l == 'r' then '\r' else if l == 't' then '\t' else '\U{B}'
  }

  // ---------- One pass ----------

  // The escaped form of one byte.
  function EscapeByte(c: char, chars: string): string {
    if c == '\\' then ['\\', '\\']
    else if c in CONTROLS then ['\\', Letter(c)]
    else if c in chars then ['\\', c]
    else [c]
  }

  function EscapeText(s: string, chars: string): string {
    if s == "" then "" else EscapeByte(s[0], chars) + EscapeText(s[1..], chars)
  }

  // ---------- The chain of replacements ----------

  function ReplaceAll(s: string, c: char, to: string): string {
    if s == "" then "" else (if s[0] == c then to else [s[0]]) + ReplaceAll(s[1..], c, to)
  }

  // Every control character replaced in turn, after the backslash.
  function ReplaceControls(s: string, controls: string): string
    requires forall c :: c in controls ==> c in CONTROLS
    decreases |controls|
  {
    if controls == "" then s
    else ReplaceControls(ReplaceAll(s, controls[0], ['\\', Letter(controls[0])]), controls[1..])
  }

  function ReplaceChars(s: string, chars: string): string
    decreases |chars|
  {
    if chars == "" then s
    else ReplaceChars(ReplaceAll(s, chars[0], ['\\', chars[0]]), chars[1..])
  }

  function Replaced(s: string, chars: string): string {
    ReplaceChars(ReplaceControls(ReplaceAll(s, '\\', ['\\', '\\']), CONTROLS), chars)
  }

  // Delimiters that later replacements cannot hit: no backslash, no escape letter, no repetition.
  ghost predicate Plain(chars: string) {
    && (forall c :: c in chars ==> c != '\\' && c !in LETTERS)
    && (forall i, j :: 0 <= i < j < |chars| ==> chars[i] != chars[j])
  }

  // ---------- The chain is one pass ----------

  lemma {:induction false} ReplaceAllConcat(s: string, t: string, c: char, to: string)
    ensures ReplaceAll(s + t, c, to) == ReplaceAll(s, c, to) + ReplaceAll(t, c, to)
    decreases |s|
  {
    if s == "" {
      assert s + t == t;
    } else {
      assert (s + t)[1..] == s[1..] + t;
      ReplaceAllConcat(s[1..], t, c, to);
    }
  }

  lemma {:induction false} ReplaceControlsConcat(s: string, t: string, controls: string)
    requires forall c :: c in controls ==> c in CONTROLS
    ensures ReplaceControls(s + t, controls) == ReplaceControls(s, controls) + ReplaceControls(t, controls)
    decreases |controls|
  {
    if controls != "" {
      var c := controls[0];
      ReplaceAllConcat(s, t, c, ['\\', Letter(c)]);
      ReplaceControlsConcat(ReplaceAll(s, c, ['\\', Letter(c)]), ReplaceAll(t, c, ['\\', Letter(c)]), controls[1..]);
    }
  }

  lemma {:induction false} ReplaceCharsConcat(s: string, t: string, chars: string)
    ensures ReplaceChars(s + t, chars) == ReplaceChars(s, chars) + ReplaceChars(t, chars)
    decreases |chars|
  {
    if chars != "" {
      var c := chars[0];
      ReplaceAllConcat(s, t, c, ['\\', c]);
      ReplaceCharsConcat(ReplaceAll(s, c, ['\\', c]), ReplaceAll(t, c, ['\\', c]), chars[1..]);
    }
  }

  lemma {:induction false} ReplacedConcat(s: string, t: string, chars: string)
    ensures Replaced(s + t, chars) == Replaced(s, chars) + Replaced(t, chars)
  {
    var b := ['\\', '\\'];
    ReplaceAllConcat(s, t, '\\', b);
    ReplaceControlsConcat(ReplaceAll(s, '\\', b), ReplaceAll(t, '\\', b), CONTROLS);
    ReplaceCharsConcat(ReplaceControls(ReplaceAll(s, '\\', b), CONTROLS),
                       ReplaceControls(ReplaceAll(t, '\\', b), CONTROLS), chars);
  }

  lemma {:induction false} NothingToReplace(s: string, c: char, to: string)
    requires c !in s
    ensures ReplaceAll(s, c, to) == s
  {
    if s != "" {
      NothingToReplace(s[1..], c, to);
      assert s == [s[0]] + s[1..];
    }
  }

  lemma {:induction false} NoControlToReplace(s: string, controls: string)
    requires forall c :: c in controls ==> c in CONTROLS && c !in s
    ensures ReplaceControls(s, controls) == s
    decreases |controls|
  {
    if controls != "" {
      NothingToReplace(s, controls[0], ['\\', Letter(controls[0])]);
      NoControlToReplace(s, controls[1..]);
    }
  }

  lemma {:induction false} NoCharToReplace(s: string, chars: string)
    requires forall c :: c in chars ==> c !in s
    ensures ReplaceChars(s, chars) == s
    decreases |chars|
  {
    if chars != "" {
      NothingToReplace(s, chars[0], ['\\', chars[0]]);
      NoCharToReplace(s, chars[1..]);
    }
  }

  lemma {:induction false} ReplaceOneControl(c: char, controls: string)
    requires forall x :: x in controls ==> x in CONTROLS
    requires c in controls
    ensures ReplaceControls([c], controls) == ['\\', Letter(c)]
    decreases |controls|
  {
    if controls[0] == c {
      assert ReplaceAll([c], c, ['\\', Letter(c)]) == ['\\', Letter(c)];
      assert forall x :: x in controls[1..] ==> x in controls;
      NoControlToReplace(['\\', Letter(c)], controls[1..]);
    } else {
      NothingToReplace([c], controls[0], ['\\', Letter(controls[0])]);
      ReplaceOneControl(c, controls[1..]);
    }
  }

  lemma {:induction false} ReplaceOneChar(c: char, chars: string)
    requires Plain(chars) && c in chars
    ensures ReplaceChars([c], chars) == ['\\', c]
    decreases |chars|
  {
    assert forall x :: x in chars[1..] ==> x in chars;
    if chars[0] == c {
      assert ReplaceAll([c], c, ['\\', c]) == ['\\', c];
      NoCharToReplace(['\\', c], chars[1..]);
    } else {
      NothingToReplace([c], chars[0], ['\\', chars[0]]);
      ReplaceOneChar(c, chars[1..]);
    }
  }

  lemma {:induction false} ReplacedByte(c: char, chars: string)
    requires Plain(chars)
    ensures Replaced([c], chars) == EscapeByte(c, chars)
  {
    if c == '\\' {
      assert ReplaceAll([c], '\\', ['\\', '\\']) == ['\\', '\\'];
      NoControlToReplace(['\\', '\\'], CONTROLS);
      NoCharToReplace(['\\', '\\'], chars);
    } else {
      NothingToReplace([c], '\\', ['\\', '\\']);
      if c in CONTROLS {
        ReplaceOneControl(c, CONTROLS);
        NoCharToReplace(['\\', Letter(c)], chars);
      } else {
        NoControlToReplace([c], CONTROLS);
        if c in chars { ReplaceOneChar(c, chars); } else { NoCharToReplace([c], chars); }
      }
    }
  }

  lemma ReplacedNothing(chars: string)
    ensures Replaced("", chars) == ""
  {
    NoControlToReplace("", CONTROLS);
    NoCharToReplace("", chars);
  }

  // The chain of replacements is a map over the bytes.
  lemma {:induction false} ReplacedIsOnePass(s: string, chars: string)
    requires Plain(chars)
    ensures Replaced(s, chars) == EscapeText(s, chars)
  {
    if s == "" {
      ReplacedNothing(chars);
    } else {
      assert s == [s[0]] + s[1..];
      ReplacedConcat([s[0]], s[1..], chars);
      ReplacedByte(s[0], chars);
      ReplacedIsOnePass(s[1..], chars);
    }
  }

  lemma ControlStep(s: string, i: nat)
    requires i < |CONTROLS|
    ensures ReplaceControls(s, CONTROLS[i..])
         == ReplaceControls(ReplaceAll(s, CONTROLS[i], ['\\', Letter(CONTROLS[i])]), CONTROLS[i + 1..])
  {
    assert CONTROLS[i..][1..] == CONTROLS[i + 1..];
  }

  // One line of the chain: the control character at position i.
  method ReplaceControl(s: string, i: nat) returns (r: string)
    requires i < |CONTROLS|
    ensures ReplaceControls(s, CONTROLS[i..]) == ReplaceControls(r, CONTROLS[i + 1..])
    ensures r == ReplaceAll(s, CONTROLS[i], ['\\', Letter(CONTROLS[i])])
  {
    ControlStep(s, i);
    r := ReplaceAll(s, CONTROLS[i], ['\\', Letter(CONTROLS[i])]);
  }

  method Escape(s: string, chars: string) returns (r: string)
    ensures r == Replaced(s, chars)
    ensures Plain(chars) ==> r == EscapeText(s, chars)
  {
    r := ReplaceAll(s, '\\', ['\\', '\\']);
    assert CONTROLS[0..] == CONTROLS;
    r := ReplaceControl(r, 0);
    r := ReplaceControl(r, 1);
    r := ReplaceControl(r, 2);
    r := ReplaceControl(r, 3);
    r := ReplaceControl(r, 4);
    r := ReplaceControl(r, 5);
    r := ReplaceControl(r, 6);
    assert CONTROLS[7..] == "";
    for i := 0 to |chars|
      invariant ReplaceChars(r, chars[i..]) == Replaced(s, chars)
    {
      assert chars[i..][1..] == chars[i + 1..];
      r := ReplaceAll(r, chars[i], ['\\', chars[i]]);
    }
    assert chars[|chars|..] == "";
    if Plain(chars) { ReplacedIsOnePass(s, chars); }
  }
}
