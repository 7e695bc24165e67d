/**
 Restoring the escapes of reserved characters in a decoded request path. Characters stand for bytes.
 */
module PatchPath {
  import opened Options

  // The reserved characters that are kept escaped, of section 2.2 of RFC 3986.
  const RESERVED := ";/?:@&=+$,"

  // The table of the recognised escape sequences.
  function Unescape(e: string): Option<char> {
    if e == "%3B" || e == "%3b" then Some(';')
    else if e == "%2F" || e == "%2f" then Some('/')
    else if e == "%3F" || e == "%3f" then Some('?')
    else if e == "%3A" || e == "%3a" then Some(':')
    else if e == "%40" then Some('@')
    else if e == "%26" then Some('&')
    else if e == "%3D" || e == "%3d" then Some('=')
    else if e == "%2B" || e == "%2b" then Some('+')
    else if e == "%24" then Some('$')
    else if e == "%2C" || e == "%2c" then Some(',')
    else None
  }

  // ---------- Percent-decoding ----------

  function HexValue(c: char): (v: Option<nat>)
    ensures v.Some? ==> v.value < 16 && c != '%'
  {
    if '0' <= c <= '9' then Some(c as nat - '0' as nat)
    else if 'A' <= c <= 'F' then Some(c as nat - 'A' as nat + 10)
    else if 'a' <= c <= 'f' then Some(c as nat - 'a' as nat + 10)
    else None
  }

  // The character an escape sequence stands for.
  function Byte(e: string): Option<char>
    requires |e| == 3
  {
    if HexValue(e[1]).Some? && HexValue(e[2]).Some?
    then Some((16 * HexValue(e[1]).value + HexValue(e[2]).value) as char) else None
  }

  lemma HexDigits(e: string, high: nat, low: nat)
    requires |e| == 3 && high < 16 && low < 16
    requires Byte(e) == Some((16 * high + low) as char)
    ensures HexValue(e[1]) == Some(high) && HexValue(e[2]) == Some(low)
  {
    assert 16 * HexValue(e[1]).value + HexValue(e[2]).value == 16 * high + low;
  }

  lemma ReservedDigits(e: string)
    requires |e| == 3 && Byte(e).Some? && Byte(e).value in RESERVED
    ensures
      || (e[1] == '2' && e[2] in "4F6BCfbc") || (e[1] == '3' && e[2] in "ABDFabdf")
      || (e[1] == '4' && e[2] == '0')
  {
    var c := Byte(e).value;
    HexDigits(e, c as nat / 16, c as nat % 16);
  }

  lemma TableIsSound(e: string)
    requires |e| == 3 && Unescape(e).Some?
    ensures Unescape(e) == Byte(e) && Unescape(e).value in RESERVED
  {
  }

  lemma TableIsComplete(e: string)
    requires |e| == 3 && e[0] == '%' && Byte(e).Some? && Byte(e).value in RESERVED
    ensures Unescape(e).Some?
  {
    ReservedDigits(e);
    assert e == [e[0], e[1], e[2]];
  }

  // The table holds exactly the escapes of the reserved characters, in either case.
  lemma UnescapeIsReserved(e: string)
    requires |e| == 3 && e[0] == '%'
    ensures Unescape(e).Some? <==> Byte(e).Some? && Byte(e).value in RESERVED
    ensures Unescape(e).Some? ==> Unescape(e) == Byte(e)
  {
    if Unescape(e).Some? { TableIsSound(e); }
    if Byte(e).Some? && Byte(e).value in RESERVED { TableIsComplete(e); }
  }

  // A raw path is a sequence of plain characters and escape sequences.
  datatype Piece = Plain(c: char) | Escape(text: string)

  ghost predicate WellShaped(p: Piece) {
    match p
    case Plain(c) => c != '%'
    case Escape(e) => |e| == 3 && e[0] == '%'
  }

  // None when a percent sign has fewer than two characters after it.
  function Split(raw: string): (r: Option<seq<Piece>>)
    ensures r.Some? ==> forall i :: 0 <= i < |r.value| ==> WellShaped(r.value[i])
  {
    if raw == "" then Some([])
    else if raw[0] != '%' then After([Plain(raw[0])], Split(raw[1..]))
    else if |raw| < 3 then None
    else After([Escape(raw[..3])], Split(raw[3..]))
  }

  function After(done: seq<Piece>, rest: Option<seq<Piece>>): Option<seq<Piece>> {
    if rest.Some? then Some(done + rest.value) else None
  }

  predicate Reserved(p: Piece) {
    p.Escape? && Unescape(p.text).Some?
  }

  predicate HasReserved(ps: seq<Piece>) {
    exists i :: 0 <= i < |ps| && Reserved(ps[i])
  }

  // ---------- What PatchPath returns ----------

  // The parsed character does not contradict the piece. An escape of another than a reserved
  // character agrees with everything.
  predicate Agrees(p: Piece, c: char) {
    match p
    case Plain(d) => c == d
    case Escape(e) => Unescape(e).Some? ==> Unescape(e).value == c
  }

  predicate AllAgree(ps: seq<Piece>, parsed: string)
    requires |ps| <= |parsed|
  {
    forall i :: 0 <= i < |ps| ==> Agrees(ps[i], parsed[i])
  }

  // The given characters, with the escapes to keep written as they were.
  function Written(ps: seq<Piece>, cs: string, keep: Piece -> bool): string
    requires |ps| <= |cs|
  {
    if ps == [] then ""
    else
      var n := |ps| - 1;
      Written(ps[..n], cs, keep) + Letters(ps[n], cs[n], keep(ps[n]))
  }

  function Letters(p: Piece, c: char, keep: bool): string {
    if keep && p.Escape? then p.text else [c]
  }

  function Patched(parsed: string, raw: string): string {
    var ps := Split(raw);
    if ps.Some? && |ps.value| == |parsed| && AllAgree(ps.value, parsed) && HasReserved(ps.value)
    then Written(ps.value, parsed, Reserved) else parsed
  }

  lemma SplitStep(raw: string, i: nat)
    requires i < |raw|
    ensures raw[i] != '%' ==> Split(raw[i..]) == After([Plain(raw[i])], Split(raw[i + 1..]))
    ensures raw[i] == '%' && |raw| < i + 3 ==> Split(raw[i..]) == None
    ensures raw[i] == '%' && i + 3 <= |raw| ==>
      Split(raw[i..]) == After([Escape(raw[i..i + 3])], Split(raw[i + 3..]))
  {
    var s := raw[i..];
    assert s[1..] == raw[i + 1..];
    if |raw| >= i + 3 {
      assert s[3..] == raw[i + 3..] && s[..3] == raw[i..i + 3];
    }
  }

  // The pieces read so far, and the rest still to be read, make up the raw path.
  ghost predicate Read(raw: string, i: nat, done: seq<Piece>) {
    i <= |raw| && Split(raw) == After(done, Split(raw[i..]))
  }

  lemma ReadNothing(raw: string)
    ensures Read(raw, 0, [])
  {
    assert raw[0..] == raw;
    if Split(raw).Some? { assert [] + Split(raw).value == Split(raw).value; }
  }

  lemma ReadAll(raw: string, done: seq<Piece>)
    requires Read(raw, |raw|, done)
    ensures Split(raw) == Some(done)
  {
    assert Split(raw[|raw|..]) == Some([]);
    assert done + [] == done;
  }

  lemma ReadMore(raw: string, i: nat, done: seq<Piece>, p: Piece, j: nat)
    requires Read(raw, i, done) && j <= |raw|
    requires Split(raw[i..]) == After([p], Split(raw[j..]))
    ensures Read(raw, j, done + [p])
  {
    var rest := Split(raw[j..]);
    if rest.Some? { assert done + ([p] + rest.value) == (done + [p]) + rest.value; }
  }

  // What the walk has established after reading some pieces.
  ghost predicate Walked(parsed: string, done: seq<Piece>, patched: string, doPatch: bool) {
    && |done| <= |parsed| && AllAgree(done, parsed)
    && patched == Written(done, parsed, Reserved) && doPatch == HasReserved(done)
  }

  lemma WalkOn(parsed: string, done: seq<Piece>, p: Piece, patched: string, doPatch: bool)
    requires Walked(parsed, done, patched, doPatch) && |done| < |parsed| && Agrees(p, parsed[|done|])
    ensures var more := patched + if Reserved(p) then p.text else [parsed[|done|]];
            Walked(parsed, done + [p], more, doPatch || Reserved(p))
  {
    var all := done + [p];
    assert all[..|done|] == done;
    if HasReserved(done) {
      var i :| 0 <= i < |done| && Reserved(done[i]);
      assert Reserved(all[i]);
    }
    if Reserved(p) { assert Reserved(all[|done|]); }
    if HasReserved(all) {
      var i :| 0 <= i < |all| && Reserved(all[i]);
      assert i < |done| ==> Reserved(done[i]);
    }
  }

  // A piece the parsed path has no character for, or another one, leaves it unpatched.
  lemma Mismatch(parsed: string, raw: string, i: nat, done: seq<Piece>, p: Piece, j: nat)
    requires Read(raw, i, done) && j <= |raw| && Split(raw[i..]) == After([p], Split(raw[j..]))
    requires |done| <= |parsed| && (|done| == |parsed| || !Agrees(p, parsed[|done|]))
    ensures Patched(parsed, raw) == parsed
  {
    ReadMore(raw, i, done, p, j);
    var ps := Split(raw);
    if ps.Some? {
      assert ps.value[|done|] == p;
    }
  }

  // The walk over the raw and the parsed path.
  method PatchPath(parsed: string, raw: string) returns (r: string)
    ensures r == Patched(parsed, raw)
  {
    var patched: string := "";
    var doPatch := false;
    var pi := 0;
    var i := 0;
    ghost var done: seq<Piece> := [];
    ReadNothing(raw);
    while i < |raw|
      invariant Read(raw, i, done) && pi == |done|
      invariant Walked(parsed, done, patched, doPatch)
    {
      var c := raw[i];
      var escape := c == '%';
      SplitStep(raw, i);
      if pi >= |parsed| || (!escape && parsed[pi] != c) {
        Unpatched(parsed, raw, i, done);
        return parsed;
      }
      if !escape {
        ReadMore(raw, i, done, Plain(c), i + 1);
        WalkOn(parsed, done, Plain(c), patched, doPatch);
        done := done + [Plain(c)];
        patched := patched + [parsed[pi]];
        pi := pi + 1;
        i := i + 1;
      } else if |raw| < i + 3 {
        return parsed;
      } else {
        var e := raw[i..i + 3];
        var unescaped := Unescape(e);
        if unescaped.Some? && parsed[pi] != unescaped.value {
          Mismatch(parsed, raw, i, done, Escape(e), i + 3);
          return parsed;
        }
        ReadMore(raw, i, done, Escape(e), i + 3);
        WalkOn(parsed, done, Escape(e), patched, doPatch);
        done := done + [Escape(e)];
        if unescaped.None? {
          patched := patched + [parsed[pi]];
        } else {
          patched := patched + e;
          doPatch := true;
        }
        pi := pi + 1;
        i := i + 3;
      }
    }
    ReadAll(raw, done);
    if !doPatch || pi < |parsed| { return parsed; }
    return patched;
  }

  // A next piece that the parsed path ends before, or that is a different plain character.
  lemma Unpatched(parsed: string, raw: string, i: nat, done: seq<Piece>)
    requires Read(raw, i, done) && i < |raw| && |done| <= |parsed|
    requires |done| == |parsed| || (raw[i] != '%' && parsed[|done|] != raw[i])
    ensures Patched(parsed, raw) == parsed
  {
    SplitStep(raw, i);
    if raw[i] != '%' {
      Mismatch(parsed, raw, i, done, Plain(raw[i]), i + 1);
    } else if i + 3 <= |raw| {
      Mismatch(parsed, raw, i, done, Escape(raw[i..i + 3]), i + 3);
    }
  }

  // ---------- Every result ----------

  // The second text is the first with some reserved characters written as an escape of theirs.
  ghost predicate EscapedForm(parsed: string, r: string) {
    if parsed == "" then r == ""
    else
      var n := |parsed| - 1;
      || (r != "" && r[|r| - 1] == parsed[n] && EscapedForm(parsed[..n], r[..|r| - 1]))
      || (|r| >= 3 && Unescape(r[|r| - 3..]) == Some(parsed[n]) && EscapedForm(parsed[..n], r[..|r| - 3]))
  }

  lemma {:induction false} PlainForm(parsed: string)
    ensures EscapedForm(parsed, parsed)
  {
    if parsed != "" { PlainForm(parsed[..|parsed| - 1]); }
  }

  lemma {:induction false} WrittenPrefix(ps: seq<Piece>, cs: string, k: nat, keep: Piece -> bool)
    requires |ps| <= k <= |cs|
    ensures Written(ps, cs[..k], keep) == Written(ps, cs, keep)
  {
    if ps != [] { WrittenPrefix(ps[..|ps| - 1], cs, k, keep); }
  }

  lemma {:induction false} WrittenIsEscapedForm(ps: seq<Piece>, parsed: string)
    requires |ps| == |parsed| && AllAgree(ps, parsed)
    requires forall i :: 0 <= i < |ps| ==> WellShaped(ps[i])
    ensures EscapedForm(parsed, Written(ps, parsed, Reserved))
    decreases |ps|
  {
    if ps != [] {
      var n := |ps| - 1;
      WrittenIsEscapedForm(ps[..n], parsed[..n]);
      WrittenPrefix(ps[..n], parsed, n, Reserved);
      var head, r := Written(ps[..n], parsed, Reserved), Written(ps, parsed, Reserved);
      if Reserved(ps[n]) {
        assert r[|r| - 3..] == ps[n].text && r[..|r| - 3] == head;
      } else {
        assert r[..|r| - 1] == head;
      }
    }
  }

  // For all inputs, the result is the parsed path with some reserved characters escaped again.
  lemma PatchedIsEscapedForm(parsed: string, raw: string)
    ensures EscapedForm(parsed, Patched(parsed, raw))
  {
    PlainForm(parsed);
    var ps := Split(raw);
    if ps.Some? && |ps.value| == |parsed| && AllAgree(ps.value, parsed) {
      WrittenIsEscapedForm(ps.value, parsed);
    }
  }

  // ---------- Full decodings ----------

  function PieceByte(p: Piece): Option<char>
    requires WellShaped(p)
  {
    match p
    case Plain(c) => Some(c)
    case Escape(e) => Byte(e)
  }

  // The decoding of the pieces; None when an escape is not two hexadecimal digits.
  function DecodePieces(ps: seq<Piece>): (r: Option<string>)
    requires forall i :: 0 <= i < |ps| ==> WellShaped(ps[i])
    ensures r.Some? ==> |r.value| == |ps| && forall i :: 0 <= i < |ps| ==> PieceByte(ps[i]) == Some(r.value[i])
    ensures r.None? ==> exists i :: 0 <= i < |ps| && PieceByte(ps[i]) == None
  {
    if ps == [] then Some("")
    else
      var n := |ps| - 1;
      var head, last := DecodePieces(ps[..n]), PieceByte(ps[n]);
      if head.Some? && last.Some? then Some(head.value + [last.value]) else None
  }

  // Percent-decoding of a whole path.
  function Decode(raw: string): Option<string> {
    var ps := Split(raw);
    if ps.Some? then DecodePieces(ps.value) else None
  }

  // An escape of a reserved character.
  predicate KeptEscaped(p: Piece) {
    p.Escape? && |p.text| == 3 && Byte(p.text).Some? && Byte(p.text).value in RESERVED
  }

  // The path with every escape decoded except those of the reserved characters.
  function KeepReserved(raw: string): string
    requires Decode(raw).Some?
  {
    Written(Split(raw).value, Decode(raw).value, KeptEscaped)
  }

  lemma {:induction false} WrittenSame(ps: seq<Piece>, cs: string, keep: Piece -> bool, other: Piece -> bool)
    requires |ps| <= |cs| && forall i :: 0 <= i < |ps| ==> keep(ps[i]) == other(ps[i])
    ensures Written(ps, cs, keep) == Written(ps, cs, other)
  {
    if ps != [] { WrittenSame(ps[..|ps| - 1], cs, keep, other); }
  }

  lemma {:induction false} WrittenPlain(ps: seq<Piece>, cs: string, keep: Piece -> bool)
    requires |ps| <= |cs| && forall i :: 0 <= i < |ps| ==> !keep(ps[i])
    ensures Written(ps, cs, keep) == cs[..|ps|]
  {
    if ps != [] {
      var n := |ps| - 1;
      WrittenPlain(ps[..n], cs, keep);
      assert cs[..n] + [cs[n]] == cs[..n + 1];
    }
  }

  // A piece agrees with the character it stands for, and is recognised if that is reserved.
  lemma PieceOfByte(p: Piece, c: char)
    requires WellShaped(p) && PieceByte(p) == Some(c)
    ensures Agrees(p, c) && (Reserved(p) <==> KeptEscaped(p))
  {
    if p.Escape? { UnescapeIsReserved(p.text); }
  }

  lemma BytesAgree(ps: seq<Piece>, parsed: string)
    requires forall i :: 0 <= i < |ps| ==> WellShaped(ps[i])
    requires |ps| <= |parsed| && forall i :: 0 <= i < |ps| ==> PieceByte(ps[i]) == Some(parsed[i])
    ensures AllAgree(ps, parsed) && forall i :: 0 <= i < |ps| ==> Reserved(ps[i]) == KeptEscaped(ps[i])
  {
    forall i | 0 <= i < |ps| ensures Agrees(ps[i], parsed[i]) && Reserved(ps[i]) == KeptEscaped(ps[i]) {
      PieceOfByte(ps[i], parsed[i]);
    }
  }

  // For a decoded path, the result is the raw path with all but the reserved characters decoded.
  lemma DecodedIsPatched(raw: string)
    requires Decode(raw).Some?
    ensures Patched(Decode(raw).value, raw) == KeepReserved(raw)
  {
    var ps, parsed := Split(raw).value, Decode(raw).value;
    BytesAgree(ps, parsed);
    WrittenSame(ps, parsed, Reserved, KeptEscaped);
    if !HasReserved(ps) {
      WrittenPlain(ps, parsed, Reserved);
      assert parsed[..|ps|] == parsed;
    }
  }

  // ---------- Other parsed paths ----------

  lemma {:induction false} WrittenLength(ps: seq<Piece>, cs: string, keep: Piece -> bool, k: nat)
    requires |ps| <= |cs| && forall i :: 0 <= i < |ps| ==> WellShaped(ps[i])
    ensures |Written(ps, cs, keep)| >= |ps|
    ensures k < |ps| && ps[k].Escape? && keep(ps[k]) ==> |Written(ps, cs, keep)| > |ps|
  {
    if ps != [] {
      WrittenLength(ps[..|ps| - 1], cs, keep, k);
    }
  }

  // The raw path has another character here, and not as an escape that is left to the decoder.
  ghost predicate Differs(p: Piece, c: char)
    requires WellShaped(p)
  {
    (p.Plain? || KeptEscaped(p)) && PieceByte(p) != Some(c)
  }

  // A parsed path that is not the decoding of the raw path is returned as it is exactly if the raw
  // path ends within an escape or escapes no reserved character, the lengths differ, or they differ
  // where the raw path has a plain character or an escaped reserved one.
  lemma OtherPathIsKept(parsed: string, raw: string)
    requires Decode(raw) != Some(parsed)
    ensures
      var o := Split(raw);
      Patched(parsed, raw) == parsed <==>
        || o.None? || !HasReserved(o.value) || |o.value| != |parsed|
        || exists i :: 0 <= i < |parsed| && Differs(o.value[i], parsed[i])
  {
    var o := Split(raw);
    if o.Some? && |o.value| == |parsed| {
      var ps := o.value;
      forall i | 0 <= i < |ps| ensures Agrees(ps[i], parsed[i]) <==> !Differs(ps[i], parsed[i]) {
        if ps[i].Escape? { UnescapeIsReserved(ps[i].text); }
      }
      if HasReserved(ps) {
        var k :| 0 <= k < |ps| && Reserved(ps[k]);
        WrittenLength(ps, parsed, Reserved, k);
      }
    }
  }

  lemma TwoEscapes(e: string, f: string)
    requires WellShaped(Escape(e)) && WellShaped(Escape(f))
    ensures Split(e + f) == Some([Escape(e), Escape(f)])
  {
    var raw := e + f;
    assert raw[..3] == e && raw[3..] == f && f[..3] == f && f[3..] == "";
    assert Split("") == Some([]);
    assert Split(f) == After([Escape(f)], Some([]));
    assert [Escape(f)] + [] == [Escape(f)];
    assert Split(raw) == After([Escape(e)], Split(f));
    assert [Escape(e)] + [Escape(f)] == [Escape(e), Escape(f)];
  }

  lemma WrittenTwo(p: Piece, q: Piece, c: char, d: char, keep: Piece -> bool)
    ensures Written([p, q], [c, d], keep) == Letters(p, c, keep(p)) + Letters(q, d, keep(q))
  {
    var ps := [p, q];
    assert ps[..1] == [p] && [p][..0] == [];
    assert Written([p], [c, d], keep) == "" + Letters(p, c, keep(p));
  }

  // The character at an escape of another than a reserved one is not compared: whatever it is, it is
  // taken over.
  lemma OtherEscapeIsNotCompared(e: string, f: string, c: char, d: char)
    requires WellShaped(Escape(e)) && WellShaped(Escape(f))
    requires Unescape(e) == Some(c) && Unescape(f) == None
    ensures Patched([c, d], e + f) == e + [d]
  {
    TwoEscapes(e, f);
    assert Reserved([Escape(e), Escape(f)][0]);
    WrittenTwo(Escape(e), Escape(f), c, d, Reserved);
  }

  // ---------- Decoding the result again ----------

  function Percents(s: string): nat {
    if s == "" then 0 else (if s[0] == '%' then 1 else 0) + Percents(s[1..])
  }

  lemma {:induction false} PercentsConcat(a: string, b: string)
    ensures Percents(a + b) == Percents(a) + Percents(b)
  {
    if a == "" {
      assert a + b == b;
    } else {
      assert (a + b)[1..] == a[1..] + b;
      PercentsConcat(a[1..], b);
    }
  }

  lemma {:induction false} NoPercents(s: string)
    ensures Percents(s) == 0 <==> '%' !in s
  {
    if s != "" {
      NoPercents(s[1..]);
      assert s == [s[0]] + s[1..];
    }
  }

  // An escape has one percent sign if the rest of it is hexadecimal.
  lemma EscapePercents(e: string)
    requires |e| == 3 && e[0] == '%' && Byte(e).Some?
    ensures Percents(e) == 1
  {
    NoPercents(e[1..]);
    assert e[1..] == [e[1], e[2]];
  }

  lemma PercentsAfterEscape(raw: string)
    requires |raw| >= 3 && raw[0] == '%' && Byte(raw[..3]).Some?
    ensures Percents(raw) == 1 + Percents(raw[3..])
  {
    EscapePercents(raw[..3]);
    PercentsConcat(raw[..3], raw[3..]);
    assert raw == raw[..3] + raw[3..];
  }

  ghost predicate AllDecode(ps: seq<Piece>) {
    forall i :: 0 <= i < |ps| ==> WellShaped(ps[i]) && PieceByte(ps[i]).Some?
  }

  lemma RestDecodes(p: Piece, ps: seq<Piece>)
    requires AllDecode([p] + ps)
    ensures AllDecode([p]) && AllDecode(ps)
  {
    assert forall i :: 0 <= i < |ps| ==> ps[i] == ([p] + ps)[i + 1];
    assert ([p] + ps)[0] == p;
  }

  // In a well-formed path every percent sign starts an escape.
  lemma {:induction false} DecodedLength(raw: string)
    requires Split(raw).Some? && AllDecode(Split(raw).value)
    ensures |raw| == |Split(raw).value| + 2 * Percents(raw)
  {
    if raw != "" {
      if raw[0] != '%' {
        RestDecodes(Plain(raw[0]), Split(raw[1..]).value);
        DecodedLength(raw[1..]);
      } else {
        RestDecodes(Escape(raw[..3]), Split(raw[3..]).value);
        DecodedLength(raw[3..]);
        assert PieceByte([Escape(raw[..3])][0]).Some?;
        PercentsAfterEscape(raw);
      }
    }
  }

  // Kept pieces are escapes of something other than a percent sign.
  ghost predicate KeepsEscapes(ps: seq<Piece>, cs: string, keep: Piece -> bool)
    requires |ps| <= |cs|
  {
    forall i :: 0 <= i < |ps| ==> PieceByteIs(ps[i], cs[i]) && (keep(ps[i]) ==> ps[i].Escape? && cs[i] != '%')
  }

  ghost predicate PieceByteIs(p: Piece, c: char) {
    WellShaped(p) && PieceByte(p) == Some(c)
  }

  lemma {:induction false} WrittenPercents(ps: seq<Piece>, cs: string, keep: Piece -> bool)
    requires |ps| <= |cs| && KeepsEscapes(ps, cs, keep)
    ensures |Written(ps, cs, keep)| - 2 * Percents(Written(ps, cs, keep)) == |ps| - 2 * Percents(cs[..|ps|])
  {
    if ps != [] {
      var n := |ps| - 1;
      WrittenPercents(ps[..n], cs, keep);
      var last := Letters(ps[n], cs[n], keep(ps[n]));
      PercentsConcat(Written(ps[..n], cs, keep), last);
      PercentsConcat(cs[..n], [cs[n]]);
      assert cs[..n + 1] == cs[..n] + [cs[n]];
      LettersPercents(ps[n], cs[n], keep(ps[n]));
    }
  }

  lemma LettersPercents(p: Piece, c: char, keep: bool)
    requires PieceByteIs(p, c) && (keep ==> p.Escape? && c != '%')
    ensures |Letters(p, c, keep)| - 2 * Percents(Letters(p, c, keep)) == 1 - 2 * Percents([c])
  {
    if keep { EscapePercents(p.text); }
    assert [c][1..] == "";
  }

  lemma {:induction false} SplitConcat(a: string, b: string)
    requires Split(a).Some? && Split(b).Some?
    ensures Split(a + b) == Some(Split(a).value + Split(b).value)
  {
    if a == "" {
      assert a + b == b;
      assert [] + Split(b).value == Split(b).value;
    } else if a[0] != '%' {
      assert (a + b)[1..] == a[1..] + b;
      SplitConcat(a[1..], b);
      AfterConcat(Plain(a[0]), Split(a[1..]).value, Split(b).value);
    } else {
      assert (a + b)[3..] == a[3..] + b && (a + b)[..3] == a[..3];
      SplitConcat(a[3..], b);
      AfterConcat(Escape(a[..3]), Split(a[3..]).value, Split(b).value);
    }
  }

  lemma AfterConcat(p: Piece, x: seq<Piece>, y: seq<Piece>)
    ensures After([p], Some(x + y)) == Some(([p] + x) + y)
  {
    assert [p] + (x + y) == ([p] + x) + y;
  }

  lemma DecodeConcat(a: string, b: string)
    requires Decode(a).Some? && Decode(b).Some?
    ensures Decode(a + b) == Some(Decode(a).value + Decode(b).value)
  {
    SplitConcat(a, b);
    var ps := Split(a + b).value;
    var d := Decode(a).value + Decode(b).value;
    forall i | 0 <= i < |ps| ensures PieceByte(ps[i]) == Some(d[i]) {
    }
    assert Decode(a + b).Some? && Decode(a + b).value == d;
  }

  lemma DecodeLetters(p: Piece, c: char, keep: bool)
    requires PieceByteIs(p, c) && c != '%'
    ensures Decode(Letters(p, c, keep)) == Some([c])
  {
    var s := Letters(p, c, keep);
    var q := if keep && p.Escape? then p else Plain(c);
    assert Split("") == Some([]) && [q] + [] == [q];
    if keep && p.Escape? {
      assert s[..3] == s && s[3..] == "";
    } else {
      assert s[1..] == "";
    }
    assert Split(s) == Some([q]);
    assert [q][..0] == [] && DecodePieces([]) == Some("") && "" + [c] == [c];
  }

  lemma {:induction false} DecodeWritten(ps: seq<Piece>, cs: string, keep: Piece -> bool)
    requires |ps| <= |cs| && KeepsEscapes(ps, cs, keep) && '%' !in cs
    ensures Decode(Written(ps, cs, keep)) == Some(cs[..|ps|])
  {
    if ps == [] {
      assert Split("") == Some([]) && DecodePieces([]) == Some("");
    } else {
      var n := |ps| - 1;
      DecodeWritten(ps[..n], cs, keep);
      DecodeLetters(ps[n], cs[n], keep(ps[n]));
      DecodeConcat(Written(ps[..n], cs, keep), Letters(ps[n], cs[n], keep(ps[n])));
      assert cs[..n + 1] == cs[..n] + [cs[n]];
    }
  }

  lemma ReservedAreKept(raw: string)
    requires Decode(raw).Some?
    ensures KeepsEscapes(Split(raw).value, Decode(raw).value, KeptEscaped)
  {
  }

  // The patched path still decodes to the parsed one exactly if that has no percent sign.
  lemma PatchedDecodesBack(raw: string)
    requires Decode(raw).Some?
    ensures Decode(Patched(Decode(raw).value, raw)) == Decode(raw) <==> '%' !in Decode(raw).value
  {
    DecodedIsPatched(raw);
    var ps, d := Split(raw).value, Decode(raw).value;
    ReservedAreKept(raw);
    assert d[..|ps|] == d;
    if '%' !in d {
      DecodeWritten(ps, d, KeptEscaped);
    } else {
      NoPercents(d);
      WrittenPercents(ps, d, KeptEscaped);
      if Decode(KeepReserved(raw)).Some? { DecodedLength(KeepReserved(raw)); }
    }
  }
}
