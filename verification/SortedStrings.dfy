/** sort.Strings: byte-wise order, and the sorted list of a set of strings. */
module SortedStrings {

  predicate Le(a: string, b: string) {
    a == "" || (b != "" && (a[0] < b[0] || (a[0] == b[0] && Le(a[1..], b[1..]))))
  }

  lemma {:induction false} LeTotal(a: string, b: string)
    ensures Le(a, b) || Le(b, a)
  {
    if a != "" && b != "" && a[0] == b[0] { LeTotal(a[1..], b[1..]); }
  }

  lemma {:induction false} LeTransitive(a: string, b: string, c: string)
    requires Le(a, b) && Le(b, c)
    ensures Le(a, c)
  {
    if a != "" && a[0] == b[0] && b[0] == c[0] { LeTransitive(a[1..], b[1..], c[1..]); }
  }

  lemma {:induction false} LeAntisymmetric(a: string, b: string)
    requires Le(a, b) && Le(b, a)
    ensures a == b
  {
    if a != "" {
      LeAntisymmetric(a[1..], b[1..]);
      assert a == [a[0]] + a[1..] && b == [b[0]] + b[1..];
    }
  }

  ghost predicate Ascending(s: seq<string>) {
    forall i, j :: 0 <= i < j < |s| ==> Le(s[i], s[j])
  }

  function Insert(x: string, s: seq<string>): (r: seq<string>)
    requires Ascending(s)
    ensures Ascending(r) && multiset(r) == multiset(s) + multiset{x}
  {
    if s == [] then [x]
    else if Le(x, s[0]) then
      FirstIsLeast(x, s);
      [x] + s
    else
      assert s == [s[0]] + s[1..];
      LeTotal(x, s[0]);
      var t := Insert(x, s[1..]);
      PrependLeast(s[0], t, s[1..], x);
      [s[0]] + t
  }

  lemma FirstIsLeast(x: string, s: seq<string>)
    requires Ascending(s) && s != [] && Le(x, s[0])
    ensures Ascending([x] + s)
  {
    forall k | 0 <= k < |s| ensures Le(x, s[k]) {
      if k > 0 { LeTransitive(x, s[0], s[k]); }
    }
  }

  lemma PrependLeast(y: string, t: seq<string>, s: seq<string>, x: string)
    requires Ascending(t) && multiset(t) == multiset(s) + multiset{x}
    requires Le(y, x) && forall k :: 0 <= k < |s| ==> Le(y, s[k])
    ensures Ascending([y] + t)
  {
    forall k | 0 <= k < |t| ensures Le(y, t[k]) {
      assert t[k] in multiset(t);
      assert t[k] == x || t[k] in multiset(s);
    }
  }

  function Sort(s: seq<string>): (r: seq<string>)
    ensures Ascending(r) && multiset(r) == multiset(s)
  {
    if s == [] then []
    else
      assert s == s[..|s| - 1] + [s[|s| - 1]];
      Insert(s[|s| - 1], Sort(s[..|s| - 1]))
  }

  // ---------- One sorted list per set ----------

  ghost predicate NoRepeats(s: seq<string>) {
    forall i, j :: 0 <= i < j < |s| ==> s[i] != s[j]
  }

  function Elements(s: seq<string>): set<string> {
    set x | x in s
  }

  lemma {:induction false} ElementCount(s: seq<string>)
    ensures |Elements(s)| <= |s|
    ensures NoRepeats(s) <==> |Elements(s)| == |s|
  {
    if s != [] {
      var n := |s| - 1;
      ElementCount(s[..n]);
      assert s == s[..n] + [s[n]];
      assert Elements(s) == Elements(s[..n]) + {s[n]};
      if s[n] in s[..n] {
        assert Elements(s) == Elements(s[..n]);
      } else {
        assert NoRepeats(s[..n]) ==> NoRepeats(s);
      }
    }
  }

  lemma SortKeepsElements(s: seq<string>)
    ensures Elements(Sort(s)) == Elements(s) && |Sort(s)| == |s|
    ensures NoRepeats(s) ==> NoRepeats(Sort(s))
  {
    var r := Sort(s);
    assert |multiset(r)| == |r| && |multiset(s)| == |s|;
    forall x ensures x in r <==> x in s {
      assert x in r <==> x in multiset(r);
      assert x in s <==> x in multiset(s);
    }
    assert Elements(r) == Elements(s);
    ElementCount(r);
    ElementCount(s);
  }

  // Ascending lists without repetition are determined by their elements.
  lemma {:induction false} AscendingIsUnique(a: seq<string>, b: seq<string>)
    requires Ascending(a) && Ascending(b) && NoRepeats(a) && NoRepeats(b) && Elements(a) == Elements(b)
    ensures a == b
    decreases |a|
  {
    ElementCount(a);
    ElementCount(b);
    if a != [] {
      var n := |a| - 1;
      LastIsSame(a, b);
      assert Elements(a[..n]) == Elements(a) - {a[n]} by { DropLast(a); }
      assert Elements(b[..n]) == Elements(b) - {b[n]} by { DropLast(b); }
      AscendingIsUnique(a[..n], b[..n]);
      assert a == a[..n] + [a[n]] && b == b[..n] + [b[n]];
    }
  }

  lemma DropLast(a: seq<string>)
    requires a != [] && NoRepeats(a)
    ensures Elements(a[..|a| - 1]) == Elements(a) - {a[|a| - 1]}
  {
    assert a == a[..|a| - 1] + [a[|a| - 1]];
  }

  lemma LastIsSame(a: seq<string>, b: seq<string>)
    requires Ascending(a) && Ascending(b) && a != [] && |a| == |b| && Elements(a) == Elements(b)
    ensures a[|a| - 1] == b[|b| - 1]
  {
    var n := |a| - 1;
    assert a[n] in Elements(b) && b[n] in Elements(a);
    var i: nat :| i < |b| && b[i] == a[n];
    var j: nat :| j < |a| && a[j] == b[n];
    LeTotal(a[n], a[n]);
    assert Le(a[n], b[n]) && Le(b[n], a[n]);
    LeAntisymmetric(a[n], b[n]);
  }
}
