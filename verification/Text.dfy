// Character-level text operations: `str::replace` for one character, and the
// character maps that chains of such replacements amount to.

module Text {

  // `s.replace(c, rep)`
  function ReplaceChar(s: string, c: char, rep: string): string {
    if s == [] then [] else (if s[0] == c then rep else [s[0]]) + ReplaceChar(s[1..], c, rep)
  }

  lemma {:induction false} ReplaceAppend(s: string, t: string, c: char, rep: string)
    ensures ReplaceChar(s + t, c, rep) == ReplaceChar(s, c, rep) + ReplaceChar(t, c, rep)
  {
    if s == [] {
      assert s + t == t;
    } else {
      assert (s + t)[0] == s[0] && (s + t)[1..] == s[1..] + t;
      ReplaceAppend(s[1..], t, c, rep);
    }
  }

  lemma {:induction false} ReplaceAbsent(s: string, c: char, rep: string)
    requires c !in s
    ensures ReplaceChar(s, c, rep) == s
  {
    if s != [] {
      assert s[0] in s && forall x :: x in s[1..] ==> x in s;
      ReplaceAbsent(s[1..], c, rep);
    }
  }

  // Escapes of the stable keys: backslash doubled, NUL written out.
  function KeyEscape(c: char): string {
    if c == '\\' then "\\\\" else if c == '\0' then "\\0" else [c]
  }

  function KeyEscaped(s: string): string {
    if s == [] then [] else KeyEscape(s[0]) + KeyEscaped(s[1..])
  }

  function EscapeForKey(s: string): string {
    ReplaceChar(ReplaceChar(s, '\\', "\\\\"), '\0', "\\0")
  }

  lemma {:induction false} EscapeForKeyIs(s: string)
    ensures EscapeForKey(s) == KeyEscaped(s)
  {
    if s != [] {
      var head := if s[0] == '\\' then "\\\\" else [s[0]];
      var rest := ReplaceChar(s[1..], '\\', "\\\\");
      ReplaceAppend(head, rest, '\0', "\\0");
      EscapeForKeyIs(s[1..]);
      HeadReplaced(s[0]);
    }
  }

  lemma HeadReplaced(c: char)
    ensures ReplaceChar(if c == '\\' then "\\\\" else [c], '\0', "\\0") == KeyEscape(c)
  {
    if c == '\\' {
      ReplaceAbsent("\\\\", '\0', "\\0");
    } else {
      assert [c][1..] == [];
      assert ReplaceChar([c], '\0', "\\0") == (if c == '\0' then "\\0" else [c]) + ReplaceChar([], '\0', "\\0");
    }
  }

  lemma {:induction false} KeyEscapedHasNoNul(s: string)
    ensures '\0' !in KeyEscaped(s)
  {
    if s != [] {
      KeyEscapedHasNoNul(s[1..]);
    }
  }

  lemma {:induction false} KeyEscapedInjective(s: string, t: string)
    requires KeyEscaped(s) == KeyEscaped(t)
    ensures s == t
  {
    if s != [] && t != [] {
      var a, b := KeyEscape(s[0]), KeyEscape(t[0]);
      var x, y := KeyEscaped(s[1..]), KeyEscaped(t[1..]);
      assert (a + x)[0] == a[0] && (b + y)[0] == b[0];
      assert |a| == 2 ==> (a + x)[1] == a[1];
      assert |b| == 2 ==> (b + y)[1] == b[1];
      assert s[0] == t[0];
      assert (a + x)[|a|..] == x && (b + y)[|b|..] == y;
      KeyEscapedInjective(s[1..], t[1..]);
      assert s == [s[0]] + s[1..] && t == [t[0]] + t[1..];
    }
  }

  // `parts.join(sep)`
  function Join(parts: seq<string>, sep: char): string {
    if parts == [] then []
    else if |parts| == 1 then parts[0]
    else Join(parts[..|parts| - 1], sep) + [sep] + parts[|parts| - 1]
  }

  lemma JoinSnoc(parts: seq<string>, sep: char, part: string)
    ensures Join(parts + [part], sep) == if parts == [] then part else Join(parts, sep) + [sep] + part
  {
    assert (parts + [part])[..|parts|] == parts;
  }

  // What follows the last separator can be read off in one way only.
  lemma LastSplits(a: string, x: string, b: string, y: string, sep: char)
    requires sep !in x && sep !in y
    requires a + [sep] + x == b + [sep] + y
    ensures a == b && x == y
  {
    var s := a + [sep] + x;
    assert s[|a|] == sep && s[|b|] == sep;
    assert forall i :: |a| < i < |s| ==> s[i] == x[i - |a| - 1];
    assert forall i :: |b| < i < |s| ==> s[i] == y[i - |b| - 1];
    assert |a| == |b|;
    assert s[..|a|] == a && s[..|b|] == b;
    assert s[|a| + 1..] == x && s[|b| + 1..] == y;
  }

  predicate SeparatorFree(parts: seq<string>, sep: char) {
    forall i :: 0 <= i < |parts| ==> sep !in parts[i] && parts[i] != []
  }

  lemma SeveralParts(ps: seq<string>, sep: char)
    requires SeparatorFree(ps, sep)
    ensures sep in Join(ps, sep) <==> |ps| > 1
    ensures Join(ps, sep) == [] <==> ps == []
  {
    if |ps| > 1 {
      assert Join(ps, sep)[|Join(ps[..|ps| - 1], sep)|] == sep;
    }
  }

  // A join of non-empty parts free of the separator determines the parts.
  lemma {:induction false} JoinInjective(ps: seq<string>, qs: seq<string>, sep: char)
    requires SeparatorFree(ps, sep) && SeparatorFree(qs, sep)
    requires Join(ps, sep) == Join(qs, sep)
    ensures ps == qs
  {
    SeveralParts(ps, sep);
    SeveralParts(qs, sep);
    if |ps| > 1 && |qs| > 1 {
      var p, q := ps[..|ps| - 1], qs[..|qs| - 1];
      LastSplits(Join(p, sep), ps[|ps| - 1], Join(q, sep), qs[|qs| - 1], sep);
      JoinInjective(p, q, sep);
      assert ps == p + [ps[|ps| - 1]] && qs == q + [qs[|qs| - 1]];
    }
  }
}
