// String literals: the exporter's escapes, `parse_string_content`, and where
// the grammar ends a string token.

module StringLiterals {
  import opened GraphTypes
  import opened Text
  import opened Decimals

  // --- Printing ---

  // The five chained replacements of `format_properties`.
  function EscapeForExport(s: string): string {
    ReplaceChar(
      ReplaceChar(
        ReplaceChar(
          ReplaceChar(
            ReplaceChar(s, '\\', "\\\\"),
            '"', "\\\""),
          '\n', "\\n"),
        '\r', "\\r"),
      '\t', "\\t")
  }

  function EscapedChar(c: char): string {
    if c == '\\' then "\\\\"
    else if c == '"' then "\\\""
    else if c == '\n' then "\\n"
    else if c == '\r' then "\\r"
    else if c == '\t' then "\\t"
    else [c]
  }

  function Escaped(s: string): string {
    if s == [] then [] else EscapedChar(s[0]) + Escaped(s[1..])
  }

  lemma ExportAppend(a: string, b: string)
    ensures EscapeForExport(a + b) == EscapeForExport(a) + EscapeForExport(b)
  {
    ReplaceAppend(a, b, '\\', "\\\\");
    var (a1, b1) := (ReplaceChar(a, '\\', "\\\\"), ReplaceChar(b, '\\', "\\\\"));
    ReplaceAppend(a1, b1, '"', "\\\"");
    var (a2, b2) := (ReplaceChar(a1, '"', "\\\""), ReplaceChar(b1, '"', "\\\""));
    ReplaceAppend(a2, b2, '\n', "\\n");
    var (a3, b3) := (ReplaceChar(a2, '\n', "\\n"), ReplaceChar(b2, '\n', "\\n"));
    ReplaceAppend(a3, b3, '\r', "\\r");
    ReplaceAppend(ReplaceChar(a3, '\r', "\\r"), ReplaceChar(b3, '\r', "\\r"), '\t', "\\t");
  }

  lemma ReplaceOne(d: char, c: char, rep: string)
    ensures ReplaceChar([d], c, rep) == if d == c then rep else [d]
  {
    assert [d][1..] == [];
    assert ReplaceChar([], c, rep) == [];
  }

  // One character through the chain: what one replacement writes, none of the
  // later ones touches.
  lemma ExportOne(c: char)
    ensures EscapeForExport([c]) == EscapedChar(c)
  {
    ReplaceOne(c, '\\', "\\\\");
    ReplaceOne(c, '"', "\\\"");
    ReplaceOne(c, '\n', "\\n");
    ReplaceOne(c, '\r', "\\r");
    ReplaceOne(c, '\t', "\\t");
    var e := EscapedChar(c);
    hide ReplaceChar;
    if c == '\\' {
      ReplaceAbsent(e, '"', "\\\"");
      ReplaceAbsent(e, '\n', "\\n");
      ReplaceAbsent(e, '\r', "\\r");
      ReplaceAbsent(e, '\t', "\\t");
    } else if c == '"' {
      ReplaceAbsent(e, '\n', "\\n");
      ReplaceAbsent(e, '\r', "\\r");
      ReplaceAbsent(e, '\t', "\\t");
    } else if c == '\n' {
      ReplaceAbsent(e, '\r', "\\r");
      ReplaceAbsent(e, '\t', "\\t");
    } else if c == '\r' {
      ReplaceAbsent(e, '\t', "\\t");
    }
  }

  // The chain escapes character by character.
  lemma {:induction false} ExportIsEscaped(s: string)
    ensures EscapeForExport(s) == Escaped(s)
  {
    if s != [] {
      ExportAppend([s[0]], s[1..]);
      ExportOne(s[0]);
      ExportIsEscaped(s[1..]);
      assert s == [s[0]] + s[1..];
    }
  }

  // --- Parsing ---

  // `u32::from_str_radix(hex, 16)` then `char::from_u32`; at most four digits.
  function CharOfHex(hex: string): Option<char> {
    var digits := if hex != [] && hex[0] == '+' then hex[1..] else hex;
    var v := if digits == [] then None else RadixValue(digits, 16);
    if v.None? || v.value < 0 || 0xD800 <= v.value < 0xE000 || v.value > 0x10FFFF then None
    else Some(v.value as char)
  }

  function TakeUpTo(s: string, n: nat): string {
    if |s| <= n then s else s[..n]
  }

  // The text between the quotes, escapes undone; None is a parse error.
  function Unescaped(inner: string): Option<string>
    decreases |inner|
  {
    if inner == [] then Some([])
    else if inner[0] != '\\' then Prepended([inner[0]], Unescaped(inner[1..]))
    else if |inner| == 1 then Some("\\")
    else
      match inner[1]
      case 't' => Prepended("\t", Unescaped(inner[2..]))
      case 'n' => Prepended("\n", Unescaped(inner[2..]))
      case 'r' => Prepended("\r", Unescaped(inner[2..]))
      case '\\' => Prepended("\\", Unescaped(inner[2..]))
      case '"' => Prepended("\"", Unescaped(inner[2..]))
      case '\'' => Prepended("'", Unescaped(inner[2..]))
      case '/' => Prepended("/", Unescaped(inner[2..]))
      case 'u' =>
        var hex := TakeUpTo(inner[2..], 4);
        var c := CharOfHex(hex);
        if c.None? then None else Prepended([c.value], Unescaped(inner[2 + |hex|..]))
      case other => Prepended("\\" + [other], Unescaped(inner[2..]))
  }

  function Prepended(a: string, b: Option<string>): Option<string> {
    if b.None? then None else Some(a + b.value)
  }

  lemma PrependedNothing(b: Option<string>)
    ensures Prepended("", b) == b && Prepended("\\", Some("")) == Some("\\")
  {
    assert "\\" + "" == "\\";
    if b.Some? {
      assert "" + b.value == b.value;
    }
  }

  lemma PrependedTwice(a: string, b: string, c: Option<string>)
    ensures Prepended(a, Prepended(b, c)) == Prepended(a + b, c)
  {
    if c.Some? {
      assert a + (b + c.value) == (a + b) + c.value;
    }
  }

  // A token is parsed by dropping its quotes and walking what is between.
  method ParseStringContent(s: string) returns (r: Option<string>)
    ensures r == if |s| < 2 then None else Unescaped(s[1..|s| - 1])
  {
    if |s| < 2 {
      return None;
    }
    var inner := s[1..|s| - 1];
    var result := "";
    var i := 0;
    assert inner[0..] == inner;
    PrependedNothing(Unescaped(inner));
    while i < |inner|
      invariant 0 <= i <= |inner|
      invariant Prepended(result, Unescaped(inner[i..])) == Unescaped(inner)
    {
      var (pushed, next) := EscapeAt(inner, i);
      if pushed.None? {
        return None;
      }
      PrependedTwice(result, pushed.value, Unescaped(inner[next..]));
      result := result + pushed.value;
      i := next;
    }
    assert inner[i..] == [];
    assert result + [] == result;
    r := Some(result);
  }

  // What one turn of the loop pushes, and where the next turn starts.
  function EscapeAt(inner: string, i: nat): (r: (Option<string>, nat))
    requires i < |inner|
    ensures i < r.1 <= |inner|
    ensures Unescaped(inner[i..]) == if r.0.None? then None else Prepended(r.0.value, Unescaped(inner[r.1..]))
  {
    var rest := inner[i..];
    assert forall k :: 0 <= k <= |rest| ==> rest[k..] == inner[i + k..];
    if rest[0] != '\\' then (Some([rest[0]]), i + 1)
    else if |rest| == 1 then (assert inner[i + 1..] == []; PrependedNothing(None); (Some("\\"), i + 1))
    else
      match rest[1]
      case 't' => (Some("\t"), i + 2)
      case 'n' => (Some("\n"), i + 2)
      case 'r' => (Some("\r"), i + 2)
      case '\\' => (Some("\\"), i + 2)
      case '"' => (Some("\""), i + 2)
      case '\'' => (Some("'"), i + 2)
      case '/' => (Some("/"), i + 2)
      case 'u' =>
        var hex := TakeUpTo(rest[2..], 4);
        var c := CharOfHex(hex);
        (if c.None? then None else Some([c.value]), i + 2 + |hex|)
      case other => (Some("\\" + [other]), i + 2)
  }

  lemma UnescapeChar(c: char, rest: string)
    ensures Unescaped(EscapedChar(c) + rest) == Prepended([c], Unescaped(rest))
  {
    var e := EscapedChar(c);
    var text := e + rest;
    assert text[|e|..] == rest && text[0] == e[0];
    assert |e| == 2 ==> text[1] == e[1];
  }

  lemma {:induction false} UnescapeEscaped(s: string)
    ensures Unescaped(Escaped(s)) == Some(s)
  {
    if s != [] {
      UnescapeEscaped(s[1..]);
      UnescapeChar(s[0], Escaped(s[1..]));
      hide Unescaped, EscapedChar;
      assert s == [s[0]] + s[1..];
    }
  }

  // The character an escape letter stands for.
  predicate Stands(letter: char, c: char) {
    || (letter == 't' && c == '\t') || (letter == 'n' && c == '\n') || (letter == 'r' && c == '\r')
    || (letter == c && (c == '\\' || c == '"' || c == '\'' || c == '/'))
  }

  // An escape letter gives its character, four hexadecimal digits the character
  // they number, and a backslash before anything else stays.
  lemma EscapesMean(letter: char, c: char, rest: string)
    ensures Stands(letter, c) ==> Unescaped(['\\', letter] + rest) == Prepended([c], Unescaped(rest))
    ensures letter !in {'u', 't', 'n', 'r', '\\', '"', '\'', '/'} ==>
              Unescaped(['\\', letter] + rest) == Prepended(['\\', letter], Unescaped(rest))
    ensures letter != '\\' ==> Unescaped([letter] + rest) == Prepended([letter], Unescaped(rest))
  {
    assert (['\\', letter] + rest)[2..] == rest && ([letter] + rest)[1..] == rest;
    assert "\\" + [letter] == ['\\', letter];
  }

  function HexValue(c: char): (v: int)
    requires IsHexDigit(c)
    ensures 0 <= v < 16
  {
    if c <= '9' then c as int - '0' as int
    else if c <= 'F' then c as int - 'A' as int + 10
    else c as int - 'a' as int + 10
  }

  lemma NumberedCharacter(a: char, b: char, c: char, d: char, rest: string)
    requires IsHexDigit(a) && IsHexDigit(b) && IsHexDigit(c) && IsHexDigit(d)
    ensures var code := HexValue(a) * 4096 + HexValue(b) * 256 + HexValue(c) * 16 + HexValue(d);
            Unescaped("\\u" + [a, b, c, d] + rest) ==
            if 0xD800 <= code < 0xE000 then None else Prepended([code as char], Unescaped(rest))
  {
    var text := "\\u" + [a, b, c, d] + rest;
    assert text[2..] == [a, b, c, d] + rest && text[2..][..4] == [a, b, c, d] && text[6..] == rest;
    assert rest == [] ==> text[2..] == [a, b, c, d];
    assert TakeUpTo(text[2..], 4) == [a, b, c, d];
    NumberedBy(a, b, c, d);
  }

  lemma NumberedBy(a: char, b: char, c: char, d: char)
    requires IsHexDigit(a) && IsHexDigit(b) && IsHexDigit(c) && IsHexDigit(d)
    ensures var code := HexValue(a) * 4096 + HexValue(b) * 256 + HexValue(c) * 16 + HexValue(d);
            CharOfHex([a, b, c, d]) == if 0xD800 <= code < 0xE000 then None else Some(code as char)
  {
    hide RadixValue, HexValue;
    SpelledBy(a, b, c, d);
    assert [a, b, c, d][0] != '+';
  }

  lemma SpelledBy(a: char, b: char, c: char, d: char)
    requires IsHexDigit(a) && IsHexDigit(b) && IsHexDigit(c) && IsHexDigit(d)
    ensures RadixValue([a, b, c, d], 16) == Some(HexValue(a) * 4096 + HexValue(b) * 256 + HexValue(c) * 16 + HexValue(d))
  {
    hide RadixValue, HexValue, IsHexDigit;
    assert [] + [a] == [a] && [a] + [b] == [a, b] && [a, b] + [c] == [a, b, c] && [a, b, c] + [d] == [a, b, c, d];
    HexStep([], a);
    HexStep([a], b);
    HexStep([a, b], c);
    HexStep([a, b, c], d);
    RadixStep([], a, 16);
  }

  lemma HexStep(s: string, c: char)
    requires IsHexDigit(c)
    ensures RadixValue(s, 16).Some? ==> RadixValue(s + [c], 16) == Some(RadixValue(s, 16).value * 16 + HexValue(c))
  {
    RadixStep(s, c, 16);
  }

  // Every string printed by the exporter parses back to itself.
  lemma StringRoundTrip(s: string)
    ensures var token := "\"" + EscapeForExport(s) + "\"";
            |token| >= 2 && Unescaped(token[1..|token| - 1]) == Some(s)
  {
    ExportIsEscaped(s);
    UnescapeEscaped(s);
    var token := "\"" + EscapeForExport(s) + "\"";
    assert token[1..|token| - 1] == EscapeForExport(s);
  }

  // --- The string token of the grammar ---

  predicate IsHexDigit(c: char) {
    '0' <= c <= '9' || 'a' <= c <= 'f' || 'A' <= c <= 'F'
  }

  // Length of the escape sequence at the head of `s`, 0 when there is none.
  function EscapeLength(s: string): (n: nat)
    ensures n <= |s|
  {
    if |s| < 2 || s[0] != '\\' then 0
    else if s[1] in "tnr\\\"'/" then 2
    else if s[1] == 'u' && |s| >= 6 && IsHexDigit(s[2]) && IsHexDigit(s[3]) && IsHexDigit(s[4]) && IsHexDigit(s[5]) then 6
    else 0
  }

  // How much the body of the token takes: as many escape sequences and plain
  // characters as there are.
  function BodyLength(s: string, quote: char): (n: nat)
    ensures n <= |s|
    decreases |s|
  {
    if s == [] then 0
    else if EscapeLength(s) > 0 then EscapeLength(s) + BodyLength(s[EscapeLength(s)..], quote)
    else if s[0] != quote && s[0] != '\\' then 1 + BodyLength(s[1..], quote)
    else 0
  }

  // Length of the double-quoted token at the head of `s`; None when it does not match.
  function TokenLength(s: string): Option<nat> {
    if s == [] || s[0] != '"' then None
    else
      var n := BodyLength(s[1..], '"');
      if n + 1 < |s| && s[n + 1] == '"' then Some(n + 2) else None
  }

  lemma BodyChar(c: char, rest: string)
    ensures BodyLength(EscapedChar(c) + rest, '"') == |EscapedChar(c)| + BodyLength(rest, '"')
  {
    var e := EscapedChar(c);
    var text := e + rest;
    assert text[|e|..] == rest && text[0] == e[0];
    assert |e| == 2 ==> text[1] == e[1];
    assert EscapeLength(text) == if |e| == 2 then 2 else 0;
  }

  lemma {:induction false} BodyOfEscaped(s: string, rest: string)
    ensures BodyLength(Escaped(s) + "\"" + rest, '"') == |Escaped(s)|
  {
    if s == [] {
      assert Escaped(s) + "\"" + rest == "\"" + rest;
      assert ("\"" + rest)[0] == '"';
    } else {
      var e, tail := EscapedChar(s[0]), Escaped(s[1..]);
      BodyOfEscaped(s[1..], rest);
      BodyChar(s[0], tail + "\"" + rest);
      hide EscapedChar, BodyLength;
      assert Escaped(s) + "\"" + rest == e + (tail + "\"" + rest);
    }
  }

  // Whatever follows, the token ends at the quote the printer closed it with.
  lemma TokenEndsWherePrinted(s: string, rest: string)
    ensures TokenLength("\"" + EscapeForExport(s) + "\"" + rest) == Some(|EscapeForExport(s)| + 2)
  {
    ExportIsEscaped(s);
    BodyOfEscaped(s, rest);
    hide EscapeForExport, Escaped, BodyLength;
    var text := "\"" + Escaped(s) + "\"" + rest;
    assert text[1..] == Escaped(s) + "\"" + rest;
    assert text[|Escaped(s)| + 1] == '"';
  }
}
