// The identifier token of the grammar, which labels, relationship types,
// property keys and variables are written with.

module Identifiers {
  import opened GraphTypes
  import opened Decimals

  predicate IsAlpha(c: char) {
    'a' <= c <= 'z' || 'A' <= c <= 'Z'
  }

  predicate IsAlnum(c: char) {
    IsAlpha(c) || IsDigit(c)
  }

  predicate IsWordChar(c: char) {
    IsAlnum(c) || c == '_'
  }

  function Upper(c: char): char {
    if 'a' <= c <= 'z' then (c as int - 32) as char else c
  }

  const RESERVED_WORDS := 50

  // In the order the grammar tries them.
  function Reserved(k: nat): string {
    match k
    case 0 => "MATCH"
    case 1 => "OPTIONAL"
    case 2 => "CREATE"
    case 3 => "RETURN"
    case 4 => "WHERE"
    case 5 => "ORDER"
    case 6 => "BY"
    case 7 => "SKIP"
    case 8 => "LIMIT"
    case 9 => "AND"
    case 10 => "OR"
    case 11 => "NOT"
    case 12 => "XOR"
    case 13 => "NULL"
    case 14 => "TRUE"
    case 15 => "FALSE"
    case 16 => "AS"
    case 17 => "ASC"
    case 18 => "ASCENDING"
    case 19 => "DESC"
    case 20 => "DESCENDING"
    case 21 => "DISTINCT"
    case 22 => "IS"
    case 23 => "IN"
    case 24 => "STARTS"
    case 25 => "ENDS"
    case 26 => "CONTAINS"
    case 27 => "CASE"
    case 28 => "WHEN"
    case 29 => "THEN"
    case 30 => "ELSE"
    case 31 => "END"
    case 32 => "WITH"
    case 33 => "UNWIND"
    case 34 => "SET"
    case 35 => "REMOVE"
    case 36 => "DELETE"
    case 37 => "DETACH"
    case 38 => "MERGE"
    case 39 => "ON"
    case 40 => "MANDATORY"
    case 41 => "REDUCE"
    case 42 => "ANY"
    case 43 => "ALL"
    case 44 => "NONE"
    case 45 => "SINGLE"
    case 46 => "UNION"
    case 47 => "CONSTRAINT"
    case 48 => "REQUIRE"
    case _ => "UNIQUE"
  }

  // `s` begins with `word`, whatever the case.
  predicate BeginsWith(s: string, word: string) {
    |word| <= |s| && forall i :: 0 <= i < |word| ==> Upper(s[i]) == word[i]
  }

  // Length of the first reserved word from the `k`-th on that `s` begins with,
  // 0 when there is none: the choice is not taken back, so a longer word later
  // in the list is not seen.
  function FirstWord(s: string, k: nat): (n: nat)
    requires k <= RESERVED_WORDS
    ensures n <= |s|
    decreases RESERVED_WORDS - k
  {
    if k == RESERVED_WORDS then 0
    else if BeginsWith(s, Reserved(k)) then |Reserved(k)|
    else FirstWord(s, k + 1)
  }

  function WordLength(s: string): (n: nat)
    ensures n <= |s|
    ensures forall i :: 0 <= i < n ==> IsWordChar(s[i])
    ensures n < |s| ==> !IsWordChar(s[n])
  {
    if s == [] || !IsWordChar(s[0]) then 0 else 1 + WordLength(s[1..])
  }

  // A reserved word not followed by a letter or digit; an underscore does not
  // save it.
  predicate IsRefused(s: string) {
    var n := FirstWord(s, 0);
    n > 0 && !(n < |s| && IsAlnum(s[n]))
  }

  // Length of the identifier at the head of `s`; None when there is none.
  function IdentifierLength(s: string): Option<nat> {
    if IsRefused(s) || "__" <= s || s == [] || !(IsAlpha(s[0]) || s[0] == '_') then None
    else Some(1 + WordLength(s[1..]))
  }

  // A whole text that is one identifier token.
  predicate IsIdentifier(s: string) {
    IdentifierLength(s) == Some(|s|)
  }

  predicate EndsWord(rest: string) {
    rest == [] || !IsWordChar(rest[0])
  }

  lemma {:induction false} WordEnds(s: string, rest: string)
    requires EndsWord(rest)
    ensures WordLength(s + rest) == WordLength(s)
  {
    if s == [] {
      assert s + rest == rest;
    } else {
      assert (s + rest)[0] == s[0] && (s + rest)[1..] == s[1..] + rest;
      WordEnds(s[1..], rest);
    }
  }

  predicate Letters(word: string) {
    word != [] && forall i :: 0 <= i < |word| ==> 'A' <= word[i] <= 'Z'
  }

  // What the reserved words have in common: two letters or more, never N and A
  // first, and I and N first in IN alone.
  predicate WordShape(word: string) {
    && Letters(word) && |word| > 1
    && (word[0] == 'N' ==> word[1] != 'A')
    && (word[0] == 'I' && word[1] == 'N' ==> |word| == 2)
  }

  lemma BeginsBefore(s: string, rest: string, word: string)
    requires EndsWord(rest) && Letters(word)
    ensures BeginsWith(s + rest, word) <==> BeginsWith(s, word)
  {
    if |s| < |word| <= |s + rest| {
      assert (s + rest)[|s|] == rest[0];
      assert Upper(rest[0]) != word[|s|];
    }
    assert forall i :: 0 <= i < |s| ==> (s + rest)[i] == s[i];
  }

  lemma ReservedIsLetters(k: nat)
    ensures WordShape(Reserved(k))
  {
    hide Reserved;
    if 0 <= k < 10 { LettersFrom0(k); }
    if 10 <= k < 20 { LettersFrom10(k); }
    if 20 <= k < 30 { LettersFrom20(k); }
    if 30 <= k < 40 { LettersFrom30(k); }
    if 40 <= k { LettersFrom40(k); }
  }

  lemma LettersFrom0(k: nat)
    requires 0 <= k < 10
    ensures WordShape(Reserved(k))
  {
  }

  lemma LettersFrom10(k: nat)
    requires 10 <= k < 20
    ensures WordShape(Reserved(k))
  {
  }

  lemma LettersFrom20(k: nat)
    requires 20 <= k < 30
    ensures WordShape(Reserved(k))
  {
  }

  lemma LettersFrom30(k: nat)
    requires 30 <= k < 40
    ensures WordShape(Reserved(k))
  {
  }

  lemma LettersFrom40(k: nat)
    requires 40 <= k
    ensures WordShape(Reserved(k))
  {
  }

  lemma {:induction false} FirstWordBefore(s: string, rest: string, k: nat)
    requires EndsWord(rest) && k <= RESERVED_WORDS
    ensures FirstWord(s + rest, k) == FirstWord(s, k)
    decreases RESERVED_WORDS - k
  {
    hide Reserved, BeginsWith;
    if k < RESERVED_WORDS {
      ReservedIsLetters(k);
      BeginsBefore(s, rest, Reserved(k));
      FirstWordBefore(s, rest, k + 1);
    }
  }

  // A name followed by anything that cannot continue a word is read up to its
  // end exactly when it is an identifier.
  lemma NameEndsWherePrinted(s: string, rest: string)
    requires EndsWord(rest)
    ensures IdentifierLength(s + rest) == Some(|s|) <==> IsIdentifier(s)
  {
    hide FirstWord, BeginsWith;
    FirstWordBefore(s, rest, 0);
    assert forall i :: 0 <= i < |s| ==> (s + rest)[i] == s[i];
    var n := FirstWord(s, 0);
    assert n == |s| && rest != [] ==> (s + rest)[n] == rest[0];
    if s != [] {
      assert (s + rest)[1..] == s[1..] + rest;
      WordEnds(s[1..], rest);
      assert "__" <= s + rest <==> "__" <= s by {
        if |s| == 1 && rest != [] {
          assert (s + rest)[1] == rest[0];
        }
      }
    } else {
      assert s + rest == rest;
    }
  }

  // The variables the exporter makes up are identifiers.
  lemma NumberedVariable(n: nat)
    ensures IsIdentifier("_" + NatToString(n))
  {
    var digits := NatToString(n);
    var s := "_" + digits;
    assert s[0] == '_' && s[1..] == digits && s[1] == digits[0];
    assert digits[0] in digits;
    NoReservedUnderscore(s, 0);
    AllDigits(digits);
  }

  lemma {:induction false} NoReservedUnderscore(s: string, k: nat)
    requires s != [] && s[0] == '_' && k <= RESERVED_WORDS
    ensures FirstWord(s, k) == 0
    decreases RESERVED_WORDS - k
  {
    hide Reserved;
    if k < RESERVED_WORDS {
      ReservedIsLetters(k);
      assert Upper(s[0]) != Reserved(k)[0];
      NoReservedUnderscore(s, k + 1);
    }
  }

  lemma {:induction false} AllDigits(s: string)
    requires forall c :: c in s ==> IsDigit(c)
    ensures WordLength(s) == |s|
  {
    if s != [] {
      assert s[0] in s;
      AllDigits(s[1..]);
    }
  }

  // Reading a name gives the name or nothing.
  function ReadName(s: string): Option<string> {
    if IsIdentifier(s) then Some(s) else None
  }

  function ReadNames(names: seq<string>): Option<seq<string>> {
    if forall i :: 0 <= i < |names| ==> IsIdentifier(names[i]) then Some(names) else None
  }

  // How the exporter prints floats that are not numbers or not finite: no
  // reserved word begins `NaN`, and a letter follows the one that begins `inf`.
  lemma NonNumbersRead()
    ensures IsIdentifier("NaN") && IsIdentifier("inf")
  {
    hide FirstWord, Reserved;
    ShortHead("NaN", 0);
    ShortHead("inf", 0);
    assert "NaN"[1..] == "aN" && "aN"[1..] == "N" && "N"[1..] == "";
    assert "inf"[1..] == "nf" && "nf"[1..] == "f" && "f"[1..] == "";
    assert WordLength("aN") == 2 && WordLength("nf") == 2;
  }

  lemma {:induction false} ShortHead(s: string, k: nat)
    requires s in {"NaN", "inf"} && k <= RESERVED_WORDS
    ensures FirstWord(s, k) == 0 || (s == "inf" && FirstWord(s, k) == 2)
    decreases RESERVED_WORDS - k
  {
    hide Reserved;
    if k < RESERVED_WORDS {
      ReservedIsLetters(k);
      assert Upper(s[0]) in {'N', 'I'} && (s == "NaN" ==> Upper(s[1]) == 'A') && (s == "inf" ==> Upper(s[1]) == 'N');
      ShortHead(s, k + 1);
    }
  }

  // No relationship type at all is written as an empty name, a key from a map
  // literal may hold a space, and a name that goes on with an underscore after
  // a reserved word is refused.
  lemma NamesThatDoNotRead()
    ensures ReadName("").None? && ReadName("a b").None? && ReadName("order_id").None?
  {
    hide FirstWord;
    assert "a b"[1..][0] == ' ';
    assert WordLength("a b"[1..]) == 0;
    OrderIsRefused();
  }

  lemma OrderIsRefused()
    ensures IsRefused("order_id")
  {
    var s := "order_id";
    assert Upper(s[0]) == 'O' && Upper(s[1]) == 'R';
    assert !BeginsWith(s, Reserved(1)) by {
      assert Reserved(1)[1] == 'P';
    }
    assert forall k :: k in [0, 2, 3, 4] ==> Reserved(k)[0] != 'O';
    assert BeginsWith(s, Reserved(5));
    assert FirstWord(s, 5) == 5;
    assert FirstWord(s, 3) == FirstWord(s, 4) == FirstWord(s, 5);
    assert FirstWord(s, 1) == FirstWord(s, 2) == FirstWord(s, 3);
    assert FirstWord(s, 0) == FirstWord(s, 1);
  }
}
