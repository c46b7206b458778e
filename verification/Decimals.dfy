// Decimal text of integers, and `parse_integer_value` of
// egrph-core/src/parser/mod.rs.

module Decimals {
  import opened GraphTypes
  import opened Floats

  function DigitChar(d: nat): char
    requires d < 10
  {
    ['0', '1', '2', '3', '4', '5', '6', '7', '8', '9'][d]
  }

  predicate IsDigit(c: char) {
    '0' <= c <= '9'
  }

  function DigitValue(c: char): int {
    c as int - '0' as int
  }

  function NatToString(n: nat): (s: string)
    ensures s != [] && forall c :: c in s ==> IsDigit(c)
  {
    if n < 10 then [DigitChar(n)] else NatToString(n / 10) + [DigitChar(n % 10)]
  }

  function IntToString(i: int): (s: string)
    ensures s != []
  {
    if i < 0 then "-" + NatToString(-i) else NatToString(i)
  }

  function ValueOf(s: string): int {
    if s == [] then 0 else 10 * ValueOf(s[..|s| - 1]) + DigitValue(s[|s| - 1])
  }

  lemma {:induction false} NatRoundTrip(n: nat)
    ensures ValueOf(NatToString(n)) == n
  {
    if n >= 10 {
      NatRoundTrip(n / 10);
      assert NatToString(n)[..|NatToString(n)| - 1] == NatToString(n / 10);
    }
  }

  lemma NatToStringInjective(m: nat, n: nat)
    requires NatToString(m) == NatToString(n)
    ensures m == n
  {
    NatRoundTrip(m);
    NatRoundTrip(n);
  }

  lemma SignIsFirst(i: int)
    ensures IntToString(i)[0] == '-' <==> i < 0
    ensures i < 0 ==> IntToString(i)[1..] == NatToString(Abs(i))
  {
    assert NatToString(Abs(i))[0] in NatToString(Abs(i));
  }

  lemma IntToStringInjective(i: int, j: int)
    requires IntToString(i) == IntToString(j)
    ensures i == j
  {
    SignIsFirst(i);
    SignIsFirst(j);
    NatToStringInjective(Abs(i), Abs(j));
  }

  // --- Parsing integers ---

  function DigitIn(c: char, radix: nat): Option<int>
  {
    var d := if '0' <= c <= '9' then c as int - '0' as int
             else if 'a' <= c <= 'z' then c as int - 'a' as int + 10
             else if 'A' <= c <= 'Z' then c as int - 'A' as int + 10
             else radix;
    if d < radix then Some(d) else None
  }

  function RadixValue(s: string, radix: nat): Option<int> {
    if s == [] then Some(0)
    else
      var rest, d := RadixValue(s[..|s| - 1], radix), DigitIn(s[|s| - 1], radix);
      if rest.None? || d.None? then None else Some(rest.value * radix + d.value)
  }

  // `i64::from_str_radix` and `str::parse::<i64>`: an optional sign, then at
  // least one digit, and a value that fits.
  function ParseI64(s: string, radix: nat): Option<I64> {
    if s == [] then None
    else
      var negative := s[0] == '-';
      var digits := if s[0] == '-' || s[0] == '+' then s[1..] else s;
      var v := if digits == [] then None else RadixValue(digits, radix);
      if v.None? then None
      else
        var n := if negative then -v.value else v.value;
        if -0x8000_0000_0000_0000 <= n < 0x8000_0000_0000_0000 then Some(n) else None
  }

  // The negation after a successful parse; it cannot overflow on literal text,
  // where what follows the sign has no second sign.
  function ParseIntegerValue(s: string): Option<I64> {
    var negative := s != [] && s[0] == '-';
    var digits := if negative then s[1..] else s;
    var v :=
      if |digits| >= 2 && digits[0] == '0' && (digits[1] == 'x' || digits[1] == 'X') then ParseI64(digits[2..], 16)
      else if |digits| >= 2 && digits[0] == '0' && (digits[1] == 'o' || digits[1] == 'O') then ParseI64(digits[2..], 8)
      else ParseI64(digits, 10);
    if v.None? then None
    else if !negative then v
    else if v.value == -0x8000_0000_0000_0000 then None
    else Some(-v.value)
  }

  lemma {:induction false} DecimalValue(n: nat)
    ensures RadixValue(NatToString(n), 10) == Some(n as int)
    decreases n
  {
    if n >= 10 {
      DecimalValue(n / 10);
      assert NatToString(n)[..|NatToString(n)| - 1] == NatToString(n / 10);
    }
  }

  lemma ParseDecimal(n: nat)
    ensures ParseI64(NatToString(n), 10) == if n < 0x8000_0000_0000_0000 then Some(n as int) else None
  {
    DecimalValue(n);
    assert NatToString(n)[0] in NatToString(n);
  }

  // Printing an integer and parsing the text gives it back for every i64 but
  // the least one, whose magnitude does not fit.
  lemma IntegerRoundTrip(i: I64)
    ensures ParseIntegerValue(IntToString(i)) == if i == -0x8000_0000_0000_0000 then None else Some(i)
  {
    hide ParseI64, NatToString;
    var digits := NatToString(Abs(i));
    SignIsFirst(i);
    ParseDecimal(Abs(i));
    assert |digits| >= 2 ==> digits[1] in digits;
  }

  lemma NatReads(n: nat)
    ensures ParseIntegerValue(NatToString(n)) == if n < 0x8000_0000_0000_0000 then Some(n as int) else None
  {
    hide ParseI64, NatToString;
    var digits := NatToString(n);
    ParseDecimal(n);
    SignIsFirst(n);
    assert |digits| >= 2 ==> digits[1] in digits;
  }

  // `0x` and `0o` literals: the value their digits spell in that base, after a
  // minus sign its opposite, if it fits.
  lemma PrefixedReads(digits: string, hex: bool, negative: bool)
    requires digits != [] && digits[0] != '+' && digits[0] != '-'
    ensures var text := (if negative then "-" else "") + (if hex then "0x" else "0o") + digits;
            var v := RadixValue(digits, if hex then 16 else 8);
            ParseIntegerValue(text) ==
            if v.None? || !(0 <= v.value < 0x8000_0000_0000_0000) then None
            else Some(if negative then -v.value else v.value)
  {
    var body := (if hex then "0x" else "0o") + digits;
    PrefixedBody(digits, hex);
    MinusReads(body);
    hide *;
    if negative {
      assert "-" + (if hex then "0x" else "0o") + digits == "-" + body;
    } else {
      assert "" + (if hex then "0x" else "0o") + digits == body;
    }
  }

  lemma MinusReads(s: string)
    requires s != [] && s[0] != '-'
    ensures ParseIntegerValue("-" + s) ==
            var v := ParseIntegerValue(s);
            if v.None? || v.value == -0x8000_0000_0000_0000 then None else Some(-v.value)
  {
    hide ParseI64;
    assert ("-" + s)[0] == '-' && ("-" + s)[1..] == s;
  }

  lemma PrefixedBody(digits: string, hex: bool)
    requires digits != [] && digits[0] != '+' && digits[0] != '-'
    ensures ParseIntegerValue((if hex then "0x" else "0o") + digits) ==
            var v := RadixValue(digits, if hex then 16 else 8);
            if v.None? || !(0 <= v.value < 0x8000_0000_0000_0000) then None else Some(v.value)
  {
    hide RadixValue, ParseI64;
    var mark := if hex then "0x" else "0o";
    var body := mark + digits;
    assert body[0] == mark[0] && body[1] == mark[1] && body[2..] == digits;
    UnsignedParse(digits, if hex then 16 else 8);
  }

  lemma UnsignedParse(digits: string, radix: nat)
    requires digits != [] && digits[0] != '+' && digits[0] != '-'
    ensures ParseI64(digits, radix) ==
            var v := RadixValue(digits, radix);
            if v.None? || !(0 <= v.value < 0x8000_0000_0000_0000) then None else Some(v.value)
  {
    hide RadixValue;
    RadixIsNatural(digits, radix);
  }

  lemma {:induction false} RadixIsNatural(s: string, radix: nat)
    ensures RadixValue(s, radix).Some? ==> RadixValue(s, radix).value >= 0
  {
    if s != [] {
      RadixIsNatural(s[..|s| - 1], radix);
    }
  }

  // Each further digit multiplies by the base and adds its own value.
  lemma RadixStep(s: string, c: char, radix: nat)
    requires 2 <= radix <= 16
    ensures RadixValue([], radix) == Some(0)
    ensures '0' <= c <= '9' && c as int - '0' as int < radix && RadixValue(s, radix).Some? ==>
              RadixValue(s + [c], radix) == Some(RadixValue(s, radix).value * radix + (c as int - '0' as int))
    ensures radix == 16 && 'a' <= c <= 'f' && RadixValue(s, radix).Some? ==>
              RadixValue(s + [c], radix) == Some(RadixValue(s, radix).value * 16 + (c as int - 'a' as int + 10))
    ensures radix == 16 && 'A' <= c <= 'F' && RadixValue(s, radix).Some? ==>
              RadixValue(s + [c], radix) == Some(RadixValue(s, radix).value * 16 + (c as int - 'A' as int + 10))
  {
    assert (s + [c])[..|s|] == s;
    var rest, d := RadixValue(s, radix), DigitIn(c, radix);
    assert RadixValue(s + [c], radix) == if rest.None? || d.None? then None else Some(rest.value * radix + d.value);
    hide RadixValue;
  }
}
