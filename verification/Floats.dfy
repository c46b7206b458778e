// IEEE 754 binary64 values by bit pattern, with the comparisons Rust gives `f64`.

module Floats {

  const TWO52: int := 0x10_0000_0000_0000
  const TWO63: int := 0x8000_0000_0000_0000
  const INFINITY_BITS: int := 0x7FF0_0000_0000_0000

  type F64 = n: int | 0 <= n < 0x1_0000_0000_0000_0000
  type I64 = n: int | -0x8000_0000_0000_0000 <= n < 0x8000_0000_0000_0000

  datatype Ordering = Less | Equal | Greater

  // The bit pattern without the sign bit.
  function Magnitude(f: F64): (m: int)
    ensures 0 <= m < TWO63
  {
    if f < TWO63 then f else f - TWO63
  }

  predicate IsNaN(f: F64) {
    Magnitude(f) > INFINITY_BITS
  }

  predicate IsZero(f: F64) {
    Magnitude(f) == 0
  }

  // Finite values and infinities are ordered as these integers are.
  function Rank(f: F64): int {
    if f < TWO63 then f else TWO63 - f
  }

  function OrderInts(a: int, b: int): Ordering {
    if a < b then Less else if a == b then Equal else Greater
  }

  // `f64::partial_cmp`; None when either side is NaN.
  function CompareFloats(a: F64, b: F64): (r: (bool, Ordering))
  {
    if IsNaN(a) || IsNaN(b) then (false, Equal) else (true, OrderInts(Rank(a), Rank(b)))
  }

  // `==` on f64.
  predicate FloatEq(a: F64, b: F64) {
    !IsNaN(a) && !IsNaN(b) && Rank(a) == Rank(b)
  }

  // `==` and identity of bits part ways on NaN and on the two zeros, and nowhere else.
  lemma FloatEqVersusBits(a: F64, b: F64)
    ensures FloatEq(a, b) <==> (a == b && !IsNaN(a)) || (IsZero(a) && IsZero(b))
  {
  }

  function Pow2(n: nat): (p: int)
    ensures p > 0
  {
    if n == 0 then 1 else 2 * Pow2(n - 1)
  }

  // Position of the leading bit.
  function Log2(m: int): (e: nat)
    requires m > 0
    ensures Pow2(e) <= m < 2 * Pow2(e)
  {
    if m == 1 then 0 else 1 + Log2(m / 2)
  }

  // Nearest integer to m / d, ties to even.
  function RoundDiv(m: int, d: int): (q: int)
    requires m >= 0 && d > 0
    ensures m / d <= q <= m / d + 1
  {
    var q, r := m / d, m % d;
    if 2 * r < d then q
    else if 2 * r > d then q + 1
    else if q % 2 == 0 then q else q + 1
  }

  lemma {:induction false} Pow2Monotone(a: nat, b: nat)
    requires a <= b
    ensures Pow2(a) <= Pow2(b)
  {
    if a < b {
      Pow2Monotone(a, b - 1);
    }
  }

  lemma {:induction false} Pow2Add(a: nat, b: nat)
    ensures Pow2(a + b) == Pow2(a) * Pow2(b)
  {
    if a > 0 {
      Pow2Add(a - 1, b);
      assert Pow2(a + b) == 2 * Pow2(a - 1 + b);
      assert 2 * (Pow2(a - 1) * Pow2(b)) == (2 * Pow2(a - 1)) * Pow2(b);
    }
  }

  // The significand of `m as f64`, hidden bit included; 2^53 when rounding carries.
  function Significand(m: int): int
    requires m > 0
  {
    var e := Log2(m);
    if e <= 52 then m * Pow2(52 - e) else RoundDiv(m, Pow2(e - 52))
  }

  lemma Pow2At52()
    ensures Pow2(52) == TWO52
  {
    assert Pow2(13) == 8192;
    Pow2Add(13, 13);
    Pow2Add(26, 26);
  }

  lemma SignificandRange(m: int)
    requires m > 0
    ensures TWO52 <= Significand(m) <= 2 * TWO52
  {
    var e := Log2(m);
    Pow2At52();
    if e <= 52 {
      Pow2Add(e, 52 - e);
      ScaleBounds(m, Pow2(e), Pow2(52 - e));
    } else {
      Pow2Add(52, e - 52);
      DivBounds(m, TWO52, Pow2(e - 52));
    }
  }

  lemma ScaleBounds(m: int, l: int, p: int)
    requires p > 0 && l <= m < 2 * l
    ensures l * p <= m * p < 2 * (l * p)
  {
    MulLe(l, m, p);
    MulLe(m + 1, 2 * l, p);
    assert (m + 1) * p == m * p + p;
    assert 2 * l * p == 2 * (l * p);
  }

  lemma MulLe(a: int, b: int, p: int)
    requires a <= b && p > 0
    ensures a * p <= b * p
  {
  }

  lemma DivBounds(m: int, c: int, d: int)
    requires d > 0 && c * d <= m < 2 * (c * d)
    ensures c <= m / d < 2 * c
  {
    var q, r := m / d, m % d;
    assert m == q * d + r;
    if q < c {
      MulLe(q + 1, c, d);
    }
    assert 2 * c * d == 2 * (c * d);
    if q >= 2 * c {
      MulLe(2 * c, q, d);
    }
  }

  function Abs(i: int): int {
    if i < 0 then -i else i
  }

  // `i as f64`: round to nearest, ties to even.
  function I64ToF64(i: I64): (f: F64)
    ensures !IsNaN(f)
    ensures IsZero(f) <==> i == 0
  {
    if i == 0 then 0
    else
      var m := Abs(i);
      var e := Log2(m);
      SignificandRange(m);
      LogBound(m);
      var bits := (e + 1023) * TWO52 + (Significand(m) - TWO52);
      if i < 0 then bits + TWO63 else bits
  }

  lemma LogBound(m: int)
    requires 0 < m <= TWO63
    ensures Log2(m) <= 63
  {
    Pow2At52();
    Pow2Add(52, 12);
    if Log2(m) > 63 {
      Pow2Monotone(64, Log2(m));
    }
  }
}
