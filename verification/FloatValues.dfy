// The numbers that bit patterns stand for: `partial_cmp` orders floats as
// their values, and `as f64` takes an integer to the nearest value.

module FloatValues {
  import opened Floats

  // The value of a finite float, in units of the smallest one above zero, which
  // is two to the power of -1074.
  function Units(f: F64): int {
    var m := MagnitudeUnits(Magnitude(f));
    if f < TWO63 then m else -m
  }

  // Exponent field 0 means no hidden bit.
  function MagnitudeUnits(m: int): int
    requires 0 <= m < TWO63
  {
    if m < TWO52 then m else (m % TWO52 + TWO52) * Pow2(m / TWO52 - 1)
  }

  predicate Finite(f: F64) {
    Magnitude(f) < INFINITY_BITS
  }

  lemma PowStep(n: nat)
    ensures Pow2(n + 1) == 2 * Pow2(n)
  {
  }

  // Within one exponent the units grow with the significand, and every value
  // of a higher exponent is larger.
  lemma UnitsBounds(m: int)
    requires TWO52 <= m < TWO63
    ensures TWO52 * Pow2(m / TWO52 - 1) <= MagnitudeUnits(m) < TWO52 * Pow2(m / TWO52)
  {
    var s, p := m % TWO52 + TWO52, Pow2(m / TWO52 - 1);
    PowStep(m / TWO52 - 1);
    MulLe(TWO52, s, p);
    MulLe(s + 1, 2 * TWO52, p);
    assert (s + 1) * p == s * p + p;
    assert 2 * TWO52 * p == TWO52 * (2 * p);
  }

  lemma UnitsGrow(a: int, b: int)
    requires 0 <= a < b < TWO63
    ensures MagnitudeUnits(a) < MagnitudeUnits(b)
  {
    if b >= TWO52 {
      var e := b / TWO52;
      UnitsBounds(b);
      if a < TWO52 {
        Pow2Monotone(0, e - 1);
        Scaled(1, Pow2(e - 1));
      } else if a / TWO52 == e {
        SameExponent(a, b);
      } else {
        UnitsBounds(a);
        Pow2Monotone(a / TWO52, e - 1);
        Scaled(Pow2(a / TWO52), Pow2(e - 1));
      }
    }
  }

  lemma Scaled(p: int, q: int)
    requires p <= q
    ensures TWO52 * p <= TWO52 * q
  {
  }

  lemma SameExponent(a: int, b: int)
    requires TWO52 <= a < b < TWO63 && a / TWO52 == b / TWO52
    ensures MagnitudeUnits(a) < MagnitudeUnits(b)
  {
    var x, y, p := a % TWO52 + TWO52, b % TWO52 + TWO52, Pow2(a / TWO52 - 1);
    assert x < y;
    MulLe(x + 1, y, p);
    assert (x + 1) * p == x * p + p;
  }

  lemma UnitsOfZero(m: int)
    requires 0 <= m < TWO63
    ensures MagnitudeUnits(m) >= 0 && (MagnitudeUnits(m) == 0 <==> m == 0)
  {
    if m > 0 {
      UnitsGrow(0, m);
    }
  }

  // Finite floats compare as their values do.
  lemma ComparesByValue(a: F64, b: F64)
    requires Finite(a) && Finite(b)
    ensures CompareFloats(a, b) == (true, OrderInts(Units(a), Units(b)))
  {
    var m, n := Magnitude(a), Magnitude(b);
    UnitsOfZero(m);
    UnitsOfZero(n);
    if m < n { UnitsGrow(m, n); }
    if n < m { UnitsGrow(n, m); }
  }

  // The infinities lie beyond every finite value, a NaN is not ordered.
  lemma ComparesBeyond(a: F64, b: F64)
    requires Finite(a) && !Finite(b)
    ensures CompareFloats(a, b).0 <==> !IsNaN(b)
    ensures !IsNaN(b) ==> CompareFloats(a, b).1 == if b < TWO63 then Less else Greater
  {
  }

  // The spacing of the floats around an integer of this magnitude, at least 1.
  function Spacing(m: int): int
    requires m > 0
  {
    if Log2(m) <= 52 then 1 else Pow2(Log2(m) - 52)
  }

  // The float for an integer has an integer value, which is the multiple of the
  // spacing nearest to it, an even multiple of two equally near.
  lemma ConvertsToNearest(i: I64) returns (n: int)
    requires i != 0
    ensures Finite(I64ToF64(i)) && Units(I64ToF64(i)) == (if i < 0 then -1 else 1) * (n * Pow2(1074))
    ensures Spacing(Abs(i)) > 0 && n % Spacing(Abs(i)) == 0
    ensures 2 * Abs(n - Abs(i)) <= Spacing(Abs(i))
    ensures 2 * Abs(n - Abs(i)) == Spacing(Abs(i)) ==> (n / Spacing(Abs(i))) % 2 == 0
  {
    hide Pow2, Log2, Significand, I64ToF64, Units;
    var m := Abs(i);
    ConvertedUnits(i);
    n := NearestMultiple(m);
  }

  lemma NearestMultiple(m: int) returns (n: int)
    requires m > 0
    ensures Spacing(m) > 0 && n % Spacing(m) == 0
    ensures Significand(m) * Pow2(Log2(m) + 1022) == n * Pow2(1074)
    ensures 2 * Abs(n - m) <= Spacing(m)
    ensures 2 * Abs(n - m) == Spacing(m) ==> (n / Spacing(m)) % 2 == 0
  {
    var e := Log2(m);
    hide Pow2, Log2, RoundDiv;
    if e <= 52 {
      n := m;
      Pow2Add(52 - e, e + 1022);
      Regrouped(m, Pow2(52 - e), Pow2(e + 1022));
    } else {
      var d, q := Pow2(e - 52), RoundDiv(m, Pow2(e - 52));
      n := q * d;
      Pow2Add(e - 52, 1074);
      Regrouped(q, d, Pow2(1074));
      Multiple(q, d);
      RoundsToNearest(m, d);
    }
  }

  lemma Regrouped(a: int, b: int, c: int)
    ensures a * b * c == a * (b * c)
  {
  }

  lemma Multiple(s: int, d: int)
    requires d > 0
    ensures (s * d) % d == 0 && (s * d) / d == s
  {
    var n, q, r := s * d, (s * d) / d, (s * d) % d;
    assert n == q * d + r && 0 <= r < d;
    assert (s + 1) * d == s * d + d && (q + 1) * d == q * d + d;
    if q > s {
      MulLe(s + 1, q, d);
    } else if q < s {
      MulLe(q + 1, s, d);
    }
  }

  lemma RoundsToNearest(m: int, d: int)
    requires m >= 0 && d > 0
    ensures 2 * Abs(RoundDiv(m, d) * d - m) <= d
    ensures 2 * Abs(RoundDiv(m, d) * d - m) == d ==> RoundDiv(m, d) % 2 == 0
  {
    var q, r := m / d, m % d;
    assert m == q * d + r;
    assert (q + 1) * d == q * d + d;
  }

  // Significand times power of two, also when rounding carries into the next exponent.
  lemma ConvertedUnits(i: I64)
    requires i != 0
    ensures var m := Abs(i);
            && Finite(I64ToF64(i))
            && Units(I64ToF64(i)) == (if i < 0 then -1 else 1) * (Significand(m) * Pow2(Log2(m) + 1022))
  {
    var m := Abs(i);
    var e, s := Log2(m), Significand(m);
    SignificandRange(m);
    LogBound(m);
    hide Log2, Significand;
    assert Magnitude(I64ToF64(i)) == (e + 1023) * TWO52 + (s - TWO52);
    FieldUnits(e, s);
  }

  lemma FieldUnits(e: nat, s: int)
    requires e <= 63 && TWO52 <= s <= 2 * TWO52
    ensures var bits := (e + 1023) * TWO52 + (s - TWO52);
            && bits < INFINITY_BITS
            && MagnitudeUnits(bits) == s * Pow2(e + 1022)
  {
    PowStep(e + 1022);
    if s < 2 * TWO52 {
      Fields(e + 1023, s - TWO52);
    } else {
      Fields(e + 1024, 0);
      assert TWO52 * (2 * Pow2(e + 1022)) == 2 * TWO52 * Pow2(e + 1022);
    }
  }

  lemma Fields(e: int, f: int)
    requires 0 <= f < TWO52
    ensures (e * TWO52 + f) / TWO52 == e && (e * TWO52 + f) % TWO52 == f
  {
  }
}
