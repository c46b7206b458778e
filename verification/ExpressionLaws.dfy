// What the comparison operators and the three-valued connectives mean, in terms
// of numbers, texts and truth values.

module ExpressionLaws {
  import opened GraphTypes
  import opened Floats
  import opened FloatValues
  import opened Expressions

  predicate IsTrue(a: Value, op: CompOp, b: Value) {
    EvalComparison(a, op, b) == Boolean(true)
  }

  predicate IsFalse(a: Value, op: CompOp, b: Value) {
    EvalComparison(a, op, b) == Boolean(false)
  }

  // Every operator gives null on these.
  predicate Incomparable(a: Value, b: Value) {
    forall op: CompOp :: EvalComparison(a, op, b) == Null
  }

  // The six operators agree with an order in which `a` is below, at or above `b`.
  predicate Ordered(a: Value, b: Value, below: bool, same: bool) {
    && (if below then IsTrue(a, Lt, b) else IsFalse(a, Lt, b))
    && (if below || same then IsTrue(a, Lte, b) else IsFalse(a, Lte, b))
    && (if same then IsTrue(a, Eq, b) else IsFalse(a, Eq, b))
    && (if same then IsFalse(a, Neq, b) else IsTrue(a, Neq, b))
    && (if below then IsFalse(a, Gte, b) else IsTrue(a, Gte, b))
    && (if below || same then IsFalse(a, Gt, b) else IsTrue(a, Gt, b))
  }

  // --- Numbers ---

  lemma IntegersByValue(i: I64, j: I64)
    ensures Ordered(Integer(i), Integer(j), i < j, i == j)
  {
  }

  lemma FloatsByValue(x: F64, y: F64)
    ensures IsNaN(x) || IsNaN(y) ==> Incomparable(FloatVal(x), FloatVal(y))
    ensures Finite(x) && Finite(y) ==> Ordered(FloatVal(x), FloatVal(y), Units(x) < Units(y), Units(x) == Units(y))
    ensures Finite(x) && !Finite(y) && !IsNaN(y) ==> Ordered(FloatVal(x), FloatVal(y), y < TWO63, false)
  {
    if Finite(x) && Finite(y) { ComparesByValue(x, y); }
    if Finite(x) && !Finite(y) { ComparesBeyond(x, y); }
  }

  // An integer is compared as the float it converts to.
  lemma MixedByValue(i: I64, y: F64, op: CompOp)
    ensures EvalComparison(Integer(i), op, FloatVal(y)) == EvalComparison(FloatVal(I64ToF64(i)), op, FloatVal(y))
    ensures EvalComparison(FloatVal(y), op, Integer(i)) == EvalComparison(FloatVal(y), op, FloatVal(I64ToF64(i)))
  {
  }

  // --- Texts and truth values ---

  // The texts agree up to `k`, where the first ends or has the smaller character.
  predicate BeforeAt(s: string, t: string, k: nat) {
    k <= |s| && k < |t| && s[..k] == t[..k] && (k == |s| || s[k] < t[k])
  }

  ghost predicate Before(s: string, t: string) {
    exists k: nat :: BeforeAt(s, t, k)
  }

  lemma {:induction false} TextOrder(s: string, t: string)
    ensures CompareStrings(s, t) == Less <==> Before(s, t)
    ensures CompareStrings(s, t) == Greater <==> Before(t, s)
    decreases |s|
  {
    if s == [] || t == [] {
      if t != [] { assert BeforeAt(s, t, 0); }
      if s != [] { assert BeforeAt(t, s, 0); }
    } else if s[0] == t[0] {
      TextOrder(s[1..], t[1..]);
      BeforeTail(s, t);
      BeforeTail(t, s);
    } else {
      assert BeforeAt(s, t, 0) <==> s[0] < t[0];
      assert BeforeAt(t, s, 0) <==> t[0] < s[0];
      forall k: nat | k > 0 ensures !BeforeAt(s, t, k) && !BeforeAt(t, s, k) {
        assert k <= |s| && k <= |t| ==> s[..k][0] == s[0] && t[..k][0] == t[0];
      }
    }
  }

  lemma BeforeTail(s: string, t: string)
    requires s != [] && t != [] && s[0] == t[0]
    ensures Before(s, t) <==> Before(s[1..], t[1..])
  {
    forall k: nat ensures BeforeAt(s, t, k + 1) <==> BeforeAt(s[1..], t[1..], k) {
      if k + 1 <= |s| && k + 1 < |t| {
        assert s[..k + 1] == [s[0]] + s[1..][..k] && t[..k + 1] == [t[0]] + t[1..][..k];
        assert s[..k + 1] == t[..k + 1] ==> s[..k + 1][1..] == t[..k + 1][1..];
        assert s[..k + 1][1..] == s[1..][..k] && t[..k + 1][1..] == t[1..][..k];
      }
    }
    assert !BeforeAt(s, t, 0);
    if k: nat :| BeforeAt(s, t, k) {
      assert BeforeAt(s[1..], t[1..], k - 1);
    }
    if k: nat :| BeforeAt(s[1..], t[1..], k) {
      assert BeforeAt(s, t, k + 1);
    }
  }

  lemma TextsInOrder(s: string, t: string)
    ensures Ordered(StringVal(s), StringVal(t), Before(s, t), s == t)
  {
    TextOrder(s, t);
    CompareStringsEqual(s, t);
  }

  lemma FalseBeforeTrue(a: bool, b: bool)
    ensures Ordered(Boolean(a), Boolean(b), !a && b, a == b)
  {
  }

  // Two numbers, two texts and two truth values can be compared, nothing else.
  lemma OthersAreIncomparable(a: Value, b: Value)
    requires !((a.Integer? || a.FloatVal?) && (b.Integer? || b.FloatVal?))
    requires !(a.StringVal? && b.StringVal?) && !(a.Boolean? && b.Boolean?)
    ensures Incomparable(a, b)
  {
  }

  // --- Connectives ---

  // Null stands for not knowing: a connective is true or false when it would be
  // so whatever the unknown sides were, and unknown otherwise.
  lemma ConnectivesMean(a: Value, b: Value)
    ensures EvalAnd(a, b) == Boolean(true) <==> a == Boolean(true) && b == Boolean(true)
    ensures EvalAnd(a, b) == Boolean(false) <==> a == Boolean(false) || b == Boolean(false)
    ensures EvalOr(a, b) == Boolean(true) <==> a == Boolean(true) || b == Boolean(true)
    ensures EvalOr(a, b) == Boolean(false) <==> a == Boolean(false) && b == Boolean(false)
    ensures EvalXor(a, b) == Boolean(true) <==> a.Boolean? && b.Boolean? && a != b
    ensures EvalXor(a, b) == Boolean(false) <==> a.Boolean? && a == b
    ensures EvalNot(a) == Boolean(true) <==> a == Boolean(false)
    ensures EvalNot(a) == Boolean(false) <==> a == Boolean(true)
    ensures forall v :: v in {EvalAnd(a, b), EvalOr(a, b), EvalXor(a, b), EvalNot(a)} ==> v == Null || v.Boolean?
  {
  }

  // De Morgan, also with unknown sides.
  lemma ConnectivesAreDual(a: Value, b: Value)
    ensures EvalNot(EvalAnd(a, b)) == EvalOr(EvalNot(a), EvalNot(b))
    ensures EvalNot(EvalOr(a, b)) == EvalAnd(EvalNot(a), EvalNot(b))
  {
  }

  // A property that is not there is null, on nodes and relationships.
  lemma PropertyMeans(n: Node, e: Edge, key: string)
    ensures if key in n.props then AsScalar(GetProperty(NodeVal(n), key)) == Some(n.props[key]) else GetProperty(NodeVal(n), key) == Null
    ensures if key in e.props then AsScalar(GetProperty(RelVal(e), key)) == Some(e.props[key]) else GetProperty(RelVal(e), key) == Null
  {
  }
}
