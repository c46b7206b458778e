// Expression evaluation: the forms the planner and the executor rely on, with
// every other form left as an uninterpreted function of the row that may fail.

module Expressions {
  import opened GraphTypes
  import opened Floats

  datatype CompOp = Eq | Neq | Lt | Gt | Lte | Gte

  datatype Literal =
    | LInteger(i: I64)
    | LFloat(f: F64)
    | LString(s: string)
    | LBoolean(b: bool)
    | LNull

  datatype Expr =
    | Literal(lit: Literal)
    | Variable(name: string)
    | Property(base: Expr, key: string)
    | Comparison(left: Expr, op: CompOp, right: Expr)
    | And(l: Expr, r: Expr)
    | Or(l: Expr, r: Expr)
    | Xor(l: Expr, r: Expr)
    | Not(operand: Expr)
    | Neg(operand: Expr)
    | IsNull(operand: Expr)
    | HasLabel(of: Expr, lab: string)
    | Parameter(param: string)
    | Other(form: nat)

  // Query parameters, and the meaning of the forms not modelled; None is an error.
  datatype Context = Context(params: map<string, Value>, other: (nat, Record) -> Option<Value>)

  function LitValue(l: Literal): Value {
    match l
    case LInteger(i) => Integer(i)
    case LFloat(f) => FloatVal(f)
    case LString(s) => StringVal(s)
    case LBoolean(b) => Boolean(b)
    case LNull => Null
  }

  function GetProperty(v: Value, key: string): Value {
    match v
    case NodeVal(n) => if key in n.props then ToValue(n.props[key]) else Null
    case RelVal(e) => if key in e.props then ToValue(e.props[key]) else Null
    case _ => Null
  }

  // `str::cmp`: code points, shorter prefix first.
  function CompareStrings(a: string, b: string): Ordering {
    if a == [] && b == [] then Equal
    else if a == [] then Less
    else if b == [] then Greater
    else if a[0] < b[0] then Less
    else if a[0] > b[0] then Greater
    else CompareStrings(a[1..], b[1..])
  }

  lemma {:induction false} CompareStringsEqual(a: string, b: string)
    ensures CompareStrings(a, b) == Equal <==> a == b
  {
    if a != [] && b != [] && a[0] == b[0] {
      CompareStringsEqual(a[1..], b[1..]);
      assert a == [a[0]] + a[1..] && b == [b[0]] + b[1..];
    }
  }

  function ComparedFloats(a: F64, b: F64): Option<Ordering> {
    var (ordered, o) := CompareFloats(a, b);
    if ordered then Some(o) else None
  }

  function CompareValues(a: Value, b: Value): Option<Ordering> {
    match (a, b)
    case (Integer(x), Integer(y)) => Some(OrderInts(x, y))
    case (FloatVal(x), FloatVal(y)) => ComparedFloats(x, y)
    case (Integer(x), FloatVal(y)) => ComparedFloats(I64ToF64(x), y)
    case (FloatVal(x), Integer(y)) => ComparedFloats(x, I64ToF64(y))
    case (StringVal(x), StringVal(y)) => Some(CompareStrings(x, y))
    case (Boolean(x), Boolean(y)) => Some(if x == y then Equal else if y then Less else Greater)
    case _ => None
  }

  // `n.k = v` holds: the comparison of the filters.
  predicate ValuesEqual(a: Value, b: Value) {
    CompareValues(a, b) == Some(Equal)
  }

  function EvalComparison(a: Value, op: CompOp, b: Value): Value {
    if a.Null? || b.Null? then Null
    else
      match CompareValues(a, b)
      case None => Null
      case Some(o) =>
        Boolean(match op
                case Eq => o == Equal
                case Neq => o != Equal
                case Lt => o == Less
                case Gt => o == Greater
                case Lte => o != Greater
                case Gte => o != Less)
  }

  function ToBool(v: Value): Option<bool> {
    if v.Boolean? then Some(v.b) else None
  }

  // Three-valued connectives.
  function EvalAnd(a: Value, b: Value): Value {
    var x, y := ToBool(a), ToBool(b);
    if x == Some(false) || y == Some(false) then Boolean(false)
    else if x == Some(true) && y == Some(true) then Boolean(true)
    else Null
  }

  function EvalOr(a: Value, b: Value): Value {
    var x, y := ToBool(a), ToBool(b);
    if x == Some(true) || y == Some(true) then Boolean(true)
    else if x == Some(false) && y == Some(false) then Boolean(false)
    else Null
  }

  function EvalXor(a: Value, b: Value): Value {
    var x, y := ToBool(a), ToBool(b);
    if x.Some? && y.Some? then Boolean(x.value != y.value) else Null
  }

  function EvalNot(a: Value): Value {
    var x := ToBool(a);
    if x.Some? then Boolean(!x.value) else Null
  }

  // Unary minus: null for the least integer and for what is no number.
  function EvalNeg(a: Value): Value {
    match a
    case Integer(i) => if i == -0x8000_0000_0000_0000 then Null else Integer(-i)
    case FloatVal(f) => FloatVal(if f < TWO63 then f + TWO63 else f - TWO63)
    case _ => Null
  }

  predicate IsTruthy(v: Value) {
    v == Boolean(true)
  }

  lemma AndIsTruthy(a: Value, b: Value)
    ensures IsTruthy(EvalAnd(a, b)) <==> IsTruthy(a) && IsTruthy(b)
  {
  }

  // None is the error result.
  function Eval(e: Expr, rec: Record, ctx: Context): Option<Value> {
    match e
    case Literal(l) => Some(LitValue(l))
    case Variable(x) => Some(if x in rec then rec[x] else Null)
    case Property(b, k) =>
      var v := Eval(b, rec, ctx);
      if v.None? then None else Some(GetProperty(v.value, k))
    case Comparison(l, op, r) =>
      var (x, y) := (Eval(l, rec, ctx), Eval(r, rec, ctx));
      if x.None? || y.None? then None else Some(EvalComparison(x.value, op, y.value))
    case And(l, r) =>
      var (x, y) := (Eval(l, rec, ctx), Eval(r, rec, ctx));
      if x.None? || y.None? then None else Some(EvalAnd(x.value, y.value))
    case Or(l, r) =>
      var (x, y) := (Eval(l, rec, ctx), Eval(r, rec, ctx));
      if x.None? || y.None? then None else Some(EvalOr(x.value, y.value))
    case Xor(l, r) =>
      var (x, y) := (Eval(l, rec, ctx), Eval(r, rec, ctx));
      if x.None? || y.None? then None else Some(EvalXor(x.value, y.value))
    case Not(o) =>
      var v := Eval(o, rec, ctx);
      if v.None? then None else Some(EvalNot(v.value))
    case Neg(o) =>
      var v := Eval(o, rec, ctx);
      if v.None? then None else Some(EvalNeg(v.value))
    case IsNull(o) =>
      var v := Eval(o, rec, ctx);
      if v.None? then None else Some(Boolean(v.value.Null?))
    case HasLabel(o, l) =>
      var v := Eval(o, rec, ctx);
      if v.None? then None else Some(Boolean(v.value.NodeVal? && l in v.value.node.labels))
    case Parameter(p) => Some(if p in ctx.params then ctx.params[p] else Null)
    case Other(f) => ctx.other(f, rec)
  }

  predicate EvalsTrue(e: Expr, rec: Record, ctx: Context) {
    var v := Eval(e, rec, ctx);
    v.Some? && IsTruthy(v.value)
  }

  // Expressions whose value is the same on every row, and which cannot fail.
  predicate IsConstant(e: Expr) {
    e.Literal? || e.Parameter? || (e.Neg? && IsConstant(e.operand))
  }

  function ConstValue(e: Expr, ctx: Context): Value {
    match e
    case Literal(l) => LitValue(l)
    case Parameter(p) => if p in ctx.params then ctx.params[p] else Null
    case Neg(o) => EvalNeg(ConstValue(o, ctx))
    case _ => Null
  }

  lemma {:induction false} ConstantEval(e: Expr, rec: Record, ctx: Context)
    requires IsConstant(e)
    ensures Eval(e, rec, ctx) == Some(ConstValue(e, ctx))
  {
    if e.Neg? {
      ConstantEval(e.operand, rec, ctx);
    }
  }

  // The scalar a scan can look up; None for null, lists and entities.
  function AsScalar(v: Value): Option<PropertyValue> {
    match v
    case StringVal(s) => Some(Str(s))
    case Integer(i) => Some(Int(i))
    case FloatVal(f) => Some(Float(f))
    case Boolean(b) => Some(Bool(b))
    case _ => None
  }

  lemma ScalarRoundTrip(p: PropertyValue, v: Value)
    ensures AsScalar(v) == Some(p) <==> ToValue(p) == v
  {
  }

  // --- Where the filters' comparison and identity part ways ---

  // Some stored value equals `v` without being identical to it, or `v` does
  // not equal itself.
  ghost predicate HasTwin(v: Value) {
    match v
    case Integer(_) => true
    case FloatVal(f) => IsNaN(f) || IsZero(f) || exists i: I64 :: FloatEq(I64ToF64(i), f)
    case _ => false
  }

  lemma TwinsExactly(v: Value)
    ensures HasTwin(v) <==> exists p: PropertyValue :: !(ValuesEqual(ToValue(p), v) <==> ToValue(p) == v)
  {
    if v.Integer? {
      var p := Float(I64ToF64(v.i));
      assert ValuesEqual(ToValue(p), v) && ToValue(p) != v;
    } else if v.FloatVal? {
      if IsNaN(v.f) {
        assert !ValuesEqual(ToValue(Float(v.f)), v);
      } else if IsZero(v.f) {
        var p := Float(if v.f == 0 then TWO63 else 0);
        assert ValuesEqual(ToValue(p), v) && ToValue(p) != v;
      } else if i: I64 :| FloatEq(I64ToF64(i), v.f) {
        assert ValuesEqual(ToValue(Int(i)), v);
      }
    }
    if p: PropertyValue :| !(ValuesEqual(ToValue(p), v) <==> ToValue(p) == v) {
      if p.Str? && v.StringVal? {
        CompareStringsEqual(p.s, v.s);
      }
      if p.Int? && v.FloatVal? {
        assert FloatEq(I64ToF64(p.i), v.f);
      }
    }
  }
}
