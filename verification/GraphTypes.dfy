// The value types of egrph-core/src/graph/types.rs.

module GraphTypes {
  import opened Floats

  type NodeId = nat
  type EdgeId = nat

  datatype Option<+T> = None | Some(value: T)

  datatype PropertyValue =
    | Str(s: string)
    | Int(i: I64)
    | Float(f: F64)
    | Bool(b: bool)

  type Props = map<string, PropertyValue>

  datatype Node = Node(id: NodeId, labels: seq<string>, props: Props)

  datatype Edge = Edge(id: EdgeId, relType: string, src: NodeId, dst: NodeId, props: Props)

  datatype Direction = Outgoing | Incoming | Undirected

  // Query-time values. Maps, dates and timestamps are not part of this model.
  datatype Value =
    | Null
    | Boolean(b: bool)
    | Integer(i: I64)
    | FloatVal(f: F64)
    | StringVal(s: string)
    | ListVal(items: seq<Value>)
    | NodeVal(node: Node)
    | RelVal(edge: Edge)
    | PathVal(nodes: seq<Node>, rels: seq<Edge>)

  type Record = map<string, Value>

  // Every column but the given ones is as it was.
  ghost predicate SameBut(rec: Record, row: Record, changed: set<string>) {
    forall c :: c !in changed ==> (c in row <==> c in rec) && (c in rec ==> row[c] == rec[c])
  }

  // `PropertyValue: PartialEq`, which is also `property_values_equal`: floats by IEEE `==`.
  predicate PropEq(a: PropertyValue, b: PropertyValue) {
    match (a, b)
    case (Str(x), Str(y)) => x == y
    case (Int(x), Int(y)) => x == y
    case (Float(x), Float(y)) => FloatEq(x, y)
    case (Bool(x), Bool(y)) => x == y
    case _ => false
  }

  // Values on which `==` and identity agree whatever they are compared with.
  predicate Exact(v: PropertyValue) {
    v.Float? ==> !IsNaN(v.f) && !IsZero(v.f)
  }

  predicate NotNaN(v: PropertyValue) {
    v.Float? ==> !IsNaN(v.f)
  }

  predicate NotZeroFloat(v: PropertyValue) {
    v.Float? ==> !IsZero(v.f)
  }

  predicate AllExact(p: Props) {
    forall k :: k in p ==> Exact(p[k])
  }

  // `==` coincides with identity against every value exactly for `Exact` values.
  lemma ExactIsTight(v: PropertyValue)
    ensures Exact(v) <==> forall w :: PropEq(w, v) <==> w == v
  {
    if !Exact(v) {
      if IsNaN(v.f) {
        assert !PropEq(v, v);
      } else {
        var w := if v.f == 0 then Float(TWO63) else Float(0);
        assert PropEq(w, v) && w != v;
      }
    }
  }

  function ToValue(p: PropertyValue): Value {
    match p
    case Str(s) => StringVal(s)
    case Int(i) => Integer(i)
    case Float(f) => FloatVal(f)
    case Bool(b) => Boolean(b)
  }
}
